/**
 drm_auth.c, the table of magics: sixteen singly linked lists with head and tail, which
 together are a queue of files for each magic number.
 */
module MagicTable {
  import opened Options

  /** drm_magic_t is an unsigned 32-bit number. */
  type Magic = m: int | 0 <= m < 0x1_0000_0000

  const HASH_SIZE: int := 16

  /** The low four bits. */
  function HashMagic(m: Magic): (h: nat)
    ensures h < HASH_SIZE && h == m % 16
  {
    m % HASH_SIZE
  }

  /** An open file; `master` is the table its magics live in. */
  class File {
    const master: Table
    var magic: Magic
    var authenticated: bool

    constructor (master: Table)
      ensures this.master == master && magic == 0 && !authenticated
    {
      this.master, magic, authenticated := master, 0, false;
    }
  }

  class Entry {
    const magic: Magic
    const priv: File
    var next: Entry?

    constructor (magic: Magic, priv: File)
      ensures this.magic == magic && this.priv == priv && next == null
    {
      this.magic, this.priv, next := magic, priv, null;
    }
  }

  /** The files a list holds under one magic, oldest first. */
  function FilesOf(list: seq<Entry>, m: Magic): seq<File> {
    if list == [] then []
    else FilesOf(list[..|list| - 1], m) + if list[|list| - 1].magic == m then [list[|list| - 1].priv] else []
  }

  lemma {:induction false} FilesOfAppend(a: seq<Entry>, b: seq<Entry>, m: Magic)
    ensures FilesOf(a + b, m) == FilesOf(a, m) + FilesOf(b, m)
    decreases |b|
  {
    if b == [] {
      assert a + b == a;
    } else {
      assert (a + b)[..|a + b| - 1] == a + b[..|b| - 1];
      FilesOfAppend(a, b[..|b| - 1], m);
    }
  }

  lemma {:induction false} FilesOfNone(list: seq<Entry>, m: Magic)
    ensures FilesOf(list, m) == [] <==> forall i :: 0 <= i < |list| ==> list[i].magic != m
  {
    if list != [] { FilesOfNone(list[..|list| - 1], m); }
  }

  /** Taking the first entry of `m` out of a list takes the oldest file of `m`, and no other. */
  lemma FilesOfWithout(list: seq<Entry>, i: nat, k: Magic)
    requires i < |list| && forall j :: 0 <= j < i ==> list[j].magic != list[i].magic
    ensures FilesOf(list, list[i].magic) != [] && FilesOf(list, list[i].magic)[0] == list[i].priv
    ensures FilesOf(list[..i] + list[i + 1..], k) ==
            if k == list[i].magic then FilesOf(list, k)[1..] else FilesOf(list, k)
  {
    var m := list[i].magic;
    var front, back := list[..i], list[i + 1..];
    assert list == front + [list[i]] + back;
    assert [list[i]][..0] == [];
    FilesOfAppend(front, back, k);
    FilesOfAppend(front, [list[i]], k);
    FilesOfAppend(front + [list[i]], back, k);
    FilesOfAppend(front, [list[i]], m);
    FilesOfAppend(front + [list[i]], back, m);
    FilesOfNone(front, m);
  }

  function LinkAt(list: seq<Entry>, i: nat): Entry? {
    if i < |list| then list[i] else null
  }

  ghost predicate Linked(list: seq<Entry>)
    reads list
  {
    forall i :: 0 <= i < |list| ==> list[i].next == LinkAt(list, i + 1)
  }

  /** The files waiting under each magic in a table of lists. */
  function Queues(lists: seq<seq<Entry>>): Magic -> seq<File>
    requires |lists| == HASH_SIZE
  {
    (m: Magic) => FilesOf(lists[HashMagic(m)], m)
  }

  ghost predicate NoneBefore(list: seq<Entry>, n: nat, m: Magic)
    requires n <= |list|
  {
    forall j :: 0 <= j < n ==> list[j].magic != m
  }

  lemma QueuesWithout(was: seq<seq<Entry>>, h: nat, i: nat, now: seq<seq<Entry>>)
    requires |was| == HASH_SIZE && h < HASH_SIZE && i < |was[h]| && h == HashMagic(was[h][i].magic)
    requires now == was[h := was[h][..i] + was[h][i + 1..]]
    requires NoneBefore(was[h], i, was[h][i].magic)
    ensures Queues(was)(was[h][i].magic) != []
    ensures forall k :: Queues(now)(k) == if k == was[h][i].magic then Queues(was)(k)[1..] else Queues(was)(k)
  {
    FilesOfWithout(was[h], i, was[h][i].magic);
    forall k ensures Queues(now)(k) == if k == was[h][i].magic then Queues(was)(k)[1..] else Queues(was)(k) {
      FilesOfWithout(was[h], i, k);
    }
  }

  /** No magic stands for two files. */
  ghost predicate Singles(q: Magic -> seq<File>) {
    forall m :: |q(m)| <= 1
  }

  /** The queues as a map from magic to file. */
  ghost function FirstOf(q: Magic -> seq<File>): map<Magic, File> {
    map m | 0 <= m < 0x1_0000_0000 && q(m) != [] :: q(m)[0]
  }

  lemma Same(q: Magic -> seq<File>, q': Magic -> seq<File>)
    requires Singles(q) && forall k :: q'(k) == q(k)
    ensures Singles(q') && FirstOf(q') == FirstOf(q)
  {
  }

  /** Queueing a file under an unused magic adds it to the map. */
  lemma Added(q: Magic -> seq<File>, q': Magic -> seq<File>, m: Magic, priv: File)
    requires Singles(q) && m !in FirstOf(q)
    requires forall k :: q'(k) == if k == m then q(k) + [priv] else q(k)
    ensures Singles(q') && FirstOf(q') == FirstOf(q)[m := priv]
  {
    assert q'(m) == [priv];
  }

  /** Taking the oldest file of `m`, if there is one, takes `m` out of the map. */
  lemma Dropped(q: Magic -> seq<File>, q': Magic -> seq<File>, m: Magic)
    requires Singles(q)
    requires forall k :: q'(k) == if k == m && q(m) != [] then q(k)[1..] else q(k)
    ensures Singles(q') && FirstOf(q') == FirstOf(q) - {m}
  {
    assert q'(m) == [];
  }

  class Table {
    const heads: array<Entry?>
    const tails: array<Entry?>
    ghost var lists: seq<seq<Entry>>

    /** Each bucket is an acyclic list from its head to its tail, and holds entries of its own hash only. */
    ghost predicate Bucket(h: nat)
      requires heads.Length == HASH_SIZE && tails.Length == HASH_SIZE && |lists| == HASH_SIZE && h < HASH_SIZE
      reads this, heads, tails, Entries()
    {
      var list := lists[h];
      && heads[h] == LinkAt(list, 0)
      && tails[h] == (if list == [] then null else list[|list| - 1])
      && Linked(list)
      && (forall i, j :: 0 <= i < j < |list| ==> list[i] != list[j])
      && (forall e :: e in list ==> HashMagic(e.magic) == h)
    }

    ghost predicate Shape()
      reads this
    {
      heads.Length == HASH_SIZE && tails.Length == HASH_SIZE && heads != tails && |lists| == HASH_SIZE
    }

    ghost function Entries(): set<Entry>
      reads this
    {
      set h, i | 0 <= h < |lists| && 0 <= i < |lists[h]| :: lists[h][i]
    }

    ghost predicate Valid()
      reads this, heads, tails, Entries()
    {
      Shape() && forall h :: 0 <= h < HASH_SIZE ==> Bucket(h)
    }

    ghost function Queue(m: Magic): seq<File>
      requires Shape()
      reads this
    {
      Queues(lists)(m)
    }

    ghost predicate Unique()
      requires Shape()
      reads this
    {
      Singles(Queues(lists))
    }

    ghost function Files(): map<Magic, File>
      requires Shape()
      reads this
    {
      FirstOf(Queues(lists))
    }

    constructor ()
      ensures Valid() && forall m :: Queue(m) == []
      ensures fresh(heads) && fresh(tails) && fresh(Entries())
    {
      heads := new Entry?[HASH_SIZE](_ => null);
      tails := new Entry?[HASH_SIZE](_ => null);
      lists := seq(HASH_SIZE, _ => []);
    }

    method FindFile(m: Magic) returns (file: File?)
      requires Valid()
      ensures file == if Queue(m) == [] then null else Queue(m)[0]
    {
      var h := HashMagic(m);
      ghost var list := lists[h];
      ghost var i := 0;
      assert Bucket(h);
      var pt := heads[h];
      while pt != null
        invariant 0 <= i <= |list|
        invariant pt == LinkAt(list, i)
        invariant forall j :: 0 <= j < i ==> list[j].magic != m
        decreases |list| - i
      {
        assert Bucket(h);
        if pt.magic == m {
          FilesOfWithout(list, i, m);
          return pt.priv;
        }
        pt := pt.next;
        i := i + 1;
      }
      FilesOfNone(list, m);
      return null;
    }

    /** A bucket none of whose links moved is as good as it was. */
    twostate lemma BucketKept(h: nat)
      requires old(Shape()) && Shape() && h < HASH_SIZE && old(Bucket(h))
      requires lists[h] == old(lists[h]) && heads[h] == old(heads[h]) && tails[h] == old(tails[h])
      requires forall e :: e in lists[h] ==> e.next == old(e.next)
      ensures Bucket(h)
    {
    }

    /** Hanging a new entry on the tail of its list. */
    method Hang(h: nat, entry: Entry)
      requires Valid() && h == HashMagic(entry.magic) && entry.next == null && entry !in Entries()
      modifies this, heads, tails, Entries()
      ensures Valid() && lists == old(lists)[h := old(lists[h]) + [entry]]
    {
      ghost var list := lists[h];
      assert Bucket(h);
      assert list != [] ==> list[|list| - 1] in Entries();
      if tails[h] != null {
        tails[h].next := entry;
        tails[h] := entry;
      } else {
        heads[h] := entry;
        tails[h] := entry;
      }
      lists := lists[h := list + [entry]];
      assert Bucket(h);
      forall h2 | 0 <= h2 < HASH_SIZE ensures Bucket(h2) {
        assert old(Bucket(h2));
        if h2 != h { BucketKept(h2); }
      }
    }

    /** Append at the tail; `memory` says whether an entry could be allocated. */
    method AddMagic(priv: File, m: Magic, memory: bool) returns (ok: bool)
      requires Valid()
      modifies this, heads, tails, Entries()
      ensures Valid() && ok == memory && fresh(Entries() - old(Entries()))
      ensures forall k :: Queues(lists)(k) ==
                if ok && k == m then Queues(old(lists))(k) + [priv] else Queues(old(lists))(k)
    {
      if !memory { return false; }
      var entry := new Entry(m, priv);
      ghost var list := lists[HashMagic(m)];
      Hang(HashMagic(m), entry);
      forall k ensures Queues(lists)(k) == if k == m then Queues(old(lists))(k) + [priv] else Queues(old(lists))(k) {
        FilesOfAppend(list, [entry], k);
        assert [entry][..0] == [];
      }
      return true;
    }

    /** The list without its entry at `i`, once the links around that entry have been moved. */
    lemma Unhooked(h: nat, was: seq<Entry>, i: nat)
      requires Shape() && h < HASH_SIZE && i < |was| && lists[h] == was[..i] + was[i + 1..]
      requires heads[h] == LinkAt(lists[h], 0)
      requires tails[h] == if i + 1 < |was| then was[|was| - 1] else if i == 0 then null else was[i - 1]
      requires forall j :: 0 <= j < |was| ==> was[j].next == LinkAt(was, if j + 1 == i then i + 1 else j + 1)
      requires forall j, k :: 0 <= j < k < |was| ==> was[j] != was[k]
      requires forall e :: e in was ==> HashMagic(e.magic) == h
      ensures Bucket(h)
    {
      var now := lists[h];
      WithoutOne(was, i, now);
      forall j | 0 <= j < |now| ensures now[j].next == LinkAt(now, j + 1) {
        assert now[j] == if j < i then was[j] else was[j + 1];
      }
    }

    /** A list without one of its entries: who is where, and who comes next. */
    lemma WithoutOne(was: seq<Entry>, i: nat, now: seq<Entry>)
      requires i < |was| && now == was[..i] + was[i + 1..]
      requires forall j, k :: 0 <= j < k < |was| ==> was[j] != was[k]
      ensures |now| == |was| - 1 && forall j :: 0 <= j < |now| ==> now[j] == if j < i then was[j] else was[j + 1]
      ensures forall j, k :: 0 <= j < k < |now| ==> now[j] != now[k]
      ensures forall e :: e in now ==> e in was
    {
    }

    /** Unlinking the entry at position `i` of its list; `prev` is the one before it. */
    method Unhook(h: nat, prev: Entry?, pt: Entry, ghost i: nat)
      requires Valid() && h < HASH_SIZE && i < |lists[h]| && pt == lists[h][i]
      requires prev == if i == 0 then null else lists[h][i - 1]
      modifies this, heads, tails, Entries()
      ensures Valid() && lists == old(lists)[h := old(lists[h])[..i] + old(lists[h])[i + 1..]]
    {
      ghost var list := lists[h];
      assert Bucket(h);
      assert i > 0 ==> list[i - 1] in Entries();
      if heads[h] == pt {
        heads[h] := pt.next;
      }
      if tails[h] == pt {
        tails[h] := prev;
      }
      if prev != null {
        prev.next := pt.next;
      }
      lists := lists[h := list[..i] + list[i + 1..]];
      Unhooked(h, list, i);
      forall h2 | 0 <= h2 < HASH_SIZE ensures Bucket(h2) {
        assert old(Bucket(h2));
        if h2 != h { BucketKept(h2); }
      }
    }

    method RemoveMagic(m: Magic) returns (ok: bool)
      requires Valid()
      modifies this, heads, tails, Entries()
      ensures Valid() && Entries() <= old(Entries())
      ensures ok == (Queues(old(lists))(m) != [])
      ensures forall k :: Queues(lists)(k) ==
                if ok && k == m then Queues(old(lists))(k)[1..] else Queues(old(lists))(k)
    {
      var h := HashMagic(m);
      ghost var was := lists;
      var prev, pt;
      ghost var at;
      prev, pt, at := Search(h, m);
      if pt == null {
        FilesOfNone(lists[h], m);
        return false;
      }
      Unhook(h, prev, pt, at);
      QueuesWithout(was, h, at, lists);
      return true;
    }

    /** The loop: the first entry of `m` in a list, and the one before it. */
    method Search(h: nat, m: Magic) returns (prev: Entry?, pt: Entry?, ghost at: nat)
      requires Valid() && h < HASH_SIZE
      ensures at <= |lists[h]| && pt == LinkAt(lists[h], at) && prev == (if at == 0 then null else lists[h][at - 1])
      ensures NoneBefore(lists[h], at, m) && (pt != null ==> pt.magic == m)
    {
      assert Bucket(h);
      prev, pt, at := null, heads[h], 0;
      while pt != null && pt.magic != m
        invariant at <= |lists[h]| && pt == LinkAt(lists[h], at) && prev == if at == 0 then null else lists[h][at - 1]
        invariant NoneBefore(lists[h], at, m)
        decreases |lists[h]| - at
      {
        prev, pt := pt, pt.next;
        at := at + 1;
      }
    }
  }
}
