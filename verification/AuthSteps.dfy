/** drm_auth.c, the one-shot token protocol: what each call does to the sequence, a table and a file. */
module AuthSteps {
  import opened Options
  import opened MagicTable

  const LIMIT: int := 0x1_0000_0000

  /** The d-th number after `s`, which wraps at 32 bits. */
  function After(s: Magic, d: nat): Magic { (s + d) % LIMIT }

  lemma AfterNext(s: Magic, d: nat)
    ensures After(s, d + 1) == (After(s, d) + 1) % LIMIT
  {
  }

  /** `m` is the first number after `s` that no file holds. */
  predicate NextUnused(s: Magic, used: set<Magic>, m: Magic) {
    m !in used && exists d :: 1 <= d <= LIMIT && m == After(s, d) && forall k :: 1 <= k < d ==> After(s, k) in used
  }

  predicate GetMagicEffect<F(==)>(s: Magic, t: map<Magic, F>, own: Magic, f: F, memory: bool, s': Magic, t': map<Magic, F>, m: Magic) {
    if own != 0 then m == own && s' == s && t' == t
    else NextUnused(s, t.Keys, m) && s' == m && t' == if memory then t[m := f] else t
  }

  /**
   A file that has a magic gets it again and nothing changes.  Otherwise the sequence goes on from
   number to number, past those in the table, to the first that is not: that is the file's, and is
   put in the table if there is memory for it.
   */
  lemma GetMagicIs<F>(s: Magic, t: map<Magic, F>, own: Magic, f: F, memory: bool, s': Magic, t': map<Magic, F>, m: Magic)
    ensures GetMagicEffect(s, t, own, f, memory, s', t', m) ==
            if own != 0 then m == own && s' == s && t' == t
            else && m !in t && (forall n: Magic :: (if s < m then s < n < m else n > s || n < m) ==> n in t)
                 && s' == m && t' == if memory then t[m := f] else t
  {
    NextUnusedIs(s, t.Keys, m);
  }

  /** All numbers between `s` and `m`, counting up and round, are in use. */
  lemma NextUnusedIs(s: Magic, used: set<Magic>, m: Magic)
    ensures NextUnused(s, used, m) <==> m !in used && forall n: Magic :: (if s < m then s < n < m else n > s || n < m) ==> n in used
  {
    if NextUnused(s, used, m) {
      var d :| 1 <= d <= LIMIT && m == After(s, d) && forall k :: 1 <= k < d ==> After(s, k) in used;
      forall n: Magic | if s < m then s < n < m else n > s || n < m ensures n in used {
        assert n == After(s, if n > s then n - s else n + LIMIT - s);
      }
    }
    if m !in used && forall n: Magic :: (if s < m then s < n < m else n > s || n < m) ==> n in used {
      var d := if m > s then m - s else m + LIMIT - s;
      assert m == After(s, d);
      forall k | 1 <= k < d ensures After(s, k) in used { assert After(s, k) == if s + k < LIMIT then s + k else s + k - LIMIT; }
    }
  }

  function ReleaseEffect<F>(t: map<Magic, F>, own: Magic): map<Magic, F> {
    if own != 0 then t - {own} else t
  }

  function UpTo(n: nat): (r: set<int>)
    ensures |r| == n && forall i :: i in r <==> 0 <= i < n
  {
    if n == 0 then {} else UpTo(n - 1) + {n - 1}
  }

  lemma {:induction false} SubsetSize<T>(a: set<T>, b: set<T>)
    requires a <= b
    ensures |a| <= |b|
  {
    if a != {} {
      var x :| x in a;
      SubsetSize(a - {x}, b - {x});
    }
  }

  /** While not every number is in use, the search for an unused one ends within one turn round. */
  lemma SomeUnused(s: Magic, used: set<Magic>) returns (d: nat)
    requires |used| < LIMIT
    ensures 1 <= d <= LIMIT && After(s, d) !in used
  {
    if forall i :: 0 <= i < LIMIT ==> i in used {
      var all: set<int> := set m: Magic | m in used :: m;
      assert UpTo(LIMIT) <= used;
      SubsetSize(UpTo(LIMIT), used);
    }
    var m :| 0 <= m < LIMIT && m !in used;
    d := if m > s then m - s else m + LIMIT - s;
  }

  /** The table's calls, on the map it stands for. */
  method Look(table: Table, m: Magic) returns (file: File?)
    requires table.Valid() && table.Unique()
    ensures file == if m in table.Files() then table.Files()[m] else null
  {
    file := table.FindFile(m);
  }

  method Put(table: Table, priv: File, m: Magic, memory: bool)
    requires table.Valid() && table.Unique() && m !in table.Files()
    modifies table, table.heads, table.tails, table.Entries()
    ensures table.Valid() && table.Unique()
    ensures table.Files() == if memory then old(table.Files())[m := priv] else old(table.Files())
  {
    ghost var before := Queues(table.lists);
    var ok := table.AddMagic(priv, m, memory);
    if ok { Added(before, Queues(table.lists), m, priv); } else { Same(before, Queues(table.lists)); }
  }

  method Drop(table: Table, m: Magic)
    requires table.Valid() && table.Unique()
    modifies table, table.heads, table.tails, table.Entries()
    ensures table.Valid() && table.Unique()
    ensures table.Files() == old(table.Files()) - {m}
  {
    ghost var before := Queues(table.lists);
    var _ := table.RemoveMagic(m);
    Dropped(before, Queues(table.lists), m);
  }

  class Auth {
    var sequence: Magic

    /** The next number, and who holds it. */
    method Advance(table: Table) returns (m: Magic, holder: File?)
      requires table.Valid() && table.Unique()
      modifies this
      ensures table.Valid() && table.Unique() && table.Files() == old(table.Files())
      ensures sequence == m == (old(sequence) + 1) % LIMIT
      ensures holder == null <==> m !in table.Files()
    {
      m := (sequence + 1) % LIMIT;
      sequence := m;
      assert unchanged(table, table.heads, table.tails, table.Entries());
      forall h | 0 <= h < HASH_SIZE ensures table.Bucket(h) {
        assert old(table.Bucket(h));
      }
      holder := Look(table, m);
    }

    /** Take numbers until one is not in the table. */
    method NextMagic(table: Table) returns (m: Magic)
      requires table.Valid() && table.Unique() && |table.Files()| < LIMIT
      modifies this
      ensures table.Valid() && table.Unique() && table.Files() == old(table.Files())
      ensures NextUnused(old(sequence), table.Files().Keys, m) && sequence == m
    {
      ghost var used := table.Files().Keys;
      ghost var bound := SomeUnused(sequence, used);
      ghost var d := 0;
      m := sequence;
      while true
        invariant table.Valid() && table.Unique() && table.Files() == old(table.Files())
        invariant 0 <= d < bound && sequence == After(old(sequence), d)
        invariant forall k :: 1 <= k <= d ==> After(old(sequence), k) in used
        decreases bound - d
      {
        var holder: File?;
        AfterNext(old(sequence), d);
        m, holder := Advance(table);
        d := d + 1;
        if holder == null { break; }
      }
    }

    method GetMagic(file: File, memory: bool) returns (m: Magic)
      requires file.master.Valid() && file.master.Unique() && |file.master.Files()| < LIMIT
      modifies this, file`magic, file.master, file.master.heads, file.master.tails, file.master.Entries()
      ensures file.master.Valid() && file.master.Unique()
      ensures GetMagicEffect(old(sequence), old(file.master.Files()), old(file.magic), file, memory, sequence, file.master.Files(), m)
      ensures file.magic == m
    {
      if file.magic != 0 {
        return file.magic;
      }
      m := NextMagic(file.master);
      file.magic := m;
      Put(file.master, file, m, memory);
    }

    /** Succeeds exactly for a magic in the caller's table, and uses it up. */
    method AuthMagic(caller: File, m: Magic) returns (ok: bool)
      requires caller.master.Valid() && caller.master.Unique()
      modifies (if m in caller.master.Files() then {caller.master.Files()[m]} else {})`authenticated
      modifies caller.master, caller.master.heads, caller.master.tails, caller.master.Entries()
      ensures caller.master.Valid() && caller.master.Unique()
      ensures ok <==> m in old(caller.master.Files())
      ensures ok ==> old(caller.master.Files())[m].authenticated
      ensures caller.master.Files() == old(caller.master.Files()) - {m}
    {
      var table := caller.master;
      var holder := Look(table, m);
      if holder == null {
        return false;
      }
      holder.authenticated := true;
      Drop(table, m);
      return true;
    }

    /** Closing a file takes its magic out of the table. */
    method Release(file: File)
      requires file.master.Valid() && file.master.Unique()
      modifies file.master, file.master.heads, file.master.tails, file.master.Entries()
      ensures file.master.Valid() && file.master.Unique()
      ensures file.master.Files() == ReleaseEffect(old(file.master.Files()), file.magic)
      ensures file.master.Files() == if file.magic != 0 then old(file.master.Files()) - {file.magic} else old(file.master.Files())
    {
      if file.magic != 0 {
        Drop(file.master, file.magic);
      }
    }
  }
}
