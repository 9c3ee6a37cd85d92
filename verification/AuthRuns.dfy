/** Whole runs of the token protocol: several masters and files, one sequence. */
module AuthRuns {
  import opened Options
  import opened MagicTable
  import opened AuthSteps

  /** An open file: whose table it uses, its magic (0 for none) and whether it has been authenticated. */
  datatype Info = Info(master: nat, magic: Magic, authenticated: bool)

  /** A magic handed out, and whether its table entry could be allocated. */
  datatype Grant = Grant(master: nat, magic: Magic, file: nat, stored: bool)

  /** `seen`, `issued` and `used` record the run so far. */
  datatype State = State(
    sequence: Magic, tables: map<nat, map<Magic, nat>>, files: map<nat, Info>,
    seen: set<nat>, issued: seq<Grant>, used: seq<Grant>)
  {
    function Table(master: nat): map<Magic, nat> { if master in tables then tables[master] else map[] }
  }

  datatype Action =
    | Open(file: nat, master: nat)
    | GetMagic(file: nat, memory: bool, magic: Magic)
    | AuthMagic(caller: nat, magic: Magic, ok: bool)
    | Release(file: nat)

  ghost predicate OpenStep(s: State, f: nat, master: nat, s': State) {
    f !in s.seen && s' == s.(seen := s.seen + {f}, files := s.files[f := Info(master, 0, false)])
  }

  ghost predicate GetMagicStep(s: State, f: nat, memory: bool, m: Magic, s': State) {
    && f in s.files
    && var info := s.files[f];
       var t' := s'.Table(info.master);
       && GetMagicEffect(s.sequence, s.Table(info.master), info.magic, f, memory, s'.sequence, t', m)
       && s' == s.(sequence := s'.sequence, tables := s.tables[info.master := t'],
                   files := s.files[f := info.(magic := m)],
                   issued := if info.magic != 0 then s.issued else s.issued + [Grant(info.master, m, f, memory)])
  }

  /** The grant a table entry stands for. */
  function GrantOf(s: State, master: nat, m: Magic): Grant
    requires m in s.Table(master)
  {
    Grant(master, m, s.Table(master)[m], true)
  }

  ghost predicate AuthMagicStep(s: State, caller: nat, m: Magic, ok: bool, s': State) {
    && caller in s.files
    && var master := s.files[caller].master;
       && (ok <==> m in s.Table(master))
       && s' == if !ok then s else
                  var holder := s.Table(master)[m];
                  s.(tables := s.tables[master := s.Table(master) - {m}],
                     files := if holder in s.files then s.files[holder := s.files[holder].(authenticated := true)] else s.files,
                     used := s.used + [GrantOf(s, master, m)])
  }

  ghost predicate ReleaseStep(s: State, f: nat, s': State) {
    && f in s.files
    && var info := s.files[f];
       s' == s.(tables := s.tables[info.master := ReleaseEffect(s.Table(info.master), info.magic)], files := s.files - {f})
  }

  ghost predicate Next(s: State, a: Action, s': State) {
    match a
    case Open(f, master) => OpenStep(s, f, master, s')
    case GetMagic(f, memory, m) => GetMagicStep(s, f, memory, m, s')
    case AuthMagic(caller, m, ok) => AuthMagicStep(s, caller, m, ok, s')
    case Release(f) => ReleaseStep(s, f, s')
  }

  const START := State(0, map[], map[], {}, [], [])

  ghost predicate IsRun(run: seq<State>, acts: seq<Action>) {
    && |run| == |acts| + 1 && run[0] == START
    && forall i :: 0 <= i < |acts| ==> Next(run[i], acts[i], run[i + 1])
  }

  // ---------- what every run keeps while fewer than 2^32 magics have been issued ----------

  predicate IssuedAs(s: State, g: Grant) {
    1 <= g.magic <= |s.issued| && s.issued[g.magic - 1] == g
  }

  predicate EntryOk(s: State, master: nat, m: Magic)
    requires m in s.Table(master)
  {
    var g := GrantOf(s, master, m);
    IssuedAs(s, g) && g !in s.used && g.file in s.files && s.files[g.file].magic == m && s.files[g.file].master == master
  }

  predicate FileOk(s: State, f: nat)
    requires f in s.files
  {
    var info := s.files[f];
    f in s.seen && (info.magic != 0 ==>
      IssuedAs(s, Grant(info.master, info.magic, f, true)) || IssuedAs(s, Grant(info.master, info.magic, f, false)))
  }

  /** A stored grant not yet used, of a file still open, is in its table. */
  predicate Waiting(s: State, g: Grant) {
    g.stored && g !in s.used && g.file in s.files ==> g.magic in s.Table(g.master) && s.Table(g.master)[g.magic] == g.file
  }

  ghost predicate Inv(s: State) {
    && s.sequence == |s.issued|
    && (forall i :: 0 <= i < |s.issued| ==> s.issued[i].magic == i + 1 && s.issued[i].file in s.seen && Waiting(s, s.issued[i]))
    && (forall master, m :: m in s.Table(master) ==> EntryOk(s, master, m))
    && (forall f :: f in s.files ==> FileOk(s, f))
    && (forall g :: g in s.used ==> IssuedAs(s, g))
    && (forall i, j :: 0 <= i < j < |s.used| ==> s.used[i] != s.used[j])
  }

  lemma OpenKeeps(s: State, f: nat, master: nat, s': State)
    requires Inv(s) && OpenStep(s, f, master, s')
    ensures Inv(s')
  {
    forall ms, m | m in s'.Table(ms) ensures EntryOk(s', ms, m) { assert EntryOk(s, ms, m); }
    forall k | k in s'.files ensures FileOk(s', k) { if k != f { assert FileOk(s, k); } }
  }

  lemma NotYetIssued(s: State, master: nat, m: Magic)
    requires Inv(s) && m > |s.issued|
    ensures m !in s.Table(master)
  {
    assert m in s.Table(master) ==> EntryOk(s, master, m);
  }

  /** A new magic is the sequence's successor: the search stops at once. */
  lemma NextIsFresh(s: State, master: nat, m: Magic)
    requires Inv(s) && |s.issued| + 1 < LIMIT && NextUnused(s.sequence, s.Table(master).Keys, m)
    ensures m == |s.issued| + 1
  {
    var d :| 1 <= d <= LIMIT && m == After(s.sequence, d) && forall k :: 1 <= k < d ==> After(s.sequence, k) in s.Table(master).Keys;
    NotYetIssued(s, master, After(s.sequence, 1));
  }

  lemma GetMagicKeeps(s: State, f: nat, memory: bool, m: Magic, s': State)
    requires Inv(s) && GetMagicStep(s, f, memory, m, s') && |s'.issued| < LIMIT
    ensures Inv(s')
  {
    var info := s.files[f];
    assert FileOk(s, f);
    if info.magic == 0 {
      NextIsFresh(s, info.master, m);
    }
    forall ms, k | k in s'.Table(ms) ensures EntryOk(s', ms, k) {
      if k in s.Table(ms) { assert EntryOk(s, ms, k); }
    }
    forall k | k in s'.files ensures FileOk(s', k) { assert FileOk(s, k); }
    forall i | 0 <= i < |s'.issued|
      ensures s'.issued[i].magic == i + 1 && s'.issued[i].file in s'.seen && Waiting(s', s'.issued[i])
    {
      if i < |s.issued| { assert Waiting(s, s.issued[i]); }
    }
    forall g | g in s'.used ensures IssuedAs(s', g) { assert IssuedAs(s, g); }
  }

  lemma AuthMagicKeeps(s: State, caller: nat, m: Magic, ok: bool, s': State)
    requires Inv(s) && AuthMagicStep(s, caller, m, ok, s')
    ensures Inv(s')
    ensures ok ==> s.Table(s.files[caller].master)[m] in s.files
  {
    if ok {
      var master := s.files[caller].master;
      assert EntryOk(s, master, m);
      forall ms, k | k in s'.Table(ms) ensures EntryOk(s', ms, k) { assert EntryOk(s, ms, k); }
      forall k | k in s'.files ensures FileOk(s', k) { assert FileOk(s, k); }
      forall i | 0 <= i < |s'.issued| ensures Waiting(s', s'.issued[i]) { StillWaiting(s, caller, m, s', s.issued[i]); }
      UsedGrows(s, GrantOf(s, master, m), s');
    }
  }

  lemma StillWaiting(s: State, caller: nat, m: Magic, s': State, g: Grant)
    requires Inv(s) && AuthMagicStep(s, caller, m, true, s') && g in s.issued
    ensures Waiting(s', g)
  {
    assert EntryOk(s, s.files[caller].master, m);
    var i :| 0 <= i < |s.issued| && s.issued[i] == g;
    assert Waiting(s, s.issued[i]);
  }

  lemma UsedGrows(s: State, g: Grant, s': State)
    requires Inv(s) && g !in s.used && IssuedAs(s, g) && s'.issued == s.issued && s'.used == s.used + [g]
    ensures forall u :: u in s'.used ==> IssuedAs(s', u)
    ensures forall i, j :: 0 <= i < j < |s'.used| ==> s'.used[i] != s'.used[j]
  {
    forall u | u in s'.used ensures IssuedAs(s', u) { assert u != g ==> u in s.used && IssuedAs(s, u); }
  }

  lemma ReleaseKeeps(s: State, f: nat, s': State)
    requires Inv(s) && ReleaseStep(s, f, s')
    ensures Inv(s')
  {
    var info := s.files[f];
    assert FileOk(s, f);
    forall ms, k | k in s'.Table(ms) ensures EntryOk(s', ms, k) { assert EntryOk(s, ms, k); }
    forall k | k in s'.files ensures FileOk(s', k) { assert FileOk(s, k); }
    forall i | 0 <= i < |s'.issued| ensures Waiting(s', s'.issued[i]) { assert Waiting(s, s.issued[i]); }
  }

  lemma NextKeeps(s: State, a: Action, s': State)
    requires Inv(s) && Next(s, a, s') && |s'.issued| < LIMIT
    ensures Inv(s') && s.issued <= s'.issued
  {
    match a
    case Open(f, master) => OpenKeeps(s, f, master, s');
    case GetMagic(f, memory, m) => GetMagicKeeps(s, f, memory, m, s');
    case AuthMagic(caller, m, ok) => AuthMagicKeeps(s, caller, m, ok, s');
    case Release(f) => ReleaseKeeps(s, f, s');
  }

  lemma {:induction false} RunKeeps(run: seq<State>, acts: seq<Action>, n: nat)
    requires IsRun(run, acts) && n < |run| && |run[n].issued| < LIMIT
    ensures Inv(run[n])
  {
    if n > 0 {
      IssuedGrows(run[n - 1], acts[n - 1], run[n]);
      RunKeeps(run, acts, n - 1);
      NextKeeps(run[n - 1], acts[n - 1], run[n]);
    }
  }

  lemma IssuedGrows(s: State, a: Action, s': State)
    requires Next(s, a, s')
    ensures s.issued <= s'.issued
  {
  }

  // ---------- what runs promise ----------

  ghost predicate Reached(s: State) {
    exists run, acts :: IsRun(run, acts) && run[|acts|] == s
  }

  lemma ReachedKeeps(s: State)
    requires Reached(s) && |s.issued| < LIMIT
    ensures Inv(s)
  {
    var run, acts :| IsRun(run, acts) && run[|acts|] == s;
    RunKeeps(run, acts, |acts|);
  }

  /** No two grants carry one magic, and none carries 0, which means "no magic". */
  ghost predicate Fresh(issued: seq<Grant>) {
    && (forall i :: 0 <= i < |issued| ==> issued[i].magic != 0)
    && forall i, j :: 0 <= i < j < |issued| ==> issued[i].magic != issued[j].magic
  }

  lemma {:induction false} FreshBound(issued: seq<Grant>) returns (magics: set<int>)
    requires Fresh(issued)
    ensures |magics| == |issued| && forall x :: x in magics <==> exists i :: 0 <= i < |issued| && issued[i].magic == x
  {
    if issued == [] {
      magics := {};
    } else {
      var n := |issued| - 1;
      var front := FreshBound(issued[..n]);
      assert forall i :: 0 <= i < n ==> issued[..n][i] == issued[i];
      assert issued[n].magic !in front;
      magics := front + {issued[n].magic};
      forall x | x in magics ensures exists i :: 0 <= i < |issued| && issued[i].magic == x {
        if x in front { var i :| 0 <= i < n && issued[..n][i].magic == x; assert issued[i].magic == x; }
      }
    }
  }

  lemma AtMost(xs: set<int>, n: nat)
    requires n > 0 && forall x :: x in xs ==> 0 < x < n
    ensures |xs| < n
  {
    SubsetSize(xs, UpTo(n) - {0});
  }

  /** Magics are fresh exactly while fewer than 2^32 have been issued. */
  lemma FreshIff(s: State)
    requires Reached(s)
    ensures Fresh(s.issued) <==> |s.issued| < 0x1_0000_0000
    ensures Fresh(s.issued) <==> (forall i :: 0 <= i < |s.issued| ==> s.issued[i].magic != 0)
                                 && forall i, j :: 0 <= i < j < |s.issued| ==> s.issued[i].magic != s.issued[j].magic
  {
    if |s.issued| < LIMIT {
      ReachedKeeps(s);
    } else if Fresh(s.issued) {
      var magics := FreshBound(s.issued);
      AtMost(magics, LIMIT);
    }
  }

  lemma ReachedNext(s: State, a: Action, s': State)
    requires Reached(s) && Next(s, a, s')
    ensures Reached(s')
  {
    var run, acts :| IsRun(run, acts) && run[|acts|] == s;
    assert IsRun(run + [s'], acts + [a]);
  }

  /** The first number after `s` when at most the number 0 is taken. */
  lemma SoonUnused(s: Magic, used: set<Magic>) returns (m: Magic)
    requires used <= {0}
    ensures NextUnused(s, used, m)
  {
    m := After(s, 1);
    if m in used {
      AfterNext(s, 1);
      m := After(s, 2);
    }
  }

  /** One file opened, given a magic and released. */
  lemma GrantOne(s: State, f: nat) returns (s': State)
    requires Reached(s) && f !in s.seen && s.Table(0).Keys <= {0}
    ensures Reached(s') && |s'.issued| == |s.issued| + 1 && s'.seen == s.seen + {f} && s'.Table(0).Keys <= {0}
  {
    var begun := s.(seen := s.seen + {f}, files := s.files[f := Info(0, 0, false)]);
    ReachedNext(s, Open(f, 0), begun);
    var m := SoonUnused(s.sequence, s.Table(0).Keys);
    var t := s.Table(0)[m := f];
    var granted := begun.(sequence := m, tables := s.tables[0 := t], files := s.files[f := Info(0, m, false)],
                           issued := s.issued + [Grant(0, m, f, true)]);
    assert begun.files[f := Info(0, m, false)] == s.files[f := Info(0, m, false)];
    ReachedNext(begun, GetMagic(f, true, m), granted);
    s' := granted.(tables := granted.tables[0 := ReleaseEffect(t, m)], files := granted.files - {f});
    ReachedNext(granted, Release(f), s');
  }

  /** Runs grant as many magics as one likes. */
  lemma {:induction false} GrantsReached(n: nat) returns (s: State)
    ensures Reached(s) && |s.issued| == n && s.Table(0).Keys <= {0} && forall f :: f in s.seen ==> f < n
  {
    if n == 0 {
      s := START;
      assert IsRun([START], []);
    } else {
      s := GrantsReached(n - 1);
      s := GrantOne(s, n - 1);
    }
  }

  /** So a run comes to a magic that is 0 or was issued before. */
  lemma StaleReached() returns (s: State)
    ensures Reached(s) && |s.issued| == LIMIT && !Fresh(s.issued)
  {
    s := GrantsReached(LIMIT);
    FreshIff(s);
  }

  /** What was used was issued, for a stored entry, and no magic is used twice. */
  lemma OneShot(s: State)
    requires Reached(s) && |s.issued| < 0x1_0000_0000
    ensures forall g :: g in s.used ==> g in s.issued
    ensures forall i, j :: 0 <= i < j < |s.used| ==> s.used[i].magic != s.used[j].magic
  {
    ReachedKeeps(s);
    forall i, j | 0 <= i < j < |s.used| ensures s.used[i].magic != s.used[j].magic {
      assert s.used[i] in s.used && s.used[j] in s.used;
      assert IssuedAs(s, s.used[i]) && IssuedAs(s, s.used[j]);
    }
    forall g | g in s.used ensures g in s.issued { assert IssuedAs(s, g); }
  }

  /** The grant that lets `caller` authenticate with `m`: of its own master, stored, unused, and its file still open. */
  predicate Lets(s: State, g: Grant, caller: nat, m: Magic)
    requires caller in s.files
  {
    g in s.issued && g.stored && g.magic == m && g.master == s.files[caller].master && g !in s.used && g.file in s.files
  }

  /** Authentication succeeds exactly when some grant lets it, and then marks the open file the magic was issued to. */
  lemma AuthenticatesIff(s: State, caller: nat, m: Magic, ok: bool, s': State)
    requires Reached(s) && |s.issued| < LIMIT && AuthMagicStep(s, caller, m, ok, s')
    ensures ok <==> exists g :: Lets(s, g, caller, m)
    ensures ok <==> exists g :: g in s.issued && g.stored && g.magic == m && g.master == s.files[caller].master && g !in s.used && g.file in s.files
    ensures forall g :: Lets(s, g, caller, m) ==> s'.files == s.files[g.file := s.files[g.file].(authenticated := true)]
  {
    ReachedKeeps(s);
    var master := s.files[caller].master;
    if ok {
      assert EntryOk(s, master, m);
      assert Lets(s, GrantOf(s, master, m), caller, m);
      assert GrantOf(s, master, m) in s.issued;
    }
    forall g | Lets(s, g, caller, m)
      ensures ok && s'.files == s.files[g.file := s.files[g.file].(authenticated := true)]
    {
      var i :| 0 <= i < |s.issued| && s.issued[i] == g;
      assert Waiting(s, s.issued[i]);
    }
  }
}
