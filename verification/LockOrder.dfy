/**
 The locks of drm_crtc.c.  Any threads whose paths take locks in the order fbs_lock,
 mode_config.mutex, CRTC mutexes in list order, fb_lock, idr_mutex, never wait in a circle, and
 some thread can always go on.
 */
module LockOrder {
  datatype Lock = FbsLock(file: nat) | ModeMutex | CrtcMutex(crtc: nat) | FbLock | IdrMutex

  datatype Event = Take(lock: Lock) | Drop(lock: Lock)

  type Path = seq<Event>

  /** The order, on a device with `n` CRTCs. */
  function Rank(n: nat, l: Lock): nat {
    match l
    case FbsLock(_) => 0
    case ModeMutex => 1
    case CrtcMutex(c) => 2 + c
    case FbLock => 2 + n
    case IdrMutex => 3 + n
  }

  predicate Known(n: nat, l: Lock) { l.CrtcMutex? ==> l.crtc < n }

  ghost predicate AllBelow(n: nat, held: set<Lock>, l: Lock) {
    forall h :: h in held ==> Rank(n, h) < Rank(n, l)
  }

  /** A path from holding `held` to holding `left` that only ever takes a lock above all it holds. */
  ghost predicate Ordered(n: nat, held: set<Lock>, path: Path, left: set<Lock>)
    decreases |path|
  {
    if path == [] then held == left
    else
      match path[0]
      case Take(l) => Known(n, l) && AllBelow(n, held, l) && Ordered(n, held + {l}, path[1..], left)
      case Drop(l) => l in held && Ordered(n, held - {l}, path[1..], left)
  }

  lemma {:induction false} OrderedAppend(n: nat, held: set<Lock>, a: Path, mid: set<Lock>, b: Path, left: set<Lock>)
    requires Ordered(n, held, a, mid) && Ordered(n, mid, b, left)
    ensures Ordered(n, held, a + b, left)
    decreases |a|
  {
    if a == [] {
      assert a + b == b;
    } else {
      assert (a + b)[1..] == a[1..] + b;
      var next := match a[0] case Take(l) => held + {l} case Drop(l) => held - {l};
      OrderedAppend(n, next, a[1..], mid, b, left);
    }
  }

  // ---------- any number of threads ----------

  datatype Thread = Thread(held: set<Lock>, rest: Path)

  type State = seq<Thread>

  predicate CanStep(s: State, t: nat)
    requires t < |s|
  {
    s[t].rest != [] && (s[t].rest[0].Take? ==> forall u :: 0 <= u < |s| ==> s[t].rest[0].lock !in s[u].held)
  }

  function Stepped(th: Thread): Thread
    requires th.rest != []
  {
    Thread(match th.rest[0] case Take(l) => th.held + {l} case Drop(l) => th.held - {l}, th.rest[1..])
  }

  ghost predicate Step(s: State, s': State) {
    exists t: nat :: t < |s| && CanStep(s, t) && s' == s[t := Stepped(s[t])]
  }

  ghost predicate Inv(n: nat, s: State) {
    && (forall t :: 0 <= t < |s| ==> Ordered(n, s[t].held, s[t].rest, {}))
    && (forall t, u, l :: 0 <= t < u < |s| && l in s[t].held ==> l !in s[u].held)
  }

  ghost predicate StepAt(run: seq<State>, i: nat)
    requires i + 1 < |run|
  {
    Step(run[i], run[i + 1])
  }

  /** Every thread starts with nothing held and an ordered path ahead. */
  ghost predicate IsRun(n: nat, run: seq<State>) {
    && |run| > 0
    && (forall t :: 0 <= t < |run[0]| ==> run[0][t].held == {} && Ordered(n, {}, run[0][t].rest, {}))
    && (forall i :: 0 <= i < |run| - 1 ==> StepAt(run, i))
  }

  lemma StepKeeps(n: nat, s: State, s': State)
    requires Inv(n, s) && Step(s, s')
    ensures Inv(n, s')
  {
  }

  lemma {:induction false} RunKeeps(n: nat, run: seq<State>, i: nat)
    requires IsRun(n, run) && i < |run|
    ensures Inv(n, run[i])
  {
    if i > 0 {
      RunKeeps(n, run, i - 1);
      assert StepAt(run, i - 1);
      StepKeeps(n, run[i - 1], run[i]);
    }
  }

  /** No lock is ever held by two threads. */
  lemma Exclusive(n: nat, run: seq<State>, i: nat, t: nat, u: nat)
    requires IsRun(n, run) && i < |run| && t < |run[i]| && u < |run[i]| && t != u
    ensures run[i][t].held !! run[i][u].held
  {
    RunKeeps(n, run, i);
  }

  /** Thread `t` wants a lock that `u` has. */
  predicate WaitsFor(s: State, t: nat, u: nat) {
    t < |s| && u < |s| && s[t].rest != [] && s[t].rest[0].Take? && s[t].rest[0].lock in s[u].held
  }

  /** Whoever is waited for either goes on or waits for something higher. */
  lemma WaitRises(n: nat, s: State, t: nat, u: nat)
    requires Inv(n, s) && WaitsFor(s, t, u)
    ensures s[u].rest != []
    ensures s[u].rest[0].Take? ==> Rank(n, s[u].rest[0].lock) > Rank(n, s[t].rest[0].lock)
  {
  }

  lemma {:induction false} Climb(n: nat, s: State, t: nat) returns (u: nat)
    requires Inv(n, s) && t < |s| && s[t].rest != []
    ensures u < |s| && CanStep(s, u)
    decreases if s[t].rest[0].Take? then n + 4 - Rank(n, s[t].rest[0].lock) else 0
  {
    if CanStep(s, t) {
      u := t;
    } else {
      var v :| 0 <= v < |s| && s[t].rest[0].lock in s[v].held;
      WaitRises(n, s, t, v);
      if s[v].rest[0].Drop? {
        u := v;
      } else {
        u := Climb(n, s, v);
      }
    }
  }

  /** As long as some thread has not finished, some thread can go on. */
  lemma DeadlockFree(n: nat, run: seq<State>, i: nat, t: nat)
    requires IsRun(n, run) && i < |run| && t < |run[i]| && run[i][t].rest != []
    ensures exists u :: 0 <= u < |run[i]| && CanStep(run[i], u)
  {
    RunKeeps(n, run, i);
    var u := Climb(n, run[i], t);
  }

  predicate WaitAt(s: State, ts: seq<nat>, k: nat)
    requires k + 1 < |ts|
  {
    WaitsFor(s, ts[k], ts[k + 1])
  }

  /** Each thread of the chain waits for the next. */
  predicate Chain(s: State, ts: seq<nat>) {
    |ts| > 1 && forall k :: 0 <= k < |ts| - 1 ==> WaitAt(s, ts, k)
  }

  lemma {:induction false} ChainRises(n: nat, s: State, ts: seq<nat>, k: nat)
    requires Inv(n, s) && Chain(s, ts) && k < |ts| - 1
    ensures WaitAt(s, ts, 0) && WaitAt(s, ts, k) && Rank(n, s[ts[0]].rest[0].lock) <= Rank(n, s[ts[k]].rest[0].lock)
  {
    if k > 0 {
      ChainRises(n, s, ts, k - 1);
      assert WaitAt(s, ts, k);
      WaitRises(n, s, ts[k - 1], ts[k]);
    } else {
      assert WaitAt(s, ts, 0);
    }
  }

  /** No chain of waiting threads comes back to where it began. */
  lemma NoCircularWait(n: nat, run: seq<State>, i: nat, ts: seq<nat>)
    requires IsRun(n, run) && i < |run| && Chain(run[i], ts)
    ensures ts[0] != ts[|ts| - 1]
  {
    RunKeeps(n, run, i);
    var k := |ts| - 2;
    ChainRises(n, run[i], ts, k);
    WaitRises(n, run[i], ts[k], ts[k + 1]);
  }
}
