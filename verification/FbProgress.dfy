/**
 drm_crtc.c: no interleaving of the ioctls gets stuck.  From every reachable state some run brings
 every thread to the end of its ioctl.
 */
module FbProgress {
  import opened Options
  import opened FbMachine
  import opened FbInvariant
  import opened FbPreservation
  import opened FbSteps
  import opened FbCrtcSteps
  import opened FbTheorems

  predicate AtRest(s: State) {
    forall t :: 0 <= t < |s.threads| ==> s.threads[t].Idle?
  }

  // ---------- how far a thread is from the end of its ioctl ----------

  /** From CRTC `i` of the sweep on: each of the `n` CRTCs may call for one reference loop over all of them. */
  function SweepRank(n: int, p: int, i: int): int { 4 + p + Times(n - i, 2 * n + 2) }

  /** k * m, by additions. */
  function Times(k: int, m: int): int
    decreases if k > 0 then k else 0
  {
    if k <= 0 then 0 else Times(k - 1, m) + m
  }

  lemma TimesPositive(k: int, m: int)
    requires m >= 0
    ensures Times(k, m) >= 0
    decreases if k > 0 then k else 0
  {
  }

  /** A removal from its entry on. */
  function RemoveRank(n: int, p: int): int { SweepRank(n, p, 0) + 2 }

  /** `n` CRTCs and `p` planes. */
  function Rank(pc: Pc, n: int, p: int): int {
    match pc
    case Idle => 0
    case Created(_, _) => RemoveRank(n, p) + 1
    case Dropping(_) => 1
    case PlaneLooked(_, _) => 2
    case Releasing(_) => 1
    case Removing(_, _) => RemoveRank(n, p)
    case AwaitLocks(_, _) => SweepRank(n, p, 0) + 1
    case SweepCrtcs(_, _, i, _) => SweepRank(n, p, i)
    case SweepPlanes(_, _, i, _) => 3 + p - i
    case LastPut(_, _) => 2
    case CrtcLocked(_) => 3
    case CrtcHas(_, _) => 2
    case CrtcDrop(_) => 1
    case Dance(k, _, half, call) => AfterDance(call, n, p) + 1 + 2 * (n - k) - (if half then 1 else 0)
    case FlipLocked(_) => 1
    case FlipHas(_, _) => 2
    case FlipDrop(_, _) => 1
  }

  function AfterDance(call: Call, n: int, p: int): int {
    if call.from.FromSetCrtc? then 1 else SweepRank(n, p, call.target + 1)
  }

  function RankSum(threads: seq<Pc>, n: int, p: int): int {
    if threads == [] then 0 else RankSum(threads[..|threads| - 1], n, p) + Rank(threads[|threads| - 1], n, p)
  }

  /** Each listed framebuffer may call for one more removal. */
  function Work(s: State): int {
    RankSum(s.threads, |s.crtcs|, |s.planes|) + Times(|s.onList|, RemoveRank(|s.crtcs|, |s.planes|))
  }

  lemma {:induction false} RankUpdate(threads: seq<Pc>, t: nat, pc: Pc, n: int, p: int)
    requires t < |threads|
    ensures RankSum(threads[t := pc], n, p) == RankSum(threads, n, p) - Rank(threads[t], n, p) + Rank(pc, n, p)
  {
    var last := |threads| - 1;
    if t == last {
      assert threads[t := pc][..last] == threads[..last];
    } else {
      RankUpdate(threads[..last], t, pc, n, p);
      assert threads[t := pc][..last] == threads[..last][t := pc];
    }
  }

  /** Where a thread can be in a good state its rank is not negative. */
  lemma RankSign(s: State, pc: Pc)
    requires ThreadOk(s, pc)
    ensures Rank(pc, |s.crtcs|, |s.planes|) >= 0
  {
    var n := |s.crtcs|;
    TimesPositive(n, 2 * n + 2);
    match pc
    case SweepCrtcs(_, _, i, _) => TimesPositive(n - i, 2 * n + 2);
    case Dance(_, _, _, call) => TimesPositive(n - call.target - 1, 2 * n + 2);
    case _ =>
  }

  lemma {:induction false} RankSumSign(s: State, k: nat)
    requires k <= |s.threads| && forall t :: 0 <= t < |s.threads| ==> ThreadOk(s, s.threads[t])
    ensures RankSum(s.threads[..k], |s.crtcs|, |s.planes|) >= 0
  {
    if k > 0 {
      RankSumSign(s, k - 1);
      RankSign(s, s.threads[k - 1]);
      assert s.threads[..k][..k - 1] == s.threads[..k - 1];
    }
  }

  lemma WorkSign(s: State)
    requires Inv(s)
    ensures Work(s) >= 0
  {
    RankSumSign(s, |s.threads|);
    assert s.threads[..|s.threads|] == s.threads;
    TimesPositive(|s.crtcs|, 2 * |s.crtcs| + 2);
    TimesPositive(|s.onList|, RemoveRank(|s.crtcs|, |s.planes|));
  }

  // ---------- the steps taken ----------

  /** The step brings thread `t` nearer to its end, and there are as many CRTCs and planes as before. */
  predicate Nearer(s: State, t: nat, s': State)
    requires t < |s.threads| == |s'.threads|
  {
    && |s'.crtcs| == |s.crtcs| && |s'.planes| == |s.planes|
    && Rank(s'.threads[t], |s.crtcs|, |s.planes|) < Rank(s.threads[t], |s.crtcs|, |s.planes|)
  }

  /** Then there is less work left, if the lists are as before. */
  lemma NearerIsLess(s: State, t: nat, a: Action)
    requires t < |s.threads| && Next(s, t, a).Some? && Nearer(s, t, Next(s, t, a).value) && Next(s, t, a).value.onList == s.onList
    ensures Work(Next(s, t, a).value) < Work(s)
  {
    var s' := Next(s, t, a).value;
    RankUpdate(s.threads, t, s'.threads[t], |s.crtcs|, |s.planes|);
    assert s'.threads == s.threads[t := s'.threads[t]];
  }

  /** These hold a modeset lock and wait for nothing. */
  predicate Unblocked(pc: Pc) { HoldsAll(pc) || HeldCrtc(pc).Some? }

  /** What a thread does next that holds a modeset lock and takes the shortest way out. */
  function WayOut(s: State, pc: Pc): Action {
    match pc
    case SweepCrtcs(_, _, i, _) => SweepCrtc(true, TurnedOff(s.crtcs, i))
    case SweepPlanes(_, _, _, _) => SweepPlane
    case CrtcLocked(_) => CrtcFetch(NoMode)
    case CrtcHas(_, _) => CrtcReject
    case CrtcDrop(_) => CrtcUnlock
    case Dance(k, _, half, _) => if k == |s.crtcs| then DanceEnd else if half then DanceUnref else DanceRef
    case FlipLocked(_) => FlipAbort
    case FlipHas(_, _) => FlipReject
    case _ => FlipUnlock
  }

  lemma OneSweptLess(n: int, p: int, i: int)
    requires i <= n
    ensures i < n ==> SweepRank(n, p, i) == SweepRank(n, p, i + 1) + 2 * n + 2
    ensures i == n ==> SweepRank(n, p, i) == 4 + p
  {
  }

  /** A driver that just turns the target off. */
  function TurnedOff(crtcs: seq<Crtc>, i: nat): (r: seq<Crtc>)
    ensures i < |crtcs| ==> DriverMay(SaveOld(crtcs), i, None, 0, 0, Mode(0, 0), true, r)
  {
    if i < |crtcs| then SaveOld(crtcs)[i := SaveOld(crtcs)[i].(fb := None)] else []
  }

  lemma SweepCrtcGoesOn(s: State, t: nat)
    requires t < |s.threads| && s.threads[t].SweepCrtcs? && s.threads[t].i <= |s.crtcs|
    ensures var r := TrySweepCrtc(s, t, true, TurnedOff(s.crtcs, s.threads[t].i));
            r.Some? && Nearer(s, t, r.value) && r.value.onList == s.onList
  {
    OneSweptLess(|s.crtcs|, |s.planes|, s.threads[t].i);
  }

  lemma SweepPlaneGoesOn(s: State, t: nat)
    requires t < |s.threads| && s.threads[t].SweepPlanes? && ThreadOk(s, s.threads[t])
    ensures var r := TrySweepPlane(s, t); r.Some? && Nearer(s, t, r.value) && r.value.onList == s.onList
  {
  }

  lemma DanceRefGoesOn(s: State, t: nat)
    requires t < |s.threads| && s.threads[t].Dance? && s.threads[t].k < |s.crtcs| && !s.threads[t].half
    ensures var r := TryDanceRef(s, t); r.Some? && Nearer(s, t, r.value) && r.value.onList == s.onList
  {
  }

  lemma DanceUnrefGoesOn(s: State, t: nat)
    requires t < |s.threads| && s.threads[t].Dance? && s.threads[t].k < |s.crtcs| == |s.crtcRef| && s.threads[t].half
    ensures var r := TryDanceUnref(s, t); r.Some? && Nearer(s, t, r.value) && r.value.onList == s.onList
  {
  }

  lemma DanceEndGoesOn(s: State, t: nat)
    requires t < |s.threads| && s.threads[t].Dance? && s.threads[t].k == |s.crtcs| && !s.threads[t].half
    ensures var r := TryDanceEnd(s, t); r.Some? && Nearer(s, t, r.value) && r.value.onList == s.onList
  {
  }

  lemma DanceGoesOn(s: State, t: nat)
    requires t < |s.threads| && s.threads[t].Dance? && ThreadOk(s, s.threads[t])
    ensures var r := Next(s, t, WayOut(s, s.threads[t])); r.Some? && Nearer(s, t, r.value) && r.value.onList == s.onList
  {
    var pc := s.threads[t];
    if pc.k == |s.crtcs| {
      DanceEndGoesOn(s, t);
    } else if pc.half {
      DanceUnrefGoesOn(s, t);
    } else {
      DanceRefGoesOn(s, t);
    }
  }

  lemma CrtcGoesOn(s: State, t: nat)
    requires t < |s.threads| && (s.threads[t].CrtcLocked? || s.threads[t].CrtcHas? || s.threads[t].CrtcDrop?) && ThreadOk(s, s.threads[t])
    ensures var r := Next(s, t, WayOut(s, s.threads[t])); r.Some? && Nearer(s, t, r.value) && r.value.onList == s.onList
  {
  }

  lemma FlipGoesOn(s: State, t: nat)
    requires t < |s.threads| && HeldCrtc(s.threads[t]).Some?
    ensures var r := Next(s, t, WayOut(s, s.threads[t])); r.Some? && Nearer(s, t, r.value) && r.value.onList == s.onList
  {
  }

  /** A thread that holds a modeset lock can go on. */
  lemma HolderGoesOn(s: State, t: nat) returns (a: Action)
    requires Inv(s) && t < |s.threads| && Unblocked(s.threads[t])
    ensures Next(s, t, a).Some? && Work(Next(s, t, a).value) < Work(s)
  {
    a := WayOut(s, s.threads[t]);
    assert ThreadOk(s, s.threads[t]);
    if s.threads[t].SweepCrtcs? {
      SweepCrtcGoesOn(s, t);
    } else if s.threads[t].SweepPlanes? {
      SweepPlaneGoesOn(s, t);
    } else if s.threads[t].Dance? {
      DanceGoesOn(s, t);
    } else if HeldCrtc(s.threads[t]).Some? {
      FlipGoesOn(s, t);
    } else {
      CrtcGoesOn(s, t);
    }
    NearerIsLess(s, t, a);
  }

  lemma ReadCountGoesOn(s: State, t: nat)
    requires t < |s.threads| && s.threads[t].Removing? && s.threads[t].fb in s.fbs
    ensures var r := TryReadCount(s, t); r.Some? && Nearer(s, t, r.value) && r.value.onList == s.onList
  {
    TimesPositive(|s.crtcs|, 2 * |s.crtcs| + 2);
  }

  lemma LockGoesOn(s: State, t: nat)
    requires t < |s.threads| && CanLockAll(s) && s.threads[t].AwaitLocks?
    ensures var r := TryLockForSweep(s, t); r.Some? && Nearer(s, t, r.value) && r.value.onList == s.onList
  {
  }

  lemma FinalPutGoesOn(s: State, t: nat)
    requires t < |s.threads| && s.threads[t].LastPut?
    ensures var r := TryFinalPut(s, t); r.Some? && Nearer(s, t, r.value) && r.value.onList == s.onList
  {
  }

  /** Where nobody holds a modeset lock, a thread in a removal can go on. */
  lemma RemoverGoesOn(s: State, t: nat) returns (a: Action)
    requires Inv(s) && t < |s.threads| && CanLockAll(s) && (s.threads[t].Removing? || s.threads[t].AwaitLocks? || s.threads[t].LastPut?)
    ensures Next(s, t, a).Some? && Work(Next(s, t, a).value) < Work(s)
  {
    if s.threads[t].Removing? {
      a := ReadCount;
      HeldIsLive(s, t, s.threads[t].fb);
      ReadCountGoesOn(s, t);
    } else if s.threads[t].AwaitLocks? {
      a := LockForSweep;
      LockGoesOn(s, t);
    } else {
      a := FinalPut;
      FinalPutGoesOn(s, t);
    }
    NearerIsLess(s, t, a);
  }

  lemma DropperGoesOn(s: State, t: nat) returns (a: Action)
    requires Inv(s) && t < |s.threads| && (s.threads[t].Dropping? || s.threads[t].PlaneLooked?)
    ensures Next(s, t, a).Some? && Work(Next(s, t, a).value) < Work(s)
  {
    a := if s.threads[t].Dropping? then Drop else PlaneReject;
    NearerIsLess(s, t, a);
  }

  /** The loop of a release: one more removal, and one less to come. */
  lemma ReleaserGoesOn(s: State, t: nat) returns (a: Action)
    requires Inv(s) && t < |s.threads| && s.threads[t].Releasing?
    ensures Next(s, t, a).Some? && Work(Next(s, t, a).value) < Work(s)
  {
    var file := s.threads[t].file;
    if f :| f in s.onList && s.onList[f] == file {
      a := ReleaseNext(f);
      var s' := Next(s, t, a).value;
      RankUpdate(s.threads, t, Removing(f, Some(file)), |s.crtcs|, |s.planes|);
      OneListedLess(s.onList, f, RemoveRank(|s.crtcs|, |s.planes|));
    } else {
      a := ReleaseEnd;
      NearerIsLess(s, t, a);
    }
  }

  lemma OneListedLess(onList: map<Addr, File>, f: Addr, k: int)
    requires f in onList
    ensures Times(|onList - {f}|, k) == Times(|onList|, k) - k
  {
    assert onList.Keys == (onList - {f}).Keys + {f};
    assert |onList.Keys| == |(onList - {f}).Keys| + 1;
  }

  lemma OneListedMore(onList: map<Addr, File>, f: Addr, file: File, k: int)
    requires k >= 0
    ensures Times(|onList[f := file]|, k) <= Times(|onList|, k) + k
  {
    assert onList[f := file].Keys == onList.Keys + {f};
    if f in onList {
      assert onList.Keys + {f} == onList.Keys;
    } else {
      assert |onList.Keys + {f}| == |onList.Keys| + 1;
    }
  }

  /** Where every thread is at rest or about to list its framebuffer, no file is locked. */
  lemma CreatorGoesOn(s: State, t: nat) returns (a: Action)
    requires Inv(s) && t < |s.threads| && s.threads[t].Created?
    requires forall u :: 0 <= u < |s.threads| ==> s.threads[u].Idle? || s.threads[u].Created?
    ensures Next(s, t, a).Some? && Work(Next(s, t, a).value) < Work(s)
  {
    a := FbListAdd;
    var pc, n, p := s.threads[t], |s.crtcs|, |s.planes|;
    TimesPositive(n, 2 * n + 2);
    RankUpdate(s.threads, t, Idle, n, p);
    OneListedMore(s.onList, pc.fb, pc.file, RemoveRank(n, p));
  }

  /** While not all threads are at rest, some thread can take a step that leaves less work. */
  lemma SomeGoesOn(s: State) returns (t: nat, a: Action)
    requires Inv(s) && !AtRest(s)
    ensures t < |s.threads| && !s.threads[t].Idle? && Next(s, t, a).Some? && Work(Next(s, t, a).value) < Work(s)
  {
    if u :| 0 <= u < |s.threads| && Unblocked(s.threads[u]) {
      t := u;
      a := HolderGoesOn(s, t);
    } else if u :| 0 <= u < |s.threads| && !s.threads[u].Idle? && !s.threads[u].Created? {
      t := u;
      if s.threads[t].Dropping? || s.threads[t].PlaneLooked? {
        a := DropperGoesOn(s, t);
      } else if s.threads[t].Releasing? {
        a := ReleaserGoesOn(s, t);
      } else {
        a := RemoverGoesOn(s, t);
      }
    } else {
      t :| 0 <= t < |s.threads| && !s.threads[t].Idle?;
      a := CreatorGoesOn(s, t);
    }
  }

  // ---------- to the end ----------

  /** In no reachable state are the threads stuck. */
  lemma NeverStuck(s: State)
    requires Reachable(s) && !AtRest(s)
    ensures exists t: nat, a :: t < |s.threads| && !s.threads[t].Idle? && Next(s, t, a).Some?
  {
    ReachableIsGood(s);
    var t, a := SomeGoesOn(s);
  }

  lemma Prepend(s: State, t: nat, a: Action, s': State, rest: seq<State>)
    requires t < |s.threads| && Next(s, t, a) == Some(s') && IsRun(rest) && rest[0] == s'
    ensures IsRun([s] + rest)
  {
    var path := [s] + rest;
    forall k | 0 <= k < |path| - 1 ensures StepAt(path, k) {
      if k > 0 { assert StepAt(rest, k - 1); }
    }
  }

  /** From a good state a run of at most `Work(s)` steps brings all threads to rest. */
  lemma {:induction false} RunToRest(s: State) returns (path: seq<State>)
    requires Inv(s)
    ensures IsRun(path) && path[0] == s && AtRest(path[|path| - 1]) && Inv(path[|path| - 1])
    ensures |path| <= Work(s) + 1
    decreases Work(s)
  {
    WorkSign(s);
    if AtRest(s) {
      path := [s];
    } else {
      var t, a := SomeGoesOn(s);
      var s' := Next(s, t, a).value;
      KeepNext(s, t, a);
      WorkSign(s');
      var rest := RunToRest(s');
      path := [s] + rest;
      Prepend(s, t, a, s', rest);
    }
  }

  /** Every reachable state can be brought to rest, and is then reachable still. */
  lemma CanComeToRest(s: State) returns (path: seq<State>)
    requires Reachable(s)
    ensures IsRun(path) && path[0] == s && AtRest(path[|path| - 1]) && |path| <= Work(s) + 1
  {
    ReachableIsGood(s);
    path := RunToRest(s);
  }
}
