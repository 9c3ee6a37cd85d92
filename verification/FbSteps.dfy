/** One lemma per kind of step: the invariant is kept. */
module FbSteps {
  import opened Options
  import opened FbMachine
  import opened FbInvariant
  import opened FbPreservation

  lemma KeepLookup(s: State, t: nat, id: nat)
    requires Inv(s) && t < |s.threads| && TryLookup(s, t, id).Some?
    ensures Inv(TryLookup(s, t, id).value)
  {
    KeepGetMove(s, t, s.idr[id], Dropping(Some(s.idr[id])));
  }

  lemma KeepPlaneLookup(s: State, t: nat, plane: nat, id: nat)
    requires Inv(s) && t < |s.threads| && TryPlaneLookup(s, t, plane, id).Some?
    ensures Inv(TryPlaneLookup(s, t, plane, id).value)
  {
    KeepGetMove(s, t, s.idr[id], PlaneLooked(plane, s.idr[id]));
  }

  lemma KeepFlipLookup(s: State, t: nat, id: nat)
    requires Inv(s) && t < |s.threads| && TryFlipLookup(s, t, id).Some?
    ensures Inv(TryFlipLookup(s, t, id).value)
  {
    KeepGetMove(s, t, s.idr[id], FlipHas(s.threads[t].crtc, s.idr[id]));
  }

  lemma KeepDrop(s: State, t: nat)
    requires Inv(s) && t < |s.threads| && TryDrop(s, t).Some?
    ensures Inv(TryDrop(s, t).value)
  {
    var drop := s.threads[t].drop;
    if drop.Some? { KeepPutMove(s, t, drop.value, Idle); } else { KeepIdleMove(s, t, Idle); }
  }

  lemma KeepCrtcUnlock(s: State, t: nat)
    requires Inv(s) && t < |s.threads| && TryCrtcUnlock(s, t).Some?
    ensures Inv(TryCrtcUnlock(s, t).value)
  {
    var drop := s.threads[t].drop;
    if drop.Some? { KeepPutMove(s, t, drop.value, Idle); } else { KeepIdleMove(s, t, Idle); }
  }

  lemma KeepFlipUnlock(s: State, t: nat)
    requires Inv(s) && t < |s.threads| && TryFlipUnlock(s, t).Some?
    ensures Inv(TryFlipUnlock(s, t).value)
  {
    KeepPutMove(s, t, s.threads[t].fb, Idle);
  }

  lemma KeepFinalPut(s: State, t: nat)
    requires Inv(s) && t < |s.threads| && TryFinalPut(s, t).Some?
    ensures Inv(TryFinalPut(s, t).value)
  {
    var pc := s.threads[t];
    KeepPutMove(s, t, pc.fb, if pc.rel.Some? then Releasing(pc.rel.value) else Idle);
  }

  lemma KeepReleaseBegin(s: State, t: nat, file: File)
    requires Inv(s) && t < |s.threads| && TryReleaseBegin(s, t, file).Some?
    ensures Inv(TryReleaseBegin(s, t, file).value)
  {
    KeepIdleMove(s, t, Releasing(file));
  }

  lemma KeepReleaseEnd(s: State, t: nat)
    requires Inv(s) && t < |s.threads| && TryReleaseEnd(s, t).Some?
    ensures Inv(TryReleaseEnd(s, t).value)
  {
    KeepIdleMove(s, t, Idle);
  }

  lemma KeepReadCount(s: State, t: nat)
    requires Inv(s) && t < |s.threads| && TryReadCount(s, t).Some?
    ensures Inv(TryReadCount(s, t).value)
  {
    var pc := s.threads[t];
    assert Accounted(s, pc.fb);
    HeldIsLive(s, t, pc.fb);
    KeepIdleMove(s, t, AwaitLocks(pc.fb, pc.rel));
    KeepIdleMove(s, t, LastPut(pc.fb, pc.rel));
  }

  lemma KeepLockForSweep(s: State, t: nat)
    requires Inv(s) && t < |s.threads| && TryLockForSweep(s, t).Some?
    ensures Inv(TryLockForSweep(s, t).value)
  {
    KeepIdleMove(s, t, SweepCrtcs(s.threads[t].fb, s.threads[t].rel, 0, true));
  }

  lemma KeepPlaneReject(s: State, t: nat)
    requires Inv(s) && t < |s.threads| && TryPlaneReject(s, t).Some?
    ensures Inv(TryPlaneReject(s, t).value)
  {
    KeepIdleMove(s, t, Dropping(Some(s.threads[t].fb)));
  }

  lemma KeepCrtcLock(s: State, t: nat, c: nat)
    requires Inv(s) && t < |s.threads| && TryCrtcLock(s, t, c).Some?
    ensures Inv(TryCrtcLock(s, t, c).value)
  {
    KeepIdleMove(s, t, CrtcLocked(c));
  }

  lemma KeepCrtcReject(s: State, t: nat)
    requires Inv(s) && t < |s.threads| && TryCrtcReject(s, t).Some?
    ensures Inv(TryCrtcReject(s, t).value)
  {
    KeepIdleMove(s, t, CrtcDrop(s.threads[t].has));
  }

  lemma KeepFlipLock(s: State, t: nat, c: nat)
    requires Inv(s) && t < |s.threads| && TryFlipLock(s, t, c).Some?
    ensures Inv(TryFlipLock(s, t, c).value)
  {
    KeepIdleMove(s, t, FlipLocked(c));
  }

  lemma KeepFlipAbort(s: State, t: nat)
    requires Inv(s) && t < |s.threads| && TryFlipAbort(s, t).Some?
    ensures Inv(TryFlipAbort(s, t).value)
  {
    KeepIdleMove(s, t, Idle);
  }

  lemma KeepFlipReject(s: State, t: nat)
    requires Inv(s) && t < |s.threads| && TryFlipReject(s, t).Some?
    ensures Inv(TryFlipReject(s, t).value)
  {
    KeepIdleMove(s, t, FlipDrop(s.threads[t].crtc, s.threads[t].fb));
  }

  // ---------- what a CRTC shows is alive ----------

  lemma RefIsLive(s: State, j: nat, g: Addr)
    requires Accounted(s, g) && j < |s.crtcRef| && s.crtcRef[j] == Some(g)
    ensures g in s.fbs
  {
    assert Some(g) in multiset(s.crtcRef);
  }

  lemma PlaneIsLive(s: State, j: nat, g: Addr)
    requires Accounted(s, g) && j < |s.planes| && s.planes[j] == Some(g)
    ensures g in s.fbs
  {
    assert Some(g) in multiset(s.planes);
  }

  lemma DanceOf(s: State, t: nat)
    requires Inv(s) && t < |s.threads| && s.threads[t].Dance?
    ensures var pc := s.threads[t]; DanceOk(s, pc.k, pc.taken, pc.half, pc.call)
  {
    assert ThreadOk(s, s.threads[t]);
  }

  /** In the middle of a dance a shown framebuffer is referenced by its CRTC or by the dancer. */
  lemma ShownInDance(s: State, pc: Pc, j: nat, g: Addr)
    requires pc.Dance? && DanceOk(s, pc.k, pc.taken, pc.half, pc.call) && j < |s.crtcs| && s.crtcs[j].fb == Some(g)
    ensures s.crtcRef[j] == Some(g) || g in Held(pc)
  {
    if j >= pc.k && s.crtcRef[j] != Some(g) {
      assert j == pc.call.target && pc.call.fb == Some(g);
      assert pc.call.from.FromSetCrtc?;
    }
  }

  lemma SettledOrDancer(s: State) returns (t: nat)
    requires Inv(s)
    ensures Settled(s) || (t < |s.threads| && s.threads[t].Dance? && var pc := s.threads[t]; DanceOk(s, pc.k, pc.taken, pc.half, pc.call))
  {
    t := 0;
    if !Settled(s) {
      t :| 0 <= t < |s.threads| && s.threads[t].Dance?;
      DanceOf(s, t);
    }
  }

  /** In every good state a shown framebuffer is alive, even in the middle of a dance. */
  lemma ShownIsLive(s: State, j: nat, g: Addr)
    requires Inv(s) && j < |s.crtcs| && s.crtcs[j].fb == Some(g)
    ensures g in s.fbs
  {
    assert Accounted(s, g);
    var t := SettledOrDancer(s);
    if !Settled(s) { ShownInDance(s, s.threads[t], j, g); }
    if s.crtcRef[j] == Some(g) { RefIsLive(s, j, g); } else { HeldIsLive(s, t, g); }
  }

  lemma KeepFetchCurrent(s: State, t: nat)
    requires Inv(s) && t < |s.threads| && TryCrtcFetch(s, t, Current).Some?
    ensures Inv(TryCrtcFetch(s, t, Current).value)
  {
    var c := s.threads[t].crtc;
    if s.crtcs[c].fb == None {
      KeepIdleMove(s, t, CrtcDrop(None));
    } else {
      ShownIsLive(s, c, s.crtcs[c].fb.value);
      KeepGetMove(s, t, s.crtcs[c].fb.value, CrtcHas(c, s.crtcs[c].fb));
    }
  }

  lemma KeepCrtcFetch(s: State, t: nat, source: Source)
    requires Inv(s) && t < |s.threads| && TryCrtcFetch(s, t, source).Some?
    ensures Inv(TryCrtcFetch(s, t, source).value)
  {
    var c := s.threads[t].crtc;
    match source {
      case NoMode => KeepIdleMove(s, t, CrtcHas(c, None));
      case Current => KeepFetchCurrent(s, t);
      case ById(id) =>
        if id in s.idr { KeepGetMove(s, t, s.idr[id], CrtcHas(c, Some(s.idr[id]))); }
        else { KeepIdleMove(s, t, CrtcDrop(None)); }
    }
  }

  lemma DanceHalf(s: State, s': State, k: nat, call: Call)
    requires DanceOk(s, k, None, false, call) && k < |s.crtcs|
    requires s' == s.(fbs := s'.fbs, threads := s'.threads)
    requires forall g :: g in s'.fbs ==> g in s.fbs && s'.fbs[g].id == s.fbs[g].id
    ensures DanceOk(s', k, s.crtcs[k].fb, true, call)
  {
  }

  lemma KeepDanceRef(s: State, t: nat)
    requires Inv(s) && t < |s.threads| && TryDanceRef(s, t).Some?
    ensures Inv(TryDanceRef(s, t).value)
  {
    var pc := s.threads[t];
    DanceOf(s, t);
    var fb := s.crtcs[pc.k].fb;
    var pc' := Dance(pc.k, fb, true, pc.call);
    StillFits(s, t, pc');
    if fb.Some? {
      ShownIsLive(s, pc.k, fb.value);
      GetMove(s, t, fb.value, pc');
    } else {
      IdleMove(s, t, pc');
    }
    var s' := TryDanceRef(s, t).value;
    DanceHalf(s, s', pc.k, pc.call);
    KeepQuiet(s, s', t, pc');
  }

  lemma DanceSettles(s: State, k: nat, taken: Option<Addr>, half: bool, call: Call)
    requires DanceOk(s, k, taken, half, call) && k == |s.crtcs|
    ensures Settled(s) && !half && taken == None
    ensures call.from.FromSweep? ==>
              ThreadOk(s, SweepCrtcs(call.from.gone, call.from.rel, call.target + 1, call.from.ok))
  {
  }

  /** What the thread stands for when the dance is over is in order. */
  lemma EndOk(s: State, pc: Pc)
    requires pc.Dance? && DanceOk(s, pc.k, pc.taken, pc.half, pc.call) && pc.k == |s.crtcs|
    ensures ThreadOk(s, PcAtEnd(pc.call)) && Held(PcAtEnd(pc.call)) == Held(pc) && Settled(s)
  {
    DanceSettles(s, pc.k, pc.taken, pc.half, pc.call);
    SameHeldAtEnd(pc);
  }

  lemma KeepDanceEnd(s: State, t: nat)
    requires Inv(s) && t < |s.threads| && TryDanceEnd(s, t).Some?
    ensures Inv(TryDanceEnd(s, t).value)
  {
    DanceOf(s, t);
    EndOk(s, s.threads[t]);
    KeepIdleMove(s, t, PcAtEnd(s.threads[t].call));
  }

  function PcAtEnd(call: Call): Pc {
    if call.from.FromSetCrtc? then CrtcDrop(call.fb)
    else SweepCrtcs(call.from.gone, call.from.rel, call.target + 1, call.from.ok)
  }

  lemma SameHeldAtEnd(pc: Pc)
    requires pc.Dance? && pc.taken == None
    ensures Held(PcAtEnd(pc.call)) == Held(pc)
  {
  }
}
