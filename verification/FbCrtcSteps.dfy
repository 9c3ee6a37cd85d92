/** The steps that change what CRTCs show. */
module FbCrtcSteps {
  import opened Options
  import opened FbMachine
  import opened FbInvariant
  import opened FbPreservation
  import opened FbSteps
  import opened FbSpecialSteps

  // ---------- the driver runs: every CRTC keeps the reference it had ----------

  lemma DriverStartsDance(s: State, s': State, x: nat, y: nat, mode: Mode, call: Call)
    requires Settled(s) && s'.crtcRef == s.crtcRef
    requires DriverMay(SaveOld(s.crtcs), call.target, call.fb, x, y, mode, call.success, s'.crtcs)
    requires call.from.FromSweep? ==>
               call.fb == None && Hidden(s', call.from.gone)
               && (call.from.ok ==> call.success && NotShownBelow(s, call.from.gone, call.target))
    ensures DanceOk(s', 0, None, false, call)
  {
  }

  lemma DriverKeepsViewports(s: State, s': State, target: nat, fb: Option<Addr>, x: nat, y: nat, mode: Mode, success: bool)
    requires ViewportsOk(s) && s'.fbs == s.fbs
    requires DriverMay(SaveOld(s.crtcs), target, fb, x, y, mode, success, s'.crtcs)
    requires fb.Some? && fb.value in s.fbs ==> Fits(x, y, mode, s.crtcs[target].invert, s.fbs[fb.value].geo)
    ensures ViewportsOk(s')
  {
  }

  lemma KeepBeginDance(s: State, t: nat, call: Call, x: nat, y: nat, mode: Mode, after: seq<Crtc>)
    requires Inv(s) && t < |s.threads| && HoldsAll(s.threads[t]) && !s.threads[t].Dance?
    requires DriverMay(SaveOld(s.crtcs), call.target, call.fb, x, y, mode, call.success, after)
    requires call.fb.Some? && call.fb.value in s.fbs ==> Fits(x, y, mode, s.crtcs[call.target].invert, s.fbs[call.fb.value].geo)
    requires Held(s.threads[t]) == HeldByCaller(call)
    requires call.from.FromSweep? ==>
               call.fb == None && Hidden(s, call.from.gone)
               && (call.from.ok ==> call.success && NotShownBelow(s, call.from.gone, call.target))
    ensures Inv(WithPc(s.(crtcs := after), t, Dance(0, None, false, call)))
  {
    var pc := Dance(0, None, false, call);
    var s' := WithPc(s.(crtcs := after), t, pc);
    OnlyDancer(s, t);
    forall g: Addr ensures Accounted(s', g) {
      assert Accounted(s, g);
      AccountPc(s, s', t, pc, g);
    }
    DriverStartsDance(s, s', x, y, mode, call);
    DriverKeepsViewports(s, s', call.target, call.fb, x, y, mode, call.success);
    OthersKeepWhileHeld(s, s', t);
    StillFits(s, t, pc);
    assert s'.threads[t].Dance?;
    Assemble(s, s', t, pc);
  }

  lemma AccountPc(s: State, s': State, t: nat, pc: Pc, g: Addr)
    requires Accounted(s, g) && t < |s.threads| && Held(pc) == Held(s.threads[t])
    requires s' == s.(crtcs := s'.crtcs, threads := s.threads[t := pc])
    ensures Accounted(s', g)
  {
    HeldUpdate(s.threads, t, pc, g);
  }

  /** The modeset locks let one thread dance at a time. */
  lemma OnlyDancer(s: State, t: nat)
    requires Inv(s) && t < |s.threads| && HoldsAll(s.threads[t]) && !s.threads[t].Dance?
    ensures Settled(s)
  {
    if Dancing(s.threads) {
      var u :| 0 <= u < |s.threads| && s.threads[u].Dance?;
      OthersOut(s, t, u);
    }
  }

  /** A thread outside the modeset locks does not see what changes under them. */
  lemma OthersKeepWhileHeld(s: State, s': State, t: nat)
    requires Inv(s) && t < |s.threads| && HoldsAll(s.threads[t])
    requires |s'.crtcs| == |s.crtcs| && s'.onList == s.onList
    requires forall g :: g in s'.fbs ==> g in s.fbs && s'.fbs[g].id == s.fbs[g].id
    requires forall g :: g in s.fbs && g !in s'.fbs ==> forall u :: 0 <= u < |s.threads| && u != t ==> g !in Held(s.threads[u])
    ensures forall u :: 0 <= u < |s.threads| && u != t ==> ThreadOk(s', s.threads[u])
  {
    forall u | 0 <= u < |s.threads| && u != t ensures ThreadOk(s', s.threads[u]) {
      OthersOut(s, t, u);
      assert ThreadOk(s, s.threads[u]);
    }
  }

  lemma KeepSweepCrtc(s: State, t: nat, success: bool, after: seq<Crtc>)
    requires Inv(s) && t < |s.threads| && TrySweepCrtc(s, t, success, after).Some?
    ensures Inv(TrySweepCrtc(s, t, success, after).value)
  {
    var pc := s.threads[t];
    assert ThreadOk(s, pc);
    if pc.i >= |s.crtcs| {
      KeepIdleMove(s, t, SweepPlanes(pc.fb, pc.rel, 0, pc.ok));
    } else if s.crtcs[pc.i].fb != Some(pc.fb) {
      KeepIdleMove(s, t, SweepCrtcs(pc.fb, pc.rel, pc.i + 1, pc.ok));
    } else {
      KeepBeginDance(s, t, Call(pc.i, None, success, FromSweep(pc.fb, pc.rel, pc.ok && success)), 0, 0, Mode(0, 0), after);
    }
  }

  lemma KeepCrtcCommit(s: State, t: nat, x: nat, y: nat, mode: Mode, success: bool, after: seq<Crtc>)
    requires Inv(s) && t < |s.threads| && TryCrtcCommit(s, t, x, y, mode, success, after).Some?
    ensures Inv(TryCrtcCommit(s, t, x, y, mode, success, after).value)
  {
    var pc := s.threads[t];
    assert ThreadOk(s, pc);
    if pc.has.Some? {
      assert Accounted(s, pc.has.value);
      HeldIsLive(s, t, pc.has.value);
    }
    KeepBeginDance(s, t, Call(pc.crtc, pc.has, success, FromSetCrtc), x, y, mode, after);
  }

  // ---------- one CRTC's reference moves from old_fb to fb ----------

  /** The taken reference passes from the thread to the CRTC, and the CRTC's old one is gone. */
  lemma TakenPasses(threads: seq<Pc>, refs: seq<Option<Addr>>, t: nat, k: nat, pc: Pc, g: Addr)
    requires t < |threads| && k < |refs|
    requires threads[t].Dance? && pc.Dance? && pc.taken == None && pc.call == threads[t].call
    ensures multiset(refs[k := threads[t].taken])[Some(g)] + HeldCount(threads[t := pc], g) + Opt(refs[k])[g]
         == multiset(refs)[Some(g)] + HeldCount(threads, g)
  {
    HeldUpdate(threads, t, pc, g);
    SlotSwap(refs, k, threads[t].taken, g);
    assert Held(threads[t]) == Opt(threads[t].taken) + Held(pc);
  }

  /** What kref_put on `was` did to the object at `g`. */
  predicate PutDone(s: State, s': State, was: Option<Addr>, g: Addr) {
    if was != Some(g) then (g in s'.fbs <==> g in s.fbs) && (g in s.fbs ==> s'.fbs[g] == s.fbs[g])
    else if g !in s.fbs then false
    else if s.fbs[g].refs <= 1 then g !in s'.fbs
    else g in s'.fbs && s'.fbs[g] == s.fbs[g].(refs := s.fbs[g].refs - 1)
  }

  lemma PutEffect(s: State, was: Option<Addr>, g: Addr)
    requires was.Some? ==> was.value in s.fbs && s.fbs[was.value].refs > 0
    ensures PutDone(s, PutOpt(s, was), was, g)
    ensures PutOpt(s, was) == s.(fbs := PutOpt(s, was).fbs)
  {
  }

  lemma AccountUnref(s: State, s': State, k: nat, g: Addr)
    requires Accounted(s, g) && k < |s.crtcRef| && s'.onList == s.onList && s'.planes == s.planes
    requires multiset(s'.crtcRef)[Some(g)] + HeldCount(s'.threads, g) + Opt(s.crtcRef[k])[g]
          == multiset(s.crtcRef)[Some(g)] + HeldCount(s.threads, g)
    requires PutDone(s, s', s.crtcRef[k], g)
    ensures Accounted(s', g)
    ensures g in s.fbs && g !in s'.fbs ==> s.fbs[g].id == 0
  {
    if s.crtcRef[k] == Some(g) { assert Some(g) in multiset(s.crtcRef); }
  }

  lemma UnrefAdvances(s: State, s': State, k: nat, taken: Option<Addr>, call: Call)
    requires DanceOk(s, k, taken, true, call)
    requires s'.crtcs == s.crtcs && s'.crtcRef == s.crtcRef[k := taken]
    requires forall g :: g in s'.fbs ==> g in s.fbs && s'.fbs[g].id == s.fbs[g].id
    ensures DanceOk(s', k + 1, None, false, call)
  {
  }

  lemma UnrefCounts(s: State, t: nat)
    requires !s.bug && (forall g: Addr :: Accounted(s, g)) && t < |s.threads| && TryDanceUnref(s, t).Some?
    requires var pc := s.threads[t]; s.crtcRef[pc.k] == s.crtcs[pc.k].oldFb && pc.taken == s.crtcs[pc.k].fb
    ensures var s' := TryDanceUnref(s, t).value;
            && !s'.bug
            && (forall g: Addr :: Accounted(s', g))
            && (forall g :: g in s.fbs && g !in s'.fbs ==> s.fbs[g].id == 0)
  {
    var pc := s.threads[t];
    var s' := TryDanceUnref(s, t).value;
    var was := s.crtcRef[pc.k];
    if was.Some? {
      assert Accounted(s, was.value);
      RefIsLive(s, pc.k, was.value);
    }
    forall g: Addr
      ensures Accounted(s', g)
      ensures g in s.fbs && g !in s'.fbs ==> s.fbs[g].id == 0
    {
      UnrefCountsOne(s, t, s', g);
    }
  }

  lemma UnrefCountsOne(s: State, t: nat, s': State, g: Addr)
    requires Accounted(s, g) && t < |s.threads| && TryDanceUnref(s, t) == Some(s')
    requires var pc := s.threads[t]; s.crtcRef[pc.k] == s.crtcs[pc.k].oldFb && pc.taken == s.crtcs[pc.k].fb
    requires var was := s.crtcRef[s.threads[t].k]; was.Some? ==> was.value in s.fbs && s.fbs[was.value].refs > 0
    ensures Accounted(s', g)
    ensures g in s.fbs && g !in s'.fbs ==> s.fbs[g].id == 0
  {
    var pc := s.threads[t];
    PutEffect(s, s.crtcRef[pc.k], g);
    TakenPasses(s.threads, s.crtcRef, t, pc.k, Dance(pc.k + 1, None, false, pc.call), g);
    AccountUnref(s, s', pc.k, g);
  }

  lemma KeepDanceUnref(s: State, t: nat)
    requires Inv(s) && t < |s.threads| && TryDanceUnref(s, t).Some?
    ensures Inv(TryDanceUnref(s, t).value)
  {
    var pc := s.threads[t];
    var pc' := Dance(pc.k + 1, None, false, pc.call);
    var s' := TryDanceUnref(s, t).value;
    DanceOf(s, t);
    UnrefCounts(s, t);
    UnrefKeepsRest(s, s', t, pc');
    UnrefAdvances(s, s', pc.k, pc.taken, pc.call);
    StillFits(s, t, pc');
    assert s'.threads[t].Dance?;
    Assemble(s, s', t, pc');
  }

  lemma UnrefKeepsRest(s: State, s': State, t: nat, pc: Pc)
    requires Inv(s) && t < |s.threads| && HoldsAll(s.threads[t])
    requires s' == s.(fbs := s'.fbs, crtcRef := s'.crtcRef, threads := s.threads[t := pc])
    requires forall g :: g in s'.fbs ==> g in s.fbs && s'.fbs[g] == s.fbs[g].(refs := s'.fbs[g].refs)
    requires forall g :: g in s.fbs && g !in s'.fbs ==> s.fbs[g].id == 0
    requires forall g: Addr :: Accounted(s', g)
    ensures TableOk(s') && ListsOk(s') && ViewportsOk(s')
    ensures forall u :: 0 <= u < |s.threads| && u != t ==> ThreadOk(s', s.threads[u])
  {
    forall g, u | g in s.fbs && g !in s'.fbs && 0 <= u < |s.threads| && u != t ensures g !in Held(s.threads[u]) {
      assert s'.threads[u] == s.threads[u];
      assert Accounted(s', g);
      if g in Held(s.threads[u]) { HeldIsLive(s', u, g); }
    }
    OthersKeepWhileHeld(s, s', t);
  }

  // ---------- page flip ----------

  /** The new framebuffer's reference passes from the thread to the CRTC, and the old one's the other way. */
  lemma FlipPasses(threads: seq<Pc>, refs: seq<Option<Addr>>, t: nat, c: nat, was: Addr, g: Addr)
    requires t < |threads| && c < |refs| && refs[c] == Some(was) && threads[t].FlipHas? && threads[t].crtc == c
    ensures multiset(refs[c := Some(threads[t].fb)])[Some(g)] + HeldCount(threads[t := FlipDrop(c, was)], g)
         == multiset(refs)[Some(g)] + HeldCount(threads, g)
  {
    HeldUpdate(threads, t, FlipDrop(c, was), g);
    SlotSwap(refs, c, Some(threads[t].fb), g);
    FlipHolds(c, threads[t].fb, was, g);
  }

  lemma FlipHolds(c: nat, fb: Addr, was: Addr, g: Addr)
    ensures Held(FlipHas(c, fb))[g] == Opt(Some(fb))[g] && Held(FlipDrop(c, was))[g] == Opt(Some(was))[g]
  {
  }

  lemma AccountFlip(s: State, s': State, t: nat, c: nat, pc: Pc, g: Addr)
    requires Accounted(s, g) && t < |s.threads| && c < |s.crtcRef| && s.crtcRef[c].Some?
    requires s.threads[t].FlipHas? && s.threads[t].crtc == c && pc == FlipDrop(c, s.crtcRef[c].value)
    requires s' == s.(crtcs := s'.crtcs, crtcRef := s.crtcRef[c := Some(s.threads[t].fb)], threads := s.threads[t := pc])
    ensures Accounted(s', g)
  {
    FlipPasses(s.threads, s.crtcRef, t, c, s.crtcRef[c].value, g);
  }

  /** While one CRTC mutex is held, nobody holds all of them. */
  lemma FlipperAlone(s: State, t: nat, u: nat)
    requires Inv(s) && t < |s.threads| && u < |s.threads| && u != t && HeldCrtc(s.threads[t]).Some?
    ensures !HoldsAll(s.threads[u]) && HeldCrtc(s.threads[u]) != HeldCrtc(s.threads[t])
  {
    assert Compatible(s.threads[t], s.threads[u]);
    assert Compatible(s.threads[u], s.threads[t]);
  }

  lemma FlipSettled(s: State, t: nat)
    requires Inv(s) && t < |s.threads| && HeldCrtc(s.threads[t]).Some?
    ensures Settled(s)
  {
    if Dancing(s.threads) {
      var u :| 0 <= u < |s.threads| && s.threads[u].Dance?;
      FlipperAlone(s, t, u);
    }
  }

  lemma FlipKeepsThreads(s: State, s': State, t: nat, c: nat)
    requires Inv(s) && t < |s.threads| && HeldCrtc(s.threads[t]) == Some(c) && c < |s.crtcs|
    requires |s'.crtcs| == |s.crtcs| && (forall j :: 0 <= j < |s.crtcs| && j != c ==> s'.crtcs[j] == s.crtcs[j])
    requires s'.fbs == s.fbs && s'.onList == s.onList
    ensures forall u :: 0 <= u < |s.threads| && u != t ==> ThreadOk(s', s.threads[u])
  {
    forall u | 0 <= u < |s.threads| && u != t ensures ThreadOk(s', s.threads[u]) {
      FlipperAlone(s, t, u);
      assert ThreadOk(s, s.threads[u]);
    }
  }

  lemma KeepFlipCommit(s: State, t: nat, success: bool)
    requires Inv(s) && t < |s.threads| && TryFlipCommit(s, t, success).Some?
    ensures Inv(TryFlipCommit(s, t, success).value)
  {
    var pc := s.threads[t];
    assert ThreadOk(s, pc);
    FlipSettled(s, t);
    assert Accounted(s, pc.fb);
    HeldIsLive(s, t, pc.fb);
    ShownIsLive(s, pc.crtc, s.crtcs[pc.crtc].fb.value);
    if !success {
      KeepIdleMove(s, t, FlipDrop(pc.crtc, pc.fb));
    } else {
      var s' := TryFlipCommit(s, t, success).value;
      var pc' := FlipDrop(pc.crtc, s.crtcs[pc.crtc].fb.value);
      forall g: Addr ensures Accounted(s', g) {
        assert Accounted(s, g);
        AccountFlip(s, s', t, pc.crtc, pc', g);
      }
      FlipKeepsThreads(s, s', t, pc.crtc);
      StillFits(s, t, pc');
      assert ViewportsOk(s');
      Assemble(s, s', t, pc');
    }
  }

  // ---------- every step ----------

  lemma KeepNext(s: State, t: nat, a: Action)
    requires Inv(s) && t < |s.threads| && Next(s, t, a).Some?
    ensures Inv(Next(s, t, a).value)
  {
    match a
    case FbCreate(file, f, newId, geo) => KeepFbCreate(s, t, file, f, newId, geo);
    case FbListAdd => KeepFbListAdd(s, t);
    case Lookup(id) => KeepLookup(s, t, id);
    case Drop => KeepDrop(s, t);
    case RmFb(file, id) => KeepRmFb(s, t, file, id);
    case ReleaseBegin(file) => KeepReleaseBegin(s, t, file);
    case ReleaseNext(f) => KeepReleaseNext(s, t, f);
    case ReleaseEnd => KeepReleaseEnd(s, t);
    case ReadCount => KeepReadCount(s, t);
    case LockForSweep => KeepLockForSweep(s, t);
    case SweepCrtc(success, after) => KeepSweepCrtc(s, t, success, after);
    case SweepPlane => KeepSweepPlane(s, t);
    case FinalPut => KeepFinalPut(s, t);
    case PlaneLookup(plane, id) => KeepPlaneLookup(s, t, plane, id);
    case PlaneDisable(plane) => KeepPlaneDisable(s, t, plane);
    case PlaneReject => KeepPlaneReject(s, t);
    case PlaneUpdate(success) => KeepPlaneUpdate(s, t, success);
    case CrtcLock(c) => KeepCrtcLock(s, t, c);
    case CrtcFetch(source) => KeepCrtcFetch(s, t, source);
    case CrtcReject => KeepCrtcReject(s, t);
    case CrtcCommit(x, y, mode, success, after) => KeepCrtcCommit(s, t, x, y, mode, success, after);
    case CrtcUnlock => KeepCrtcUnlock(s, t);
    case DanceRef => KeepDanceRef(s, t);
    case DanceUnref => KeepDanceUnref(s, t);
    case DanceEnd => KeepDanceEnd(s, t);
    case FlipLock(c) => KeepFlipLock(s, t, c);
    case FlipAbort => KeepFlipAbort(s, t);
    case FlipLookup(id) => KeepFlipLookup(s, t, id);
    case FlipReject => KeepFlipReject(s, t);
    case FlipCommit(success) => KeepFlipCommit(s, t, success);
    case FlipUnlock => KeepFlipUnlock(s, t);
  }
}
