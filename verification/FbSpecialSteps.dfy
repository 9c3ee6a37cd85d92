/** The steps that move references between owners: registration, lists, planes, CRTCs. */
module FbSpecialSteps {
  import opened Options
  import opened FbMachine
  import opened FbInvariant
  import opened FbPreservation
  import opened FbSteps

  // ---------- addfb ----------

  lemma AccountCreate(s: State, t: nat, s': State, f: Addr, pc: Pc, g: Addr)
    requires Accounted(s, g) && t < |s.threads| && f !in s.fbs && Held(s.threads[t]) == multiset{} && Held(pc) == multiset{f}
    requires s' == s.(fbs := s'.fbs, idr := s'.idr, threads := s.threads[t := pc])
    requires f in s'.fbs && s'.fbs[f].refs == 2 && s'.fbs[f].id != 0
    requires g != f ==> (g in s'.fbs <==> g in s.fbs) && (g in s.fbs ==> s'.fbs[g] == s.fbs[g])
    ensures Accounted(s', g)
  {
    HeldUpdate(s.threads, t, pc, g);
  }

  lemma KeepFbCreate(s: State, t: nat, file: File, f: Addr, newId: nat, geo: Geometry)
    requires Inv(s) && t < |s.threads| && TryFbCreate(s, t, file, f, newId, geo).Some?
    ensures Inv(TryFbCreate(s, t, file, f, newId, geo).value)
  {
    var s' := TryFbCreate(s, t, file, f, newId, geo).value;
    forall g: Addr ensures Accounted(s', g) {
      assert Accounted(s, g);
      AccountCreate(s, t, s', f, Created(f, file), g);
    }
    CreateKeepsThreads(s, t, s', f, Created(f, file));
    CreateKeepsViewports(s, s', f);
    CreateKeepsTable(s, s', f, newId, geo);
    DancingStays(s, s', t);
    Assemble(s, s', t, Created(f, file));
  }

  lemma CreateKeepsTable(s: State, s': State, f: Addr, newId: nat, geo: Geometry)
    requires TableOk(s) && ListsOk(s) && (forall g: Addr :: Accounted(s, g)) && f !in s.fbs && newId != 0 && newId !in s.idr
    requires s'.fbs == s.fbs[f := Fb(2, newId, geo)] && s'.idr == s.idr[newId := f] && s'.onList == s.onList
    ensures TableOk(s') && ListsOk(s') && f !in s.onList
  {
    assert Accounted(s, f);
  }

  lemma CreateKeepsThreads(s: State, t: nat, s': State, f: Addr, pc: Pc)
    requires Inv(s) && t < |s.threads| && f !in s.fbs && s.threads[t].Idle? && pc.Created? && pc.fb == f
    requires s'.fbs.Keys == s.fbs.Keys + {f} && (forall g :: g in s.fbs ==> s'.fbs[g] == s.fbs[g])
    requires s' == s.(fbs := s'.fbs, idr := s'.idr, threads := s'.threads)
    ensures FitsIn(s.threads, t, pc)
    ensures forall u :: 0 <= u < |s.threads| && u != t ==> ThreadOk(s', s.threads[u])
  {
    forall u | 0 <= u < |s.threads| && u != t
      ensures ThreadOk(s', s.threads[u]) && Compatible(pc, s.threads[u]) && Compatible(s.threads[u], pc)
    {
      CreateKeepsThread(s, t, u, s', f);
    }
  }

  lemma CreateKeepsViewports(s: State, s': State, f: Addr)
    requires Inv(s) && f !in s.fbs && s'.crtcs == s.crtcs
    requires forall g :: g in s.fbs ==> g in s'.fbs && s'.fbs[g] == s.fbs[g]
    ensures ViewportsOk(s')
  {
    forall j | 0 <= j < |s.crtcs| && s.crtcs[j].fb.Some? ensures s.crtcs[j].fb.value in s.fbs {
      ShownIsLive(s, j, s.crtcs[j].fb.value);
    }
  }

  lemma CreateKeepsThread(s: State, t: nat, u: nat, s': State, f: Addr)
    requires Inv(s) && t < |s.threads| && u < |s.threads| && u != t && f !in s.fbs
    requires s'.fbs.Keys == s.fbs.Keys + {f} && (forall g :: g in s.fbs ==> s'.fbs[g] == s.fbs[g])
    requires s' == s.(fbs := s'.fbs, idr := s'.idr, threads := s'.threads)
    ensures ThreadOk(s', s.threads[u]) && f !in Held(s.threads[u])
  {
    assert ThreadOk(s, s.threads[u]);
    assert Accounted(s, f);
    if f in Held(s.threads[u]) { HeldIsLive(s, u, f); }
  }

  lemma KeepFbListAdd(s: State, t: nat)
    requires Inv(s) && t < |s.threads| && TryFbListAdd(s, t).Some?
    ensures Inv(TryFbListAdd(s, t).value)
  {
    var s' := TryFbListAdd(s, t).value;
    var f := s.threads[t].fb;
    assert ThreadOk(s, s.threads[t]);
    forall g: Addr ensures Accounted(s', g) {
      assert Accounted(s, g);
      HeldUpdate(s.threads, t, Idle, g);
    }
    OthersAfterListAdd(s, t, s');
    DancingStays(s, s', t);
  }

  lemma OthersAfterListAdd(s: State, t: nat, s': State)
    requires Inv(s) && t < |s.threads| && TryFbListAdd(s, t) == Some(s')
    ensures forall u :: 0 <= u < |s.threads| && u != t ==>
              ThreadOk(s', s.threads[u]) && Compatible(Idle, s.threads[u]) && Compatible(s.threads[u], Idle)
  {
    forall u | 0 <= u < |s.threads| && u != t
      ensures ThreadOk(s', s.threads[u]) && Compatible(Idle, s.threads[u]) && Compatible(s.threads[u], Idle)
    {
      assert Compatible(s.threads[t], s.threads[u]);
      assert ThreadOk(s, s.threads[u]);
    }
  }

  // ---------- rmfb and file release ----------

  lemma AccountUnregister(s: State, t: nat, f: Addr, pc: Pc, s': State, g: Addr)
    requires Accounted(s, g) && t < |s.threads| && Held(s.threads[t]) == multiset{} && Held(pc) == multiset{f}
    requires f in s.onList && f in s.fbs && s.fbs[f].id != 0 && s.fbs[f].refs >= 2
    requires s' == s.(fbs := s.fbs[f := s.fbs[f].(id := 0, refs := s.fbs[f].refs - 1)], idr := s'.idr, onList := s.onList - {f}, threads := s.threads[t := pc])
    ensures Accounted(s', g)
  {
    HeldUpdate(s.threads, t, pc, g);
  }

  lemma OthersAfterUnregister(s: State, t: nat, f: Addr, pc: Pc, s': State)
    requires Inv(s) && t < |s.threads| && f in s.onList && s.fbs[f].refs > 1
    requires s' == WithPc(Unregister(s, f).(onList := s.onList - {f}), t, pc)
    requires s'.fbs == s.fbs[f := s.fbs[f].(id := 0, refs := s.fbs[f].refs - 1)]
    ensures forall u :: 0 <= u < |s.threads| && u != t ==> ThreadOk(s', s.threads[u])
  {
    forall u | 0 <= u < |s.threads| && u != t ensures ThreadOk(s', s.threads[u]) {
      assert ThreadOk(s, s.threads[u]);
    }
  }

  lemma KeepUnregister(s: State, t: nat, f: Addr, pc: Pc)
    requires Inv(s) && t < |s.threads| && f in s.onList && Held(s.threads[t]) == multiset{}
    requires pc.Removing? && pc.fb == f && !HoldsAll(s.threads[t])
    ensures Inv(WithPc(Unregister(s, f).(onList := s.onList - {f}), t, pc))
  {
    var s' := WithPc(Unregister(s, f).(onList := s.onList - {f}), t, pc);
    assert Accounted(s, f);
    assert s'.fbs == s.fbs[f := s.fbs[f].(id := 0, refs := s.fbs[f].refs - 1)];
    forall g: Addr ensures Accounted(s', g) {
      assert Accounted(s, g);
      AccountUnregister(s, t, f, pc, s', g);
    }
    assert TableOk(s');
    OthersAfterUnregister(s, t, f, pc, s');
    StillFits(s, t, pc);
    DancingStays(s, s', t);
    assert ViewportsOk(s');
    Assemble(s, s', t, pc);
  }

  lemma KeepRmFb(s: State, t: nat, file: File, id: nat)
    requires Inv(s) && t < |s.threads| && TryRmFb(s, t, file, id).Some?
    ensures Inv(TryRmFb(s, t, file, id).value)
  {
    KeepUnregister(s, t, s.idr[id], Removing(s.idr[id], None));
  }

  lemma KeepReleaseNext(s: State, t: nat, f: Addr)
    requires Inv(s) && t < |s.threads| && TryReleaseNext(s, t, f).Some?
    ensures Inv(TryReleaseNext(s, t, f).value)
  {
    KeepUnregister(s, t, f, Removing(f, Some(s.threads[t].file)));
  }

  // ---------- planes ----------

  lemma AccountPlane(s: State, t: nat, p: nat, fb: Option<Addr>, pc: Pc, s': State, g: Addr)
    requires Accounted(s, g) && t < |s.threads| && p < |s.planes|
    requires s' == s.(planes := s.planes[p := fb], threads := s.threads[t := pc])
    requires Held(pc) + Opt(fb) == Held(s.threads[t]) + Opt(s.planes[p])
    ensures Accounted(s', g)
  {
    HeldUpdate(s.threads, t, pc, g);
    SlotSwap(s.planes, p, fb, g);
    assert (Held(pc) + Opt(fb))[g] == (Held(s.threads[t]) + Opt(s.planes[p]))[g];
  }

  /** Replace what plane `p` shows; the old reference moves to thread `t`, the new one comes from it. */
  lemma KeepPlaneSwap(s: State, t: nat, p: nat, fb: Option<Addr>, pc: Pc)
    requires Inv(s) && t < |s.threads| && p < |s.planes| && CanLockAll(s)
    requires Held(pc) + Opt(fb) == Held(s.threads[t]) + Opt(s.planes[p])
    requires pc.Dropping?
    ensures Inv(WithPc(s.(planes := s.planes[p := fb]), t, pc))
  {
    var s' := WithPc(s.(planes := s.planes[p := fb]), t, pc);
    forall g: Addr ensures Accounted(s', g) {
      assert Accounted(s, g);
      AccountPlane(s, t, p, fb, pc, s', g);
    }
    forall u | 0 <= u < |s.threads| && u != t ensures ThreadOk(s', s.threads[u]) {
      assert ThreadOk(s, s.threads[u]);
      assert !HoldsAll(s.threads[u]);
    }
    StillFits(s, t, pc);
    NotDancingWhileFree(s);
    assert ViewportsOk(s');
    Assemble(s, s', t, pc);
  }

  lemma KeepPlaneDisable(s: State, t: nat, plane: nat)
    requires Inv(s) && t < |s.threads| && TryPlaneDisable(s, t, plane).Some?
    ensures Inv(TryPlaneDisable(s, t, plane).value)
  {
    KeepPlaneSwap(s, t, plane, None, Dropping(s.planes[plane]));
  }

  lemma KeepPlaneUpdate(s: State, t: nat, success: bool)
    requires Inv(s) && t < |s.threads| && TryPlaneUpdate(s, t, success).Some?
    ensures Inv(TryPlaneUpdate(s, t, success).value)
  {
    var pc := s.threads[t];
    if success {
      KeepPlaneSwap(s, t, pc.plane, Some(pc.fb), Dropping(s.planes[pc.plane]));
    } else {
      KeepIdleMove(s, t, Dropping(Some(pc.fb)));
    }
  }

  /** No other thread is inside a section that needs all modeset locks while `t` is. */
  lemma OthersOut(s: State, t: nat, u: nat)
    requires Inv(s) && t < |s.threads| && u < |s.threads| && u != t && HoldsAll(s.threads[t])
    ensures !HoldsAll(s.threads[u]) && HeldCrtc(s.threads[u]) == None
  {
    assert Compatible(s.threads[t], s.threads[u]);
    assert Compatible(s.threads[u], s.threads[t]);
  }

  lemma AccountForceDisable(s: State, t: nat, i: nat, pc: Pc, s': State, f: Addr, g: Addr)
    requires Accounted(s, g) && t < |s.threads| && i < |s.planes| && s.planes[i] == Some(f)
    requires f in s.fbs && s.fbs[f].refs >= 2 && Held(pc) == Held(s.threads[t])
    requires s' == s.(fbs := s.fbs[f := s.fbs[f].(refs := s.fbs[f].refs - 1)], planes := s.planes[i := None], threads := s.threads[t := pc])
    ensures Accounted(s', g)
  {
    HeldUpdate(s.threads, t, pc, g);
    SlotSwap(s.planes, i, None, g);
  }

  /** The remover's own reference keeps the count above one, so force-disable cannot hit the BUG. */
  lemma PlaneAndRemover(s: State, t: nat, i: nat, f: Addr)
    requires Accounted(s, f) && t < |s.threads| && i < |s.planes| && s.planes[i] == Some(f) && f in Held(s.threads[t])
    ensures f in s.fbs && s.fbs[f].refs >= 2
  {
    HeldUpdate(s.threads, t, Idle, f);
    assert Some(f) in multiset(s.planes);
  }

  lemma ForceDisableEffect(s: State, t: nat, pc: Pc, i: nat, f: Addr)
    requires t < |s.threads| && i < |s.planes| && s.planes[i] == Some(f) && f in s.fbs && s.fbs[f].refs >= 2
    ensures WithPc(ForceDisable(s, i), t, pc)
         == s.(fbs := s.fbs[f := s.fbs[f].(refs := s.fbs[f].refs - 1)], planes := s.planes[i := None], threads := s.threads[t := pc])
  {
  }

  lemma ForceDisableAccounts(s: State, t: nat, pc: Pc, i: nat, f: Addr, s': State)
    requires (forall g: Addr :: Accounted(s, g)) && t < |s.threads| && i < |s.planes| && s.planes[i] == Some(f)
    requires f in Held(s.threads[t]) && Held(pc) == Held(s.threads[t]) && s' == WithPc(ForceDisable(s, i), t, pc)
    ensures f in s.fbs && s.fbs[f].refs >= 2
    ensures s' == s.(fbs := s.fbs[f := s.fbs[f].(refs := s.fbs[f].refs - 1)], planes := s.planes[i := None], threads := s.threads[t := pc])
    ensures forall g: Addr :: Accounted(s', g)
  {
    assert Accounted(s, f);
    PlaneAndRemover(s, t, i, f);
    ForceDisableEffect(s, t, pc, i, f);
    forall g: Addr ensures Accounted(s', g) {
      assert Accounted(s, g);
      AccountForceDisable(s, t, i, pc, s', f, g);
    }
  }

  lemma KeepForceDisable(s: State, t: nat, pc: Pc)
    requires Inv(s) && t < |s.threads| && s.threads[t].SweepPlanes? && s.threads[t].i < |s.planes|
    requires s.planes[s.threads[t].i] == Some(s.threads[t].fb)
    requires pc == SweepPlanes(s.threads[t].fb, s.threads[t].rel, s.threads[t].i + 1, s.threads[t].ok)
    ensures Inv(WithPc(ForceDisable(s, s.threads[t].i), t, pc))
  {
    var f, i := s.threads[t].fb, s.threads[t].i;
    var s' := WithPc(ForceDisable(s, i), t, pc);
    ForceDisableAccounts(s, t, pc, i, f, s');
    ForceDisableKeepsThreads(s, s', t, pc);
    StillFits(s, t, pc);
    DancingStays(s, s', t);
    Assemble(s, s', t, pc);
  }

  lemma ForceDisableKeepsThreads(s: State, s': State, t: nat, pc: Pc)
    requires Inv(s) && t < |s.threads| && s.threads[t].SweepPlanes? && s.threads[t].i < |s.planes|
    requires pc == SweepPlanes(s.threads[t].fb, s.threads[t].rel, s.threads[t].i + 1, s.threads[t].ok)
    requires s' == s.(fbs := s'.fbs, planes := s.planes[s.threads[t].i := None], threads := s'.threads)
    requires s'.fbs.Keys == s.fbs.Keys && forall g :: g in s.fbs ==> s'.fbs[g].id == s.fbs[g].id && s'.fbs[g].geo == s.fbs[g].geo
    ensures ThreadOk(s', pc) && ViewportsOk(s') && TableOk(s') && ListsOk(s')
    ensures forall u :: 0 <= u < |s.threads| && u != t ==> ThreadOk(s', s.threads[u])
  {
    assert ThreadOk(s, s.threads[t]);
    forall u | 0 <= u < |s.threads| && u != t ensures ThreadOk(s', s.threads[u]) {
      assert ThreadOk(s, s.threads[u]);
      OthersOut(s, t, u);
    }
  }

  lemma KeepSweepPlane(s: State, t: nat)
    requires Inv(s) && t < |s.threads| && TrySweepPlane(s, t).Some?
    ensures Inv(TrySweepPlane(s, t).value)
  {
    var pc := s.threads[t];
    assert ThreadOk(s, pc);
    if pc.i >= |s.planes| {
      KeepIdleMove(s, t, LastPut(pc.fb, pc.rel));
    } else if s.planes[pc.i] == Some(pc.fb) {
      KeepForceDisable(s, t, SweepPlanes(pc.fb, pc.rel, pc.i + 1, pc.ok));
    } else {
      KeepIdleMove(s, t, SweepPlanes(pc.fb, pc.rel, pc.i + 1, pc.ok));
    }
  }
}
