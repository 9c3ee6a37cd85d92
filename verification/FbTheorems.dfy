/** What holds in every reachable state, of every interleaving. */
module FbTheorems {
  import opened Options
  import opened CValues
  import opened FbMachine
  import opened FbInvariant
  import opened FbPreservation
  import opened FbSteps
  import opened FbCrtcSteps

  lemma {:induction false} HeldNowhere(threads: seq<Pc>, f: Addr)
    requires forall u :: 0 <= u < |threads| ==> f !in Held(threads[u])
    ensures HeldCount(threads, f) == 0
  {
    if |threads| > 0 {
      HeldNowhere(threads[..|threads| - 1], f);
      assert HeldOf(f)(threads[|threads| - 1]) == 0;
    }
  }

  lemma InitIsGood(s: State)
    requires Init(s)
    ensures Inv(s)
  {
    forall f: Addr ensures Accounted(s, f) {
      HeldNowhere(s.threads, f);
    }
  }

  lemma StepKeepsInv(s: State, s': State)
    requires Inv(s) && Step(s, s')
    ensures Inv(s')
  {
    var t: nat, a :| t < |s.threads| && Next(s, t, a) == Some(s');
    KeepNext(s, t, a);
  }

  lemma StepAtKeepsInv(path: seq<State>, k: nat)
    requires IsRun(path) && k + 1 < |path| && Inv(path[k])
    ensures Inv(path[k + 1])
  {
    assert StepAt(path, k);
    StepKeepsInv(path[k], path[k + 1]);
  }

  lemma {:induction false} RunKeepsInv(path: seq<State>, k: nat)
    requires IsRun(path) && k < |path| && Inv(path[0])
    ensures Inv(path[k])
  {
    if k > 0 {
      RunKeepsInv(path, k - 1);
      StepAtKeepsInv(path, k - 1);
    }
  }

  lemma ReachableIsGood(s: State)
    requires Reachable(s)
    ensures Inv(s)
  {
    var path: seq<State> :| IsRun(path) && Init(path[0]) && path[|path| - 1] == s;
    InitIsGood(path[0]);
    RunKeepsInv(path, |path| - 1);
  }

  // ---------- counting what is shown ----------

  function Shown(crtcs: seq<Crtc>): (r: seq<Option<Addr>>)
    ensures |r| == |crtcs| && forall j :: 0 <= j < |r| ==> r[j] == crtcs[j].fb
  {
    seq(|crtcs|, j requires 0 <= j < |crtcs| => crtcs[j].fb)
  }

  /** The object a CRTC has a reference to while the loop of drm_mode_set_config_internal is at `k`: what it showed before, from there on. */
  function Due(s: State, k: nat, j: nat): Option<Addr>
    requires j < |s.crtcs|
  {
    if j < k then s.crtcs[j].fb else s.crtcs[j].oldFb
  }

  lemma DanceOwns(s: State)
    requires Inv(s)
    ensures forall u, j :: 0 <= u < |s.threads| && s.threads[u].Dance? && 0 <= j < |s.crtcs| ==> s.crtcRef[j] == Due(s, s.threads[u].k, j)
  {
    forall u | 0 <= u < |s.threads| && s.threads[u].Dance?
      ensures forall j :: 0 <= j < |s.crtcs| ==> s.crtcRef[j] == Due(s, s.threads[u].k, j)
    {
      assert ThreadOk(s, s.threads[u]);
    }
  }

  /**
   A live framebuffer's count is exactly: its registration, its creation reference while
   that is parked on a file's list, the CRTCs and planes showing it, and the references
   the running ioctls hold (among them the creation reference in the hands of addfb or a
   remover).  A dead one has none of these.  While the reference loop runs, the CRTCs count
   with the reference each still owns: to what it shows once the loop has passed it, and to
   what it showed before until then.
   */
  lemma RefcountIsExact(s: State, f: Addr)
    requires Reachable(s)
    ensures f in s.fbs ==> s.fbs[f].refs > 0
    ensures (if f in s.fbs then s.fbs[f].refs else 0) ==
            Bit(f in s.idr.Values) + Bit(f in s.onList) + multiset(s.crtcRef)[Some(f)]
            + multiset(s.planes)[Some(f)] + HeldCount(s.threads, f)
    ensures |s.crtcRef| == |s.crtcs|
    ensures !Dancing(s.threads) ==> s.crtcRef == Shown(s.crtcs)
    ensures forall u, j :: 0 <= u < |s.threads| && s.threads[u].Dance? && 0 <= j < |s.crtcs| ==> s.crtcRef[j] == Due(s, s.threads[u].k, j)
    ensures f !in s.fbs ==>
              && f !in s.idr.Values && f !in s.onList
              && Some(f) !in Shown(s.crtcs) && Some(f) !in s.planes && HeldCount(s.threads, f) == 0
    ensures !s.bug
  {
    ReachableIsGood(s);
    DanceOwns(s);
    assert Accounted(s, f);
    assert f in s.idr.Values <==> f in s.fbs && s.fbs[f].id != 0 by {
      if f in s.fbs && s.fbs[f].id != 0 { assert s.idr[s.fbs[f].id] == f; }
    }
    if f !in s.fbs {
      forall j | 0 <= j < |s.crtcs| ensures s.crtcs[j].fb != Some(f) {
        if s.crtcs[j].fb == Some(f) { ShownIsLive(s, j, f); }
      }
      assert Some(f) !in multiset(s.planes);
    }
  }

  /**
   Once its id is gone, no list has it, no plane shows it and no ioctl holds it, an object
   lives exactly as long as some CRTC shows it; while the loop runs, as long as some CRTC that
   the loop has passed shows it or one still to come showed it before.
   */
  lemma StaysIffShown(s: State, f: Addr)
    requires Reachable(s)
    requires f !in s.idr.Values && f !in s.onList && (forall u :: 0 <= u < |s.threads| ==> f !in Held(s.threads[u]))
    requires forall j :: 0 <= j < |s.planes| ==> s.planes[j] != Some(f)
    ensures Settled(s) ==> (f in s.fbs <==> exists j :: 0 <= j < |s.crtcs| && s.crtcs[j].fb == Some(f))
    ensures !Dancing(s.threads) ==> Settled(s)
    ensures forall u :: 0 <= u < |s.threads| && s.threads[u].Dance? ==>
              (f in s.fbs <==> exists j :: 0 <= j < |s.crtcs| && Due(s, s.threads[u].k, j) == Some(f))
  {
    RefcountIsExact(s, f);
    ReachableIsGood(s);
    HeldNowhere(s.threads, f);
    assert Some(f) !in multiset(s.planes);
    assert f in s.fbs <==> Some(f) in multiset(s.crtcRef);
    RefsAre(s, f);
  }

  lemma RefsAre(s: State, f: Addr)
    requires Inv(s)
    ensures Settled(s) ==> (Some(f) in multiset(s.crtcRef) <==> exists j :: 0 <= j < |s.crtcs| && s.crtcs[j].fb == Some(f))
    ensures forall u :: 0 <= u < |s.threads| && s.threads[u].Dance? ==>
              (Some(f) in multiset(s.crtcRef) <==> exists j :: 0 <= j < |s.crtcs| && Due(s, s.threads[u].k, j) == Some(f))
  {
    assert Some(f) in multiset(s.crtcRef) <==> exists j :: 0 <= j < |s.crtcRef| && s.crtcRef[j] == Some(f);
    DanceOwns(s);
  }

  /** No step of any thread, of any interleaving, is a BUG() or touches a destroyed object. */
  lemma NeverBug(s: State, t: nat, a: Action)
    requires Reachable(s) && t < |s.threads| && Next(s, t, a).Some?
    ensures !s.bug && !Next(s, t, a).value.bug
  {
    ReachableIsGood(s);
    KeepNext(s, t, a);
  }

  /** An object is destroyed only by a step after which nothing at all refers to it. */
  lemma DestroyedOnlyWhenUnused(s: State, t: nat, a: Action, f: Addr)
    requires Reachable(s) && t < |s.threads| && Next(s, t, a).Some?
    ensures var s' := Next(s, t, a).value;
            f in s.fbs && f !in s'.fbs ==>
              && (forall i :: i in s'.idr ==> s'.idr[i] != f)
              && f !in s'.onList
              && (forall j :: 0 <= j < |s'.crtcs| ==> s'.crtcs[j].fb != Some(f))
              && (forall j :: 0 <= j < |s'.planes| ==> s'.planes[j] != Some(f))
              && (forall u :: 0 <= u < |s'.threads| ==> f !in Held(s'.threads[u]))
  {
    var s' := Next(s, t, a).value;
    ReachableIsGood(s);
    KeepNext(s, t, a);
    if f !in s'.fbs { NothingRefers(s', f); }
  }

  /** In a good state nothing refers to an object that is not there. */
  lemma NothingRefers(s: State, f: Addr)
    requires Inv(s) && f !in s.fbs
    ensures forall i :: i in s.idr ==> s.idr[i] != f
    ensures f !in s.onList
    ensures forall j :: 0 <= j < |s.crtcs| ==> s.crtcs[j].fb != Some(f)
    ensures forall j :: 0 <= j < |s.planes| ==> s.planes[j] != Some(f)
    ensures forall u :: 0 <= u < |s.threads| ==> f !in Held(s.threads[u])
  {
    assert Accounted(s, f);
    forall j | 0 <= j < |s.crtcs| ensures s.crtcs[j].fb != Some(f) {
      if s.crtcs[j].fb == Some(f) { ShownIsLive(s, j, f); }
    }
    forall j | 0 <= j < |s.planes| ensures s.planes[j] != Some(f) {
      if s.planes[j] == Some(f) { PlaneIsLive(s, j, f); }
    }
    forall u | 0 <= u < |s.threads| ensures f !in Held(s.threads[u]) {
      if f in Held(s.threads[u]) { HeldIsLive(s, u, f); }
    }
  }

  /**
   At every moment, also between the references and unreferences of a dance, whatever a
   CRTC shows is alive and contains the CRTC's viewport, the mode's sides swapped when the
   CRTC inverts them.
   */
  lemma ShownIsAliveAndFits(s: State, j: nat)
    requires Reachable(s) && j < |s.crtcs| && s.crtcs[j].fb.Some?
    ensures s.crtcs[j].fb.value in s.fbs
    ensures var crtc, geo := s.crtcs[j], s.fbs[s.crtcs[j].fb.value].geo;
            && crtc.x + (if crtc.invert then crtc.mode.vdisplay else crtc.mode.hdisplay) <= geo.width
            && crtc.y + (if crtc.invert then crtc.mode.hdisplay else crtc.mode.vdisplay) <= geo.height
  {
    ReachableIsGood(s);
    ShownIsLive(s, j, s.crtcs[j].fb.value);
  }

  /**
   When drm_framebuffer_remove has swept the CRTCs and planes, and every ->set_config
   of the sweep succeeded, nothing shows the framebuffer.
   */
  lemma SweepClears(s: State, t: nat)
    requires Reachable(s) && t < |s.threads| && s.threads[t].SweepPlanes? && s.threads[t].i == |s.planes|
    ensures forall j :: 0 <= j < |s.planes| ==> s.planes[j] != Some(s.threads[t].fb)
    ensures s.threads[t].ok ==> forall j :: 0 <= j < |s.crtcs| ==> s.crtcs[j].fb != Some(s.threads[t].fb)
  {
    ReachableIsGood(s);
    assert ThreadOk(s, s.threads[t]);
  }

  // ---------- the last-holder shortcut of drm_framebuffer_remove ----------

  predicate RemoverHolds(pc: Pc, f: Addr) {
    (pc.Removing? || pc.LastPut?) && pc.fb == f
  }

  predicate OutOfReach(s: State, t: nat, f: Addr) {
    && f in s.fbs && s.fbs[f].refs == 1
    && (forall i :: i in s.idr ==> s.idr[i] != f)
    && f !in s.onList
    && (forall j :: 0 <= j < |s.crtcs| ==> s.crtcs[j].fb != Some(f))
    && (forall j :: 0 <= j < |s.planes| ==> s.planes[j] != Some(f))
    && (forall u :: 0 <= u < |s.threads| && u != t ==> f !in Held(s.threads[u]))
  }

  lemma CrtcRefAbsent(s: State, j: nat, f: Addr)
    requires j < |s.crtcRef| && multiset(s.crtcRef)[Some(f)] == 0
    ensures s.crtcRef[j] != Some(f)
  {
    assert s.crtcRef[j] in multiset(s.crtcRef);
  }

  lemma PlaneAbsent(s: State, j: nat, f: Addr)
    requires j < |s.planes| && multiset(s.planes)[Some(f)] == 0
    ensures s.planes[j] != Some(f)
  {
    assert s.planes[j] in multiset(s.planes);
  }

  lemma LastHolder(s: State, t: nat, f: Addr)
    requires Inv(s) && t < |s.threads| && RemoverHolds(s.threads[t], f)
    requires f in s.fbs && s.fbs[f].refs == 1
    ensures OutOfReach(s, t, f)
    ensures forall j :: 0 <= j < |s.crtcRef| ==> s.crtcRef[j] != Some(f)
  {
    assert Accounted(s, f);
    assert ThreadOk(s, s.threads[t]);
    HeldUpdate(s.threads, t, Idle, f);
    forall u | 0 <= u < |s.threads| && u != t ensures f !in Held(s.threads[u]) {
      HeldPair(s.threads, t, u, f);
    }
    forall j | 0 <= j < |s.crtcRef| ensures s.crtcRef[j] != Some(f) { CrtcRefAbsent(s, j, f); }
    forall j | 0 <= j < |s.planes| ensures s.planes[j] != Some(f) { PlaneAbsent(s, j, f); }
    forall j | 0 <= j < |s.crtcs| ensures s.crtcs[j].fb != Some(f) { LastHolderNotShown(s, t, j, f); }
  }

  lemma LastHolderNotShown(s: State, t: nat, j: nat, f: Addr)
    requires Inv(s) && t < |s.threads| && RemoverHolds(s.threads[t], f) && j < |s.crtcs|
    requires s.crtcRef[j] != Some(f)
    requires forall u :: 0 <= u < |s.threads| && u != t ==> f !in Held(s.threads[u])
    ensures s.crtcs[j].fb != Some(f)
  {
    var u := SettledOrDancer(s);
    if !Settled(s) && s.crtcs[j].fb == Some(f) { ShownInDance(s, s.threads[u], j, f); }
  }

  /** A reference taken on another object, or an object made elsewhere, leaves `f` alone. */
  lemma GetElsewhere(s: State, o: Option<Addr>, f: Addr)
    requires o != Some(f) && f in s.fbs
    ensures f in GetOpt(s, o).fbs && GetOpt(s, o).fbs[f] == s.fbs[f]
  {
  }

  lemma CreateLeavesAlone(s: State, u: nat, a: Action, f: Addr)
    requires u < |s.threads| && f in s.fbs && Next(s, u, a).Some? && (a.FbCreate? || a.FbListAdd?)
    ensures var s' := Next(s, u, a).value; f in s'.fbs && s'.fbs[f] == s.fbs[f]
  {
  }

  lemma LookupLeavesAlone(s: State, u: nat, a: Action, f: Addr)
    requires u < |s.threads| && f in s.fbs && (forall i :: i in s.idr ==> s.idr[i] != f) && Next(s, u, a).Some?
    requires a.Lookup? || a.PlaneLookup? || a.FlipLookup?
    ensures var s' := Next(s, u, a).value; f in s'.fbs && s'.fbs[f] == s.fbs[f]
  {
    GetElsewhere(s, Some(s.idr[a.id]), f);
  }

  lemma FetchLeavesAlone(s: State, u: nat, source: Source, f: Addr)
    requires u < |s.threads| && f in s.fbs && (forall i :: i in s.idr ==> s.idr[i] != f)
    requires (forall j :: 0 <= j < |s.crtcs| ==> s.crtcs[j].fb != Some(f)) && TryCrtcFetch(s, u, source).Some?
    ensures var s' := TryCrtcFetch(s, u, source).value; f in s'.fbs && s'.fbs[f] == s.fbs[f]
  {
    if source.Current? { GetElsewhere(s, s.crtcs[s.threads[u].crtc].fb, f); }
    if source.ById? && source.id in s.idr { GetElsewhere(s, Some(s.idr[source.id]), f); }
  }

  /** Giving up a reference to one object leaves another alone. */
  lemma PutElsewhere(s: State, g: Addr, f: Addr)
    requires g != f && f in s.fbs
    ensures f in Put(s, g).fbs && Put(s, g).fbs[f] == s.fbs[f]
    ensures f in PutKeep(s, g).fbs && PutKeep(s, g).fbs[f] == s.fbs[f]
  {
  }

  lemma PutOptElsewhere(s: State, o: Option<Addr>, f: Addr)
    requires o != Some(f) && f in s.fbs
    ensures f in PutOpt(s, o).fbs && PutOpt(s, o).fbs[f] == s.fbs[f]
  {
    if o.Some? { PutElsewhere(s, o.value, f); }
  }

  lemma DropLeavesAlone(s: State, u: nat, a: Action, f: Addr)
    requires u < |s.threads| && f in s.fbs && f !in Held(s.threads[u]) && Next(s, u, a).Some? && (a.Drop? || a.CrtcUnlock?)
    ensures var s' := Next(s, u, a).value; f in s'.fbs && s'.fbs[f] == s.fbs[f]
  {
    PutOptElsewhere(s, s.threads[u].drop, f);
  }

  lemma FinalPutLeavesAlone(s: State, u: nat, a: Action, f: Addr)
    requires u < |s.threads| && f in s.fbs && f !in Held(s.threads[u]) && Next(s, u, a).Some? && (a.FinalPut? || a.FlipUnlock?)
    ensures var s' := Next(s, u, a).value; f in s'.fbs && s'.fbs[f] == s.fbs[f]
  {
    PutElsewhere(s, s.threads[u].fb, f);
  }

  lemma SweepPlaneLeavesAlone(s: State, u: nat, f: Addr)
    requires u < |s.threads| && f in s.fbs && f !in Held(s.threads[u]) && Next(s, u, SweepPlane).Some?
    ensures var s' := Next(s, u, SweepPlane).value; f in s'.fbs && s'.fbs[f] == s.fbs[f]
  {
    PutElsewhere(s, s.threads[u].fb, f);
  }

  lemma RemovalsLeaveAlone(s: State, t: nat, u: nat, a: Action, f: Addr)
    requires u < |s.threads| && u != t && OutOfReach(s, t, f) && Next(s, u, a).Some?
    requires a.RmFb? || a.ReleaseNext?
    ensures var s' := Next(s, u, a).value; f in s'.fbs && s'.fbs[f] == s.fbs[f]
  {
  }

  lemma DanceRefLeavesAlone(s: State, u: nat, f: Addr)
    requires u < |s.threads| && f in s.fbs && (forall j :: 0 <= j < |s.crtcs| ==> s.crtcs[j].fb != Some(f)) && TryDanceRef(s, u).Some?
    ensures var s' := TryDanceRef(s, u).value; f in s'.fbs && s'.fbs[f] == s.fbs[f]
  {
    GetElsewhere(s, s.crtcs[s.threads[u].k].fb, f);
  }

  lemma DanceUnrefLeavesAlone(s: State, u: nat, f: Addr)
    requires Inv(s) && u < |s.threads| && f in s.fbs && (forall j :: 0 <= j < |s.crtcRef| ==> s.crtcRef[j] != Some(f))
    requires TryDanceUnref(s, u).Some?
    ensures var s' := TryDanceUnref(s, u).value; f in s'.fbs && s'.fbs[f] == s.fbs[f]
  {
    DanceOf(s, u);
    PutOptElsewhere(s, s.crtcs[s.threads[u].k].oldFb, f);
  }

  lemma RemoverStepsKeepCounts(s: State, u: nat, a: Action)
    requires u < |s.threads| && Next(s, u, a).Some?
    requires a.ReleaseBegin? || a.ReleaseEnd? || a.ReadCount? || a.LockForSweep? || a.SweepCrtc?
    ensures Next(s, u, a).value.fbs == s.fbs
  {
  }

  lemma PlaneStepsKeepCounts(s: State, u: nat, a: Action)
    requires u < |s.threads| && Next(s, u, a).Some? && (a.PlaneDisable? || a.PlaneReject? || a.PlaneUpdate?)
    ensures Next(s, u, a).value.fbs == s.fbs
  {
  }

  lemma CrtcStepsKeepCounts(s: State, u: nat, a: Action)
    requires u < |s.threads| && Next(s, u, a).Some? && (a.CrtcLock? || a.CrtcReject? || a.CrtcCommit? || a.DanceEnd?)
    ensures Next(s, u, a).value.fbs == s.fbs
  {
  }

  lemma FlipStepsKeepCounts(s: State, u: nat, a: Action)
    requires u < |s.threads| && Next(s, u, a).Some? && (a.FlipLock? || a.FlipAbort? || a.FlipReject? || a.FlipCommit?)
    ensures Next(s, u, a).value.fbs == s.fbs
  {
  }

  /** No step of another thread touches an object nothing but the remover can reach. */
  lemma OthersLeaveAlone(s: State, t: nat, u: nat, a: Action, f: Addr)
    requires Inv(s) && u < |s.threads| && u != t && Next(s, u, a).Some?
    requires OutOfReach(s, t, f) && (forall j :: 0 <= j < |s.crtcRef| ==> s.crtcRef[j] != Some(f))
    ensures var s' := Next(s, u, a).value; f in s'.fbs && s'.fbs[f] == s.fbs[f]
  {
    if a.FbCreate? || a.FbListAdd? {
      CreateLeavesAlone(s, u, a, f);
    } else if a.Lookup? || a.PlaneLookup? || a.FlipLookup? {
      LookupLeavesAlone(s, u, a, f);
    } else if a.CrtcFetch? {
      FetchLeavesAlone(s, u, a.source, f);
    } else if a.Drop? || a.CrtcUnlock? {
      DropLeavesAlone(s, u, a, f);
    } else if a.FinalPut? || a.FlipUnlock? {
      FinalPutLeavesAlone(s, u, a, f);
    } else if a.SweepPlane? {
      SweepPlaneLeavesAlone(s, u, f);
    } else if a.RmFb? || a.ReleaseNext? {
      RemovalsLeaveAlone(s, t, u, a, f);
    } else if a.DanceRef? {
      DanceRefLeavesAlone(s, u, f);
    } else if a.DanceUnref? {
      DanceUnrefLeavesAlone(s, u, f);
    } else {
      RestLeavesAlone(s, u, a);
    }
  }

  lemma RestLeavesAlone(s: State, u: nat, a: Action)
    requires u < |s.threads| && Next(s, u, a).Some?
    requires !(a.FbCreate? || a.FbListAdd? || a.Lookup? || a.PlaneLookup? || a.FlipLookup? || a.CrtcFetch? || a.Drop? || a.CrtcUnlock?)
    requires !(a.FinalPut? || a.FlipUnlock? || a.SweepPlane? || a.RmFb? || a.ReleaseNext? || a.DanceRef? || a.DanceUnref?)
    ensures Next(s, u, a).value.fbs == s.fbs
  {
    if a.PlaneDisable? || a.PlaneReject? || a.PlaneUpdate? {
      PlaneStepsKeepCounts(s, u, a);
    } else if a.CrtcLock? || a.CrtcReject? || a.CrtcCommit? || a.DanceEnd? {
      CrtcStepsKeepCounts(s, u, a);
    } else if a.FlipLock? || a.FlipAbort? || a.FlipReject? || a.FlipCommit? {
      FlipStepsKeepCounts(s, u, a);
    } else {
      RemoverStepsKeepCounts(s, u, a);
    }
  }

  /**
   Once a remover reads a count of one, the object stays at one, unregistered, unlisted
   and unshown through every step of every other thread: skipping the sweep is sound.
   */
  lemma LastHolderStays(s: State, s': State, t: nat, u: nat, a: Action, f: Addr)
    requires Reachable(s) && t < |s.threads| && RemoverHolds(s.threads[t], f)
    requires f in s.fbs && s.fbs[f].refs == 1
    requires u < |s.threads| && u != t && Next(s, u, a) == Some(s')
    ensures OutOfReach(s, t, f)
    ensures t < |s'.threads| && s'.threads[t] == s.threads[t] && OutOfReach(s', t, f)
  {
    ReachableIsGood(s);
    LastHolder(s, t, f);
    OthersLeaveAlone(s, t, u, a, f);
    KeepNext(s, u, a);
    LastHolder(s', t, f);
  }
}
