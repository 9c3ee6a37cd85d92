/** Every step of the framebuffer machine keeps the invariant. */
module FbPreservation {
  import opened Options
  import opened FbMachine
  import opened FbInvariant

  // ---------- steps that touch only counts and one program counter ----------

  /** `s'` differs from `s` in reference counts, in unregistered objects that went away, and in thread `t`. */
  predicate QuietStep(s: State, s': State, t: nat, pc: Pc) {
    && t < |s.threads|
    && s' == s.(fbs := s'.fbs, threads := s.threads[t := pc])
    && (forall g :: g in s'.fbs ==> g in s.fbs && s'.fbs[g] == s.fbs[g].(refs := s'.fbs[g].refs))
    && (forall g :: g in s.fbs && g !in s'.fbs ==> s.fbs[g].id == 0)
  }

  predicate FitsIn(threads: seq<Pc>, t: nat, pc: Pc) {
    forall u :: 0 <= u < |threads| && u != t ==> Compatible(pc, threads[u]) && Compatible(threads[u], pc)
  }

  lemma HeldIsLive(s: State, u: nat, g: Addr)
    requires Accounted(s, g) && u < |s.threads| && g in Held(s.threads[u])
    ensures g in s.fbs
  {
    HeldUpdate(s.threads, u, Idle, g);
  }

  lemma QuietKeepsThread(s: State, s': State, t: nat, pc: Pc, u: nat)
    requires Inv(s) && QuietStep(s, s', t, pc) && u < |s.threads| && u != t
    requires forall g: Addr :: Accounted(s', g)
    ensures ThreadOk(s', s.threads[u])
  {
    assert s'.threads[u] == s.threads[u];
    if s.threads[u].Created? {
      HeldIsLive(s', u, s.threads[u].fb);
    }
  }

  lemma KeepQuiet(s: State, s': State, t: nat, pc: Pc)
    requires Inv(s) && QuietStep(s, s', t, pc)
    requires forall g: Addr :: Accounted(s', g)
    requires ThreadOk(s', pc) && FitsIn(s.threads, t, pc)
    requires s.threads[t].Dance? && !pc.Dance? ==> Settled(s')
    ensures Inv(s')
  {
    forall u | 0 <= u < |s'.threads| ensures ThreadOk(s', s'.threads[u]) {
      if u != t { QuietKeepsThread(s, s', t, pc, u); }
    }
    if Dancing(s.threads) && !Settled(s') {
      var u :| 0 <= u < |s.threads| && s.threads[u].Dance?;
      assert s'.threads[u].Dance?;
    }
    assert ViewportsOk(s');
  }

  lemma AccountMove(s: State, t: nat, pc: Pc, s': State, f: Addr, delta: int)
    requires Accounted(s, f) && t < |s.threads|
    requires s' == s.(fbs := s'.fbs, threads := s.threads[t := pc])
    requires Held(pc)[f] as int == Held(s.threads[t])[f] as int + delta
    requires f in s.fbs
    requires f in s'.fbs ==> s'.fbs[f] == s.fbs[f].(refs := s'.fbs[f].refs) && s'.fbs[f].refs == s.fbs[f].refs + delta > 0
    requires f !in s'.fbs ==> s.fbs[f].refs + delta == 0
    ensures Accounted(s', f)
    ensures f !in s'.fbs ==> s.fbs[f].id == 0
  {
    HeldUpdate(s.threads, t, pc, f);
  }

  lemma AccountOther(s: State, t: nat, pc: Pc, s': State, g: Addr)
    requires Accounted(s, g) && t < |s.threads|
    requires s' == s.(fbs := s'.fbs, threads := s.threads[t := pc])
    requires Held(pc)[g] == Held(s.threads[t])[g]
    requires g in s'.fbs <==> g in s.fbs
    requires g in s.fbs ==> s'.fbs[g] == s.fbs[g]
    ensures Accounted(s', g)
  {
    HeldUpdate(s.threads, t, pc, g);
  }

  lemma GetMove(s: State, t: nat, f: Addr, pc: Pc)
    requires !s.bug && (forall g: Addr :: Accounted(s, g)) && t < |s.threads| && f in s.fbs
    requires Held(pc) == Held(s.threads[t]) + multiset{f}
    ensures QuietStep(s, WithPc(Get(s, f), t, pc), t, pc)
    ensures forall g: Addr :: Accounted(WithPc(Get(s, f), t, pc), g)
  {
    var s' := WithPc(Get(s, f), t, pc);
    forall g: Addr ensures Accounted(s', g) {
      assert Accounted(s, g);
      if g == f { AccountMove(s, t, pc, s', f, 1); } else { AccountOther(s, t, pc, s', g); }
    }
  }

  lemma PutMove(s: State, t: nat, f: Addr, pc: Pc)
    requires !s.bug && (forall g: Addr :: Accounted(s, g)) && t < |s.threads|
    requires Held(s.threads[t]) == Held(pc) + multiset{f}
    ensures QuietStep(s, WithPc(Put(s, f), t, pc), t, pc)
    ensures forall g: Addr :: Accounted(WithPc(Put(s, f), t, pc), g)
  {
    assert Accounted(s, f);
    HeldIsLive(s, t, f);
    LastIsHidden(s, t, f);
    forall g: Addr ensures Accounted(WithPc(Put(s, f), t, pc), g) { PutAccounts(s, t, f, pc, g); }
  }

  /** An object whose one reference a thread holds has no id any more. */
  lemma LastIsHidden(s: State, t: nat, f: Addr)
    requires Accounted(s, f) && t < |s.threads| && f in Held(s.threads[t]) && f in s.fbs
    ensures s.fbs[f].refs == 1 ==> s.fbs[f].id == 0
  {
    HeldUpdate(s.threads, t, Idle, f);
  }

  lemma PutAccounts(s: State, t: nat, f: Addr, pc: Pc, g: Addr)
    requires t < |s.threads| && Held(s.threads[t]) == Held(pc) + multiset{f} && f in s.fbs
    requires forall g: Addr :: Accounted(s, g)
    ensures Accounted(WithPc(Put(s, f), t, pc), g)
  {
    var s' := WithPc(Put(s, f), t, pc);
    assert Accounted(s, f) && Accounted(s, g);
    if g == f { AccountMove(s, t, pc, s', f, -1); } else { AccountOther(s, t, pc, s', g); }
  }

  lemma IdleMove(s: State, t: nat, pc: Pc)
    requires (forall g: Addr :: Accounted(s, g)) && t < |s.threads| && Held(pc) == Held(s.threads[t])
    ensures QuietStep(s, WithPc(s, t, pc), t, pc)
    ensures forall g: Addr :: Accounted(WithPc(s, t, pc), g)
  {
    forall g: Addr ensures Accounted(WithPc(s, t, pc), g) {
      assert Accounted(s, g);
      AccountOther(s, t, pc, WithPc(s, t, pc), g);
    }
  }

  /** A thread that gives up locks, or keeps the ones it has, stays compatible with the others. */
  lemma StillFits(s: State, t: nat, pc: Pc)
    requires Inv(s) && t < |s.threads| && !pc.Created?
    requires HoldsAll(pc) ==> HoldsAll(s.threads[t])
    requires HeldCrtc(pc).Some? ==> HeldCrtc(pc) == HeldCrtc(s.threads[t])
    ensures FitsIn(s.threads, t, pc)
  {
    forall u | 0 <= u < |s.threads| && u != t ensures Compatible(pc, s.threads[u]) && Compatible(s.threads[u], pc) {
      assert Compatible(s.threads[t], s.threads[u]) && Compatible(s.threads[u], s.threads[t]);
    }
  }

  /** One quiet step that moves no reference and takes no lock. */
  lemma KeepIdleMove(s: State, t: nat, pc: Pc)
    requires Inv(s) && t < |s.threads| && Held(pc) == Held(s.threads[t]) && !pc.Created?
    requires ThreadOk(s, pc) && !pc.Dance? && (s.threads[t].Dance? ==> Settled(s))
    requires FitsIn(s.threads, t, pc) || ((HoldsAll(pc) ==> HoldsAll(s.threads[t])) && (HeldCrtc(pc).Some? ==> HeldCrtc(pc) == HeldCrtc(s.threads[t])))
    ensures Inv(WithPc(s, t, pc))
  {
    IdleMove(s, t, pc);
    if !FitsIn(s.threads, t, pc) { StillFits(s, t, pc); }
    KeepQuiet(s, WithPc(s, t, pc), t, pc);
  }

  lemma KeepGetMove(s: State, t: nat, f: Addr, pc: Pc)
    requires Inv(s) && t < |s.threads| && f in s.fbs
    requires Held(pc) == Held(s.threads[t]) + multiset{f} && !pc.Created?
    requires HoldsAll(pc) ==> HoldsAll(s.threads[t])
    requires HeldCrtc(pc).Some? ==> HeldCrtc(pc) == HeldCrtc(s.threads[t])
    requires ThreadOk(WithPc(Get(s, f), t, pc), pc) && (s.threads[t].Dance? ==> pc.Dance?)
    ensures Inv(WithPc(Get(s, f), t, pc))
  {
    GetMove(s, t, f, pc);
    StillFits(s, t, pc);
    KeepQuiet(s, WithPc(Get(s, f), t, pc), t, pc);
  }

  lemma KeepPutMove(s: State, t: nat, f: Addr, pc: Pc)
    requires Inv(s) && t < |s.threads| && !s.threads[t].Dance?
    requires Held(s.threads[t]) == Held(pc) + multiset{f} && !pc.Created?
    requires HoldsAll(pc) ==> HoldsAll(s.threads[t])
    requires HeldCrtc(pc).Some? ==> HeldCrtc(pc) == HeldCrtc(s.threads[t])
    requires ThreadOk(WithPc(Put(s, f), t, pc), pc)
    ensures Inv(WithPc(Put(s, f), t, pc))
  {
    PutMove(s, t, f, pc);
    StillFits(s, t, pc);
    KeepQuiet(s, WithPc(Put(s, f), t, pc), t, pc);
  }

  lemma SlotSwap(xs: seq<Option<Addr>>, p: nat, v: Option<Addr>, g: Addr)
    requires p < |xs|
    ensures multiset(xs[p := v])[Some(g)] + Opt(xs[p])[g] == multiset(xs)[Some(g)] + Opt(v)[g]
  {
    assert xs[p] in multiset(xs);
    assert multiset(xs[p := v]) == multiset(xs) - multiset{xs[p]} + multiset{v};
  }

  lemma LocksStay(threads: seq<Pc>, t: nat, pc: Pc)
    requires LocksOk(threads) && t < |threads| && FitsIn(threads, t, pc)
    ensures LocksOk(threads[t := pc])
  {
    var after := threads[t := pc];
    forall a, b | 0 <= a < |after| && 0 <= b < |after| && a != b ensures Compatible(after[a], after[b]) {
      assert a != t && b != t ==> Compatible(threads[a], threads[b]);
    }
  }

  lemma Assemble(s: State, s': State, t: nat, pc: Pc)
    requires LocksOk(s.threads) && t < |s.threads| && s'.threads == s.threads[t := pc] && FitsIn(s.threads, t, pc)
    requires !s'.bug && |s'.crtcRef| == |s'.crtcs|
    requires forall g: Addr :: Accounted(s', g)
    requires TableOk(s') && ListsOk(s') && ViewportsOk(s')
    requires ThreadOk(s', pc)
    requires forall u :: 0 <= u < |s.threads| && u != t ==> ThreadOk(s', s.threads[u])
    requires Dancing(s'.threads) || Settled(s')
    ensures Inv(s')
  {
    LocksStay(s.threads, t, pc);
  }

  lemma DancingStays(s: State, s': State, t: nat)
    requires t < |s.threads| == |s'.threads| && !s.threads[t].Dance?
    requires forall u :: 0 <= u < |s.threads| && u != t ==> s'.threads[u] == s.threads[u]
    ensures Dancing(s.threads) ==> Dancing(s'.threads)
  {
    if Dancing(s.threads) {
      var u :| 0 <= u < |s.threads| && s.threads[u].Dance?;
      assert s'.threads[u].Dance?;
    }
  }

  lemma NotDancingWhileFree(s: State)
    requires Inv(s) && CanLockAll(s)
    ensures !Dancing(s.threads) && Settled(s)
  {
  }
}
