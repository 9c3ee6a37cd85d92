/**
 The inductive invariant of the framebuffer machine: exact reference counts, a
 consistent id table, mutual exclusion, the progress of the reference dance, and the
 viewport rule.
 */
module FbInvariant {
  import opened Options
  import opened CValues
  import opened FbMachine

  // ---------- counting ----------

  lemma {:induction false} CountUpdate(ts: seq<Pc>, t: nat, pc: Pc, h: Pc -> nat)
    requires t < |ts|
    ensures CountWith(ts[t := pc], h) == CountWith(ts, h) - h(ts[t]) + h(pc)
    ensures CountWith(ts, h) >= h(ts[t])
  {
    var n := |ts| - 1;
    if t == n {
      assert ts[t := pc][..n] == ts[..n];
    } else {
      CountUpdate(ts[..n], t, pc, h);
      assert ts[t := pc][..n] == ts[..n][t := pc];
    }
  }

  lemma HeldUpdate(ts: seq<Pc>, t: nat, pc: Pc, f: Addr)
    requires t < |ts|
    ensures HeldCount(ts[t := pc], f) == HeldCount(ts, f) - Held(ts[t])[f] + Held(pc)[f]
    ensures HeldCount(ts, f) >= Held(ts[t])[f]
  {
    CountUpdate(ts, t, pc, HeldOf(f));
  }

  lemma HeldPair(ts: seq<Pc>, t: nat, u: nat, f: Addr)
    requires t < |ts| && u < |ts| && t != u
    ensures HeldCount(ts, f) >= Held(ts[t])[f] + Held(ts[u])[f]
  {
    HeldUpdate(ts, t, Idle, f);
    HeldUpdate(ts[t := Idle], u, Idle, f);
  }

  /** Every reference to `f` there is: the table's, the list's, the CRTCs', the planes', the running ioctls'. */
  function Total(s: State, f: Addr): nat {
    Bit(f in s.fbs && s.fbs[f].id != 0) + Bit(f in s.onList)
    + multiset(s.crtcRef)[Some(f)] + multiset(s.planes)[Some(f)] + HeldCount(s.threads, f)
  }

  predicate Accounted(s: State, f: Addr) {
    if f in s.fbs then s.fbs[f].refs == Total(s, f) > 0 else Total(s, f) == 0
  }

  // ---------- the invariant ----------

  predicate TableOk(s: State) {
    && (forall i :: i in s.idr ==> i != 0 && s.idr[i] in s.fbs && s.fbs[s.idr[i]].id == i)
    && (forall f :: f in s.fbs && s.fbs[f].id != 0 ==> s.fbs[f].id in s.idr && s.idr[s.fbs[f].id] == f)
  }

  predicate ListsOk(s: State) {
    forall f :: f in s.onList ==> f in s.fbs && s.fbs[f].id != 0
  }

  predicate Compatible(p: Pc, q: Pc) {
    && !(HoldsAll(p) && HoldsAll(q))
    && !(HoldsAll(p) && HeldCrtc(q).Some?)
    && !(HeldCrtc(p).Some? && HeldCrtc(p) == HeldCrtc(q))
    && !(p.Created? && q.Created? && p.fb == q.fb)
  }

  predicate LocksOk(threads: seq<Pc>) {
    forall t, u :: 0 <= t < |threads| && 0 <= u < |threads| && t != u ==> Compatible(threads[t], threads[u])
  }

  predicate Hidden(s: State, f: Addr) { f in s.fbs ==> s.fbs[f].id == 0 }

  predicate NotShownBelow(s: State, f: Addr, n: nat) {
    forall j :: 0 <= j < n && j < |s.crtcs| ==> s.crtcs[j].fb != Some(f)
  }

  predicate PlaneNotShownBelow(s: State, f: Addr, n: nat) {
    forall j :: 0 <= j < n && j < |s.planes| ==> s.planes[j] != Some(f)
  }

  /** How far the dance has got: below k a CRTC's reference is to its fb, from k on to its old_fb. */
  predicate DanceOk(s: State, k: nat, taken: Option<Addr>, half: bool, call: Call) {
    && k <= |s.crtcs| == |s.crtcRef| && call.target < |s.crtcs|
    && taken == (if half && k < |s.crtcs| then s.crtcs[k].fb else None)
    && (half ==> k < |s.crtcs|)
    && (forall j :: 0 <= j < k ==> s.crtcRef[j] == s.crtcs[j].fb)
    && (forall j :: k <= j < |s.crtcs| ==>
          && s.crtcRef[j] == s.crtcs[j].oldFb
          && (s.crtcs[j].fb == None || s.crtcs[j].fb == s.crtcs[j].oldFb || (j == call.target && s.crtcs[j].fb == call.fb)))
    && (call.from.FromSweep? ==>
          && call.fb == None
          && Hidden(s, call.from.gone)
          && (call.from.ok ==> NotShownBelow(s, call.from.gone, call.target + 1)))
  }

  predicate ThreadOk(s: State, pc: Pc) {
    match pc
    case Created(fb, _) => fb in s.fbs && s.fbs[fb].id != 0 && fb !in s.onList
    case Removing(fb, _) => Hidden(s, fb)
    case AwaitLocks(fb, _) => Hidden(s, fb)
    case SweepCrtcs(fb, _, i, ok) => Hidden(s, fb) && i <= |s.crtcs| && (ok ==> NotShownBelow(s, fb, i))
    case SweepPlanes(fb, _, i, ok) =>
      Hidden(s, fb) && i <= |s.planes| && (ok ==> NotShownBelow(s, fb, |s.crtcs|)) && PlaneNotShownBelow(s, fb, i)
    case LastPut(fb, _) => Hidden(s, fb)
    case CrtcLocked(c) => c < |s.crtcs|
    case CrtcHas(c, _) => c < |s.crtcs|
    case Dance(k, taken, half, call) => DanceOk(s, k, taken, half, call)
    case FlipLocked(c) => c < |s.crtcs|
    case FlipHas(c, _) => c < |s.crtcs| && s.crtcs[c].fb.Some?
    case _ => true
  }

  predicate Dancing(threads: seq<Pc>) {
    exists t :: 0 <= t < |threads| && threads[t].Dance?
  }

  predicate Settled(s: State) {
    |s.crtcRef| == |s.crtcs| && forall j :: 0 <= j < |s.crtcs| ==> s.crtcRef[j] == s.crtcs[j].fb
  }

  predicate FitsCrtc(crtc: Crtc, geo: Geometry) {
    Fits(crtc.x, crtc.y, crtc.mode, crtc.invert, geo)
  }

  /** A CRTC that shows a live fb has its viewport inside it. */
  predicate ViewportsOk(s: State) {
    forall j :: 0 <= j < |s.crtcs| && s.crtcs[j].fb.Some? && s.crtcs[j].fb.value in s.fbs ==>
      FitsCrtc(s.crtcs[j], s.fbs[s.crtcs[j].fb.value].geo)
  }

  ghost predicate Inv(s: State) {
    && !s.bug
    && |s.crtcRef| == |s.crtcs|
    && (forall f: Addr :: Accounted(s, f))
    && TableOk(s)
    && ListsOk(s)
    && LocksOk(s.threads)
    && (forall t :: 0 <= t < |s.threads| ==> ThreadOk(s, s.threads[t]))
    && (Dancing(s.threads) || Settled(s))
    && ViewportsOk(s)
  }
}
