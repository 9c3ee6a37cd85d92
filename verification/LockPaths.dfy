/**
 The locks each ioctl of drm_crtc.c takes, on every path through it, destruction of a
 framebuffer included; all of them keep the order.
 */
module LockPaths {
  import opened LockOrder

  // ---------- shared pieces ----------

  /** drm_mode_object_find, drm_mode_object_get and drm_mode_object_put. */
  const OBJECT: Path := [Take(IdrMutex), Drop(IdrMutex)]

  /** drm_framebuffer_lookup; drm_framebuffer_init has the same locks. */
  const FB_LOOKUP: Path := [Take(FbLock), Take(IdrMutex), Drop(IdrMutex), Drop(FbLock)]

  /** drm_framebuffer_unreference: when it was the last, ->destroy runs drm_framebuffer_cleanup. */
  function Unref(last: bool): Path { if last then [Take(FbLock), Drop(FbLock)] else [] }

  /** One thing an ioctl does that locks and unlocks, whatever else it holds of the mode-setting locks. */
  datatype Act = FindObject | LookupFb | UnrefFb(last: bool)

  function ActPath(a: Act): Path {
    match a
    case FindObject => OBJECT
    case LookupFb => FB_LOOKUP
    case UnrefFb(last) => Unref(last)
  }

  function ActPaths(acts: seq<Act>): Path {
    if acts == [] then [] else ActPaths(acts[..|acts| - 1]) + ActPath(acts[|acts| - 1])
  }

  function CrtcLocks(k: nat): Path { if k == 0 then [] else CrtcLocks(k - 1) + [Take(CrtcMutex(k - 1))] }

  /** Dropping the mutexes of CRTCs k to n - 1. */
  function CrtcUnlocks(k: nat, n: nat): Path
    requires k <= n
    decreases n - k
  {
    if k == n then [] else [Drop(CrtcMutex(k))] + CrtcUnlocks(k + 1, n)
  }

  /** drm_modeset_lock_all, what is done under it, and drm_modeset_unlock_all. */
  function UnderAll(n: nat, acts: seq<Act>): Path {
    [Take(ModeMutex)] + CrtcLocks(n) + ActPaths(acts) + CrtcUnlocks(0, n) + [Drop(ModeMutex)]
  }

  /** drm_framebuffer_remove: the sweep, unless this is the last holder, and the last unreference. */
  datatype Removal = Removal(sweeps: bool, swept: seq<Act>, last: bool)

  function RemovePath(n: nat, r: Removal): Path {
    (if r.sweeps then UnderAll(n, r.swept) else []) + Unref(r.last)
  }

  /** Under fb_lock: take the id out of the table. */
  const UNREGISTER: Path := [Take(FbLock), Take(IdrMutex), Drop(IdrMutex), Drop(FbLock)]

  function RemovePaths(n: nat, rs: seq<Removal>): Path {
    if rs == [] then [] else RemovePaths(n, rs[..|rs| - 1]) + (UNREGISTER + RemovePath(n, rs[|rs| - 1]))
  }

  /** rmfb up to drm_framebuffer_remove: look up and, if it is there, unregister, under fbs_lock and fb_lock. */
  function RmFbHead(file: nat, found: bool): Path {
    [Take(FbsLock(file))] + ([Take(FbLock)] + (OBJECT + (if found then OBJECT else [])) + [Drop(FbLock)]) + [Drop(FbsLock(file))]
  }

  // ---------- the ioctls ----------

  datatype Ioctl =
    | AddFb(file: nat, created: bool)
    | RmFb(file: nat, found: bool, removal: Removal)
    | Release(file: nat, removals: seq<Removal>)
    | GetFb(found: bool, last: bool)
    | DirtyFb(found: bool, locked: bool, last: bool)
    | SetPlane(before: seq<Act>, locked: bool, after: seq<Act>)
    | SetCrtc(acts: seq<Act>)                       // everything between the two modeset calls
    | OnCrtc(found: bool, crtc: nat, acts: seq<Act>)  // page flip and cursor: one CRTC mutex
    | GetResources(file: nat, fault: bool)
    | GetConnector(acts: seq<Act>)                  // mode_config.mutex alone
    | Query(acts: seq<Act>)                         // getcrtc, getencoder, getplane, gamma, properties

  function PathOf(n: nat, i: Ioctl): Path {
    match i
    case AddFb(file, created) => if created then FB_LOOKUP + [Take(FbsLock(file)), Drop(FbsLock(file))] else []
    case RmFb(file, found, removal) =>
      RmFbHead(file, found) + (if found then RemovePath(n, removal) else [])
    case Release(file, removals) => [Take(FbsLock(file))] + RemovePaths(n, removals) + [Drop(FbsLock(file))]
    case GetFb(found, last) => FB_LOOKUP + (if found then Unref(last) else [])
    case DirtyFb(found, locked, last) =>
      FB_LOOKUP + (if found && locked then UnderAll(n, []) else []) + (if found then Unref(last) else [])
    case SetPlane(before, locked, after) => ActPaths(before) + (if locked then UnderAll(n, []) else []) + ActPaths(after)
    case SetCrtc(acts) => UnderAll(n, acts)
    case OnCrtc(found, crtc, acts) => OBJECT + (if found then [Take(CrtcMutex(crtc))] + ActPaths(acts) + [Drop(CrtcMutex(crtc))] else [])
    case GetResources(file, fault) => [Take(FbsLock(file)), Drop(FbsLock(file))] + (if fault then [] else UnderAll(n, []))
    case GetConnector(acts) => [Take(ModeMutex)] + ActPaths(acts) + [Drop(ModeMutex)]
    case Query(acts) => UnderAll(n, acts)
  }

  predicate Sane(n: nat, i: Ioctl) { i.OnCrtc? && i.found ==> i.crtc < n }

  // ---------- the order is kept ----------

  /** Holding nothing from fb_lock up, any act goes there and back. */
  lemma ActOrdered(n: nat, held: set<Lock>, a: Act)
    requires AllBelow(n, held, FbLock)
    ensures Ordered(n, held, ActPath(a), held)
  {
    FbRound(n, held);
    IdrRound(n, held);
    LookupRound(n, held);
  }

  lemma IdrRound(n: nat, held: set<Lock>)
    requires AllBelow(n, held, IdrMutex)
    ensures Ordered(n, held, OBJECT, held)
  {
    assert held + {IdrMutex} - {IdrMutex} == held;
    assert OBJECT[1..] == [Drop(IdrMutex)] && OBJECT[1..][1..] == [];
  }

  lemma FbRound(n: nat, held: set<Lock>)
    requires AllBelow(n, held, FbLock)
    ensures Ordered(n, held, Unref(true), held)
  {
    assert held + {FbLock} - {FbLock} == held;
    assert Unref(true)[1..] == [Drop(FbLock)] && Unref(true)[1..][1..] == [];
  }

  lemma LookupRound(n: nat, held: set<Lock>)
    requires AllBelow(n, held, FbLock)
    ensures Ordered(n, held, FB_LOOKUP, held)
  {
    var withFb := held + {FbLock};
    IdrRound(n, withFb);
    Bracket(n, held, FbLock, OBJECT);
    assert [Take(FbLock)] + OBJECT + [Drop(FbLock)] == FB_LOOKUP;
  }

  /** A path that goes there and back under one more lock, between taking and dropping it. */
  lemma Bracket(n: nat, held: set<Lock>, l: Lock, path: Path)
    requires Known(n, l) && AllBelow(n, held, l) && Ordered(n, held + {l}, path, held + {l})
    ensures Ordered(n, held, [Take(l)] + path + [Drop(l)], held)
  {
    assert [Take(l)][1..] == [] && [Drop(l)][1..] == [];
    assert held + {l} - {l} == held;
    OrderedAppend(n, held, [Take(l)], held + {l}, path, held + {l});
    OrderedAppend(n, held, [Take(l)] + path, held + {l}, [Drop(l)], held);
  }

  lemma {:induction false} ActsOrdered(n: nat, held: set<Lock>, acts: seq<Act>)
    requires AllBelow(n, held, FbLock)
    ensures Ordered(n, held, ActPaths(acts), held)
  {
    if acts != [] {
      ActsOrdered(n, held, acts[..|acts| - 1]);
      ActOrdered(n, held, acts[|acts| - 1]);
      OrderedAppend(n, held, ActPaths(acts[..|acts| - 1]), held, ActPath(acts[|acts| - 1]), held);
    }
  }

  function CrtcSet(k: nat, n: nat): set<Lock> { set c | k <= c < n :: CrtcMutex(c) }

  lemma {:induction false} CrtcLocksOrdered(n: nat, held: set<Lock>, k: nat)
    requires k <= n && forall h :: h in held ==> h.FbsLock? || h.ModeMutex?
    ensures Ordered(n, held, CrtcLocks(k), held + CrtcSet(0, k))
  {
    if k > 0 {
      CrtcLocksOrdered(n, held, k - 1);
      var mid, l := held + CrtcSet(0, k - 1), CrtcMutex(k - 1);
      assert mid + {l} == held + CrtcSet(0, k);
      assert [Take(l)][1..] == [];
      assert Ordered(n, mid, [Take(l)], mid + {l});
      OrderedAppend(n, held, CrtcLocks(k - 1), mid, [Take(l)], mid + {l});
    } else {
      assert held + CrtcSet(0, 0) == held;
    }
  }

  lemma {:induction false} CrtcUnlocksOrdered(n: nat, held: set<Lock>, k: nat)
    requires k <= n && forall h :: h in held ==> !h.CrtcMutex?
    ensures Ordered(n, held + CrtcSet(k, n), CrtcUnlocks(k, n), held)
    decreases n - k
  {
    if k < n {
      CrtcUnlocksOrdered(n, held, k + 1);
      var l := CrtcMutex(k);
      assert held + CrtcSet(k, n) - {l} == held + CrtcSet(k + 1, n);
      assert CrtcUnlocks(k, n)[1..] == CrtcUnlocks(k + 1, n);
    } else {
      assert held + CrtcSet(n, n) == held;
    }
  }

  lemma UnderAllOrdered(n: nat, held: set<Lock>, acts: seq<Act>)
    requires forall h :: h in held ==> h.FbsLock?
    ensures Ordered(n, held, UnderAll(n, acts), held)
  {
    var mode := held + {ModeMutex};
    var all := mode + CrtcSet(0, n);
    CrtcLocksOrdered(n, mode, n);
    ActsOrdered(n, all, acts);
    CrtcUnlocksOrdered(n, mode, 0);
    OrderedAppend(n, mode, CrtcLocks(n), all, ActPaths(acts), all);
    OrderedAppend(n, mode, CrtcLocks(n) + ActPaths(acts), all, CrtcUnlocks(0, n), mode);
    Bracket(n, held, ModeMutex, CrtcLocks(n) + ActPaths(acts) + CrtcUnlocks(0, n));
    assert [Take(ModeMutex)] + (CrtcLocks(n) + ActPaths(acts) + CrtcUnlocks(0, n)) + [Drop(ModeMutex)] == UnderAll(n, acts);
  }

  /** What is done under drm_modeset_lock_all is done with mode_config.mutex and every CRTC's mutex held. */
  lemma UnderAllHolds(n: nat, acts: seq<Act>) returns (k: nat, held: set<Lock>)
    ensures k + |ActPaths(acts)| <= |UnderAll(n, acts)| && UnderAll(n, acts)[k..k + |ActPaths(acts)|] == ActPaths(acts)
    ensures Ordered(n, {}, UnderAll(n, acts)[..k], held)
    ensures ModeMutex in held && forall c: nat :: c < n ==> CrtcMutex(c) in held
  {
    var before := [Take(ModeMutex)] + CrtcLocks(n);
    k, held := |before|, {} + {ModeMutex} + CrtcSet(0, n);
    CrtcLocksOrdered(n, {} + {ModeMutex}, n);
    assert [Take(ModeMutex)][1..] == [];
    assert Ordered(n, {}, [Take(ModeMutex)], {} + {ModeMutex});
    OrderedAppend(n, {}, [Take(ModeMutex)], {} + {ModeMutex}, CrtcLocks(n), held);
    assert UnderAll(n, acts)[..k] == before;
  }

  lemma UnrefOrdered(n: nat, held: set<Lock>, last: bool)
    requires AllBelow(n, held, FbLock)
    ensures Ordered(n, held, Unref(last), held)
  {
    if last { FbRound(n, held); }
  }

  lemma RemoveOrdered(n: nat, held: set<Lock>, r: Removal)
    requires forall h :: h in held ==> h.FbsLock?
    ensures Ordered(n, held, RemovePath(n, r), held)
  {
    UnrefOrdered(n, held, r.last);
    if r.sweeps {
      UnderAllOrdered(n, held, r.swept);
      OrderedAppend(n, held, UnderAll(n, r.swept), held, Unref(r.last), held);
    } else {
      assert [] + Unref(r.last) == Unref(r.last);
    }
  }

  lemma {:induction false} RemovesOrdered(n: nat, held: set<Lock>, rs: seq<Removal>)
    requires forall h :: h in held ==> h.FbsLock?
    ensures Ordered(n, held, RemovePaths(n, rs), held)
  {
    if rs != [] {
      var front, r := rs[..|rs| - 1], rs[|rs| - 1];
      RemovesOrdered(n, held, front);
      LookupRound(n, held);
      RemoveOrdered(n, held, r);
      OrderedAppend(n, held, UNREGISTER, held, RemovePath(n, r), held);
      OrderedAppend(n, held, RemovePaths(n, front), held, UNREGISTER + RemovePath(n, r), held);
    }
  }

  /** Two paths that each go there and back. */
  lemma Both(n: nat, a: Path, b: Path)
    requires Ordered(n, {}, a, {}) && Ordered(n, {}, b, {})
    ensures Ordered(n, {}, a + b, {})
  {
    OrderedAppend(n, {}, a, {}, b, {});
  }

  lemma Lone(n: nat, l: Lock)
    requires Known(n, l)
    ensures Ordered(n, {}, [Take(l), Drop(l)], {})
  {
    Bracket(n, {}, l, []);
    assert [Take(l)] + [] + [Drop(l)] == [Take(l), Drop(l)];
  }

  lemma RmFbHeadOrdered(n: nat, file: nat, found: bool)
    ensures Ordered(n, {}, RmFbHead(file, found), {})
  {
    var held := {} + {FbsLock(file)};
    IdrRound(n, held + {FbLock});
    if found {
      OrderedAppend(n, held + {FbLock}, OBJECT, held + {FbLock}, OBJECT, held + {FbLock});
    } else {
      assert OBJECT + [] == OBJECT;
    }
    Bracket(n, held, FbLock, OBJECT + (if found then OBJECT else []));
    Bracket(n, {}, FbsLock(file), [Take(FbLock)] + (OBJECT + (if found then OBJECT else [])) + [Drop(FbLock)]);
  }

  lemma RmFbOrdered(n: nat, file: nat, found: bool, removal: Removal)
    ensures Ordered(n, {}, PathOf(n, RmFb(file, found, removal)), {})
  {
    RmFbHeadOrdered(n, file, found);
    RemoveOrdered(n, {}, removal);
    Both(n, RmFbHead(file, found), if found then RemovePath(n, removal) else []);
  }

  lemma OnCrtcOrdered(n: nat, found: bool, crtc: nat, acts: seq<Act>)
    requires found ==> crtc < n
    ensures Ordered(n, {}, PathOf(n, OnCrtc(found, crtc, acts)), {})
  {
    IdrRound(n, {});
    if found {
      ActsOrdered(n, {} + {CrtcMutex(crtc)}, acts);
      Bracket(n, {}, CrtcMutex(crtc), ActPaths(acts));
      Both(n, OBJECT, [Take(CrtcMutex(crtc))] + ActPaths(acts) + [Drop(CrtcMutex(crtc))]);
    } else {
      assert OBJECT + [] == OBJECT;
    }
  }

  lemma FbIoctlsOrdered(n: nat, i: Ioctl)
    requires i.AddFb? || i.GetFb? || i.DirtyFb?
    ensures Ordered(n, {}, PathOf(n, i), {})
  {
    LookupRound(n, {});
    match i
    case AddFb(file, created) =>
      Lone(n, FbsLock(file));
      Both(n, FB_LOOKUP, [Take(FbsLock(file)), Drop(FbsLock(file))]);
    case GetFb(found, last) =>
      UnrefOrdered(n, {}, last);
      Both(n, FB_LOOKUP, if found then Unref(last) else []);
    case DirtyFb(found, locked, last) =>
      UnrefOrdered(n, {}, last);
      UnderAllOrdered(n, {}, []);
      Both(n, FB_LOOKUP, if found && locked then UnderAll(n, []) else []);
      Both(n, FB_LOOKUP + (if found && locked then UnderAll(n, []) else []), if found then Unref(last) else []);
  }

  /** Every path of every ioctl keeps the order, and gives back all it takes. */
  lemma IoctlOrdered(n: nat, i: Ioctl)
    requires Sane(n, i)
    ensures Ordered(n, {}, PathOf(n, i), {})
  {
    match i
    case RmFb(file, found, removal) => RmFbOrdered(n, file, found, removal);
    case OnCrtc(found, crtc, acts) => OnCrtcOrdered(n, found, crtc, acts);
    case Release(file, removals) =>
      RemovesOrdered(n, {} + {FbsLock(file)}, removals);
      Bracket(n, {}, FbsLock(file), RemovePaths(n, removals));
    case SetPlane(before, locked, after) =>
      var middle := if locked then UnderAll(n, []) else [];
      ActsOrdered(n, {}, before);
      ActsOrdered(n, {}, after);
      UnderAllOrdered(n, {}, []);
      Both(n, ActPaths(before), middle);
      Both(n, ActPaths(before) + middle, ActPaths(after));
    case SetCrtc(acts) => UnderAllOrdered(n, {}, acts);
    case GetResources(file, fault) =>
      Lone(n, FbsLock(file));
      UnderAllOrdered(n, {}, []);
      Both(n, [Take(FbsLock(file)), Drop(FbsLock(file))], if fault then [] else UnderAll(n, []));
    case GetConnector(acts) =>
      ActsOrdered(n, {} + {ModeMutex}, acts);
      Bracket(n, {}, ModeMutex, ActPaths(acts));
    case Query(acts) => UnderAllOrdered(n, {}, acts);
    case AddFb(_, _) => FbIoctlsOrdered(n, i);
    case GetFb(_, _) => FbIoctlsOrdered(n, i);
    case DirtyFb(_, _, _) => FbIoctlsOrdered(n, i);
  }

  // ---------- threads that run ioctls ----------

  function Program(n: nat, todo: seq<Ioctl>): Path {
    if todo == [] then [] else PathOf(n, todo[0]) + Program(n, todo[1..])
  }

  lemma {:induction false} ProgramOrdered(n: nat, todo: seq<Ioctl>)
    requires forall i :: i in todo ==> Sane(n, i)
    ensures Ordered(n, {}, Program(n, todo), {})
  {
    if todo != [] {
      IoctlOrdered(n, todo[0]);
      ProgramOrdered(n, todo[1..]);
      Both(n, PathOf(n, todo[0]), Program(n, todo[1..]));
    }
  }

  ghost predicate StartsWith(n: nat, s: State, programs: seq<seq<Ioctl>>) {
    |s| == |programs| && forall t :: 0 <= t < |s| ==> s[t] == Thread({}, Program(n, programs[t]))
  }

  /**
   Whatever ioctls any number of threads run, in whatever interleaving: no lock is held twice,
   no ring of threads waits in a circle, and while one of them has not finished one can go on.
   */
  lemma NoDeadlock(n: nat, programs: seq<seq<Ioctl>>, run: seq<State>, i: nat)
    requires forall t, x :: 0 <= t < |programs| && x in programs[t] ==> Sane(n, x)
    requires |run| > 0 && StartsWith(n, run[0], programs) && (forall k :: 0 <= k < |run| - 1 ==> StepAt(run, k)) && i < |run|
    ensures forall t, u :: 0 <= t < |run[i]| && 0 <= u < |run[i]| && t != u ==> run[i][t].held !! run[i][u].held
    ensures forall ts :: Chain(run[i], ts) ==> ts[0] != ts[|ts| - 1]
    ensures (exists t :: 0 <= t < |run[i]| && run[i][t].rest != []) ==> exists u :: 0 <= u < |run[i]| && CanStep(run[i], u)
  {
    forall t | 0 <= t < |run[0]| ensures run[0][t].held == {} && Ordered(n, {}, run[0][t].rest, {}) {
      ProgramOrdered(n, programs[t]);
    }
    assert IsRun(n, run);
    RunKeeps(n, run, i);
    forall ts | Chain(run[i], ts) ensures ts[0] != ts[|ts| - 1] { NoCircularWait(n, run, i, ts); }
    if t :| 0 <= t < |run[i]| && run[i][t].rest != [] { DeadlockFree(n, run, i, t); }
  }
}
