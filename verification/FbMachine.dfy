/**
 Framebuffer lifetime in drm_crtc.c as a step machine.

 Any number of threads run the framebuffer and mode-setting ioctls.  A step is one
 locked section, or one atomic operation on a reference count.  A thread's program
 counter says where it stands inside an ioctl, and hence which locks it holds and
 which references it still has to give back.
 */
module FbMachine {
  import opened Options
  import opened CValues

  type Addr = nat  // the address of a framebuffer object
  type File = nat

  datatype Geometry = Geometry(width: nat, height: nat, format: nat)

  /** `id` is base.id: non-zero while the object is registered in the id table. */
  datatype Fb = Fb(refs: nat, id: nat, geo: Geometry)

  datatype Mode = Mode(hdisplay: nat, vdisplay: nat)

  /** `oldFb` is the scratch field that drm_mode_set_config_internal saves `fb` in. */
  datatype Crtc = Crtc(fb: Option<Addr>, oldFb: Option<Addr>, x: nat, y: nat, mode: Mode, invert: bool)

  /** Where the reference dance of drm_mode_set_config_internal returns to. */
  datatype Caller =
    | FromSetCrtc
    | FromSweep(gone: Addr, rel: Option<File>, ok: bool)

  /** One call of drm_mode_set_config_internal: the CRTC, set->fb, and whether ->set_config returned 0. */
  datatype Call = Call(target: nat, fb: Option<Addr>, success: bool, from: Caller)

  /** `rel` is the file being released, or None for rmfb. */
  datatype Pc =
    | Idle
    | Created(fb: Addr, file: File)                         // addfb, before list_add
    | Dropping(drop: Option<Addr>)                          // about to unreference, no modeset lock held
    | PlaneLooked(plane: nat, fb: Addr)                     // setplane, fb looked up
    | Releasing(file: File)                                 // head of the loop in drm_fb_release
    | Removing(fb: Addr, rel: Option<File>)                 // entry of drm_framebuffer_remove
    | AwaitLocks(fb: Addr, rel: Option<File>)               // saw a count above 1
    | SweepCrtcs(fb: Addr, rel: Option<File>, i: nat, ok: bool)
    | SweepPlanes(fb: Addr, rel: Option<File>, i: nat, ok: bool)
    | LastPut(fb: Addr, rel: Option<File>)                  // final drm_framebuffer_unreference
    | CrtcLocked(crtc: nat)                                 // setcrtc, all modeset locks held
    | CrtcHas(crtc: nat, has: Option<Addr>)                 // setcrtc, fb referenced
    | CrtcDrop(drop: Option<Addr>)                          // setcrtc, label out
    | Dance(k: nat, taken: Option<Addr>, half: bool, call: Call)
    | FlipLocked(crtc: nat)                                 // page flip, one CRTC mutex held
    | FlipHas(crtc: nat, fb: Addr)
    | FlipDrop(crtc: nat, fb: Addr)

  /**
   `fbs` are the live objects, `idr` the id table, `onList` the intrusive filp_head
   links (which file's list an object is on).  `crtcRef` is ghost bookkeeping: the
   object each CRTC currently holds a reference to, which trails `crtcs[j].fb` while
   a dance is running.  `bug` records a BUG(), or any use of a destroyed object.
   */
  datatype State = State(
    fbs: map<Addr, Fb>,
    idr: map<nat, Addr>,
    onList: map<Addr, File>,
    crtcs: seq<Crtc>,
    planes: seq<Option<Addr>>,
    threads: seq<Pc>,
    crtcRef: seq<Option<Addr>>,
    bug: bool)

  // ---------- locks, read off the program counters ----------

  /** drm_modeset_lock_all: mode_config.mutex and every CRTC mutex. */
  predicate HoldsAll(pc: Pc) {
    pc.SweepCrtcs? || pc.SweepPlanes? || pc.CrtcLocked? || pc.CrtcHas? || pc.CrtcDrop? || pc.Dance?
  }

  /** The single CRTC mutex a page flip holds. */
  function HeldCrtc(pc: Pc): Option<nat> {
    if pc.FlipLocked? || pc.FlipHas? || pc.FlipDrop? then Some(pc.crtc) else None
  }

  /** file->fbs_lock, held by drm_fb_release across its whole loop. */
  function HeldFile(pc: Pc): Option<File> {
    match pc
    case Releasing(file) => Some(file)
    case Removing(_, rel) => rel
    case AwaitLocks(_, rel) => rel
    case SweepCrtcs(_, rel, _, _) => rel
    case SweepPlanes(_, rel, _, _) => rel
    case LastPut(_, rel) => rel
    case Dance(_, _, _, call) => if call.from.FromSweep? then call.from.rel else None
    case _ => None
  }

  predicate CanLockAll(s: State) {
    forall u :: 0 <= u < |s.threads| ==> !HoldsAll(s.threads[u]) && HeldCrtc(s.threads[u]) == None
  }

  predicate CanLockCrtc(s: State, c: nat) {
    forall u :: 0 <= u < |s.threads| ==> !HoldsAll(s.threads[u]) && HeldCrtc(s.threads[u]) != Some(c)
  }

  predicate CanLockFile(s: State, file: File) {
    forall u :: 0 <= u < |s.threads| ==> HeldFile(s.threads[u]) != Some(file)
  }

  // ---------- references owned by a running ioctl ----------

  function Opt(o: Option<Addr>): multiset<Addr> {
    if o.Some? then multiset{o.value} else multiset{}
  }

  function HeldByCaller(call: Call): multiset<Addr> {
    if call.from.FromSweep? then multiset{call.from.gone} else Opt(call.fb)
  }

  function Held(pc: Pc): multiset<Addr> {
    match pc
    case Created(fb, _) => multiset{fb}
    case Dropping(drop) => Opt(drop)
    case PlaneLooked(_, fb) => multiset{fb}
    case Removing(fb, _) => multiset{fb}
    case AwaitLocks(fb, _) => multiset{fb}
    case SweepCrtcs(fb, _, _, _) => multiset{fb}
    case SweepPlanes(fb, _, _, _) => multiset{fb}
    case LastPut(fb, _) => multiset{fb}
    case CrtcHas(_, has) => Opt(has)
    case CrtcDrop(drop) => Opt(drop)
    case Dance(_, taken, _, call) => Opt(taken) + HeldByCaller(call)
    case FlipHas(_, fb) => multiset{fb}
    case FlipDrop(_, fb) => multiset{fb}
    case _ => multiset{}
  }

  function CountWith(threads: seq<Pc>, h: Pc -> nat): nat {
    if |threads| == 0 then 0 else CountWith(threads[..|threads| - 1], h) + h(threads[|threads| - 1])
  }

  function HeldOf(f: Addr): Pc -> nat { (pc: Pc) => Held(pc)[f] }

  function HeldCount(threads: seq<Pc>, f: Addr): nat { CountWith(threads, HeldOf(f)) }

  // ---------- kref ----------

  function WithPc(s: State, t: nat, pc: Pc): State
    requires t < |s.threads|
  {
    s.(threads := s.threads[t := pc])
  }

  /** kref_get */
  function Get(s: State, f: Addr): State {
    if f in s.fbs then s.(fbs := s.fbs[f := s.fbs[f].(refs := s.fbs[f].refs + 1)])
    else s.(bug := true)
  }

  /** kref_put with drm_framebuffer_free: the object goes away with its last reference. */
  function Put(s: State, f: Addr): State {
    if f !in s.fbs || s.fbs[f].refs == 0 then s.(bug := true)
    else if s.fbs[f].refs == 1 then s.(fbs := s.fbs - {f})
    else s.(fbs := s.fbs[f := s.fbs[f].(refs := s.fbs[f].refs - 1)])
  }

  /** kref_put with drm_framebuffer_free_bug: reaching zero is a BUG. */
  function PutKeep(s: State, f: Addr): State {
    if f !in s.fbs || s.fbs[f].refs <= 1 then s.(bug := true)
    else s.(fbs := s.fbs[f := s.fbs[f].(refs := s.fbs[f].refs - 1)])
  }

  function GetOpt(s: State, o: Option<Addr>): State { if o.Some? then Get(s, o.value) else s }

  function PutOpt(s: State, o: Option<Addr>): State { if o.Some? then Put(s, o.value) else s }

  /** __drm_framebuffer_unregister: take the id out of the table and drop the table's reference. */
  function Unregister(s: State, f: Addr): State {
    if f !in s.fbs then s.(bug := true)
    else
      var s1 := s.(idr := s.idr - {s.fbs[f].id}, fbs := s.fbs[f := s.fbs[f].(id := 0)]);
      PutKeep(s1, f)
  }

  // ---------- what a ->set_config may do to the CRTCs ----------

  /** The mode rectangle at (x, y), axes swapped when the CRTC is inverted, lies inside the framebuffer. */
  predicate Fits(x: nat, y: nat, mode: Mode, invert: bool, geo: Geometry) {
    var w := if invert then mode.vdisplay else mode.hdisplay;
    var h := if invert then mode.hdisplay else mode.vdisplay;
    w <= geo.width && h <= geo.height && x <= geo.width - w && y <= geo.height - h
  }

  /** A CRTC the driver kept, or turned off. */
  predicate KeptOrOff(before: Crtc, after: Crtc) {
    after == before || after == before.(fb := None)
  }

  /**
   Any CRTC may lose its fb, because its connectors can be stolen; only the target may
   gain one, together with the requested position and mode.  When the call succeeds
   with a NULL fb the target shows nothing.
   */
  predicate DriverMay(before: seq<Crtc>, target: nat, fb: Option<Addr>, x: nat, y: nat, mode: Mode, success: bool, after: seq<Crtc>) {
    && |after| == |before|
    && target < |before|
    && (forall j :: 0 <= j < |before| ==>
          || KeptOrOff(before[j], after[j])
          || (j == target && KeptOrOff(before[j].(fb := fb, x := x, y := y, mode := mode), after[j])))
    && (success && fb == None ==> after[target].fb == None)
  }

  function SaveOld(crtcs: seq<Crtc>): (r: seq<Crtc>)
    ensures |r| == |crtcs|
    ensures forall j :: 0 <= j < |r| ==> r[j] == crtcs[j].(oldFb := crtcs[j].fb)
  {
    seq(|crtcs|, j requires 0 <= j < |crtcs| => crtcs[j].(oldFb := crtcs[j].fb))
  }

  // ---------- steps ----------

  /** crtc_req->fb_id: no mode, -1 for the fb now bound, or an id. */
  datatype Source = NoMode | Current | ById(id: nat)

  datatype Action =
    | FbCreate(file: File, f: Addr, newId: nat, geo: Geometry)
    | FbListAdd
    | Lookup(id: nat)
    | Drop
    | RmFb(file: File, id: nat)
    | ReleaseBegin(file: File)
    | ReleaseNext(f: Addr)
    | ReleaseEnd
    | ReadCount
    | LockForSweep
    | SweepCrtc(success: bool, after: seq<Crtc>)
    | SweepPlane
    | FinalPut
    | PlaneLookup(plane: nat, id: nat)
    | PlaneDisable(plane: nat)
    | PlaneReject
    | PlaneUpdate(success: bool)
    | CrtcLock(crtc: nat)
    | CrtcFetch(source: Source)
    | CrtcReject
    | CrtcCommit(x: nat, y: nat, mode: Mode, success: bool, after: seq<Crtc>)
    | CrtcUnlock
    | DanceRef
    | DanceUnref
    | DanceEnd
    | FlipLock(crtc: nat)
    | FlipAbort
    | FlipLookup(id: nat)
    | FlipReject
    | FlipCommit(success: bool)
    | FlipUnlock

  /** drm_plane_force_disable */
  function ForceDisable(s: State, p: nat): State
    requires p < |s.planes|
  {
    if s.planes[p] == None then s
    else PutKeep(s, s.planes[p].value).(planes := s.planes[p := None])
  }

  /** A step of thread `t` leaves the program counters of the others alone. */
  predicate OnlyMoves(s: State, t: nat, r: Option<State>) {
    r.Some? ==>
      && |r.value.threads| == |s.threads|
      && forall u :: 0 <= u < |s.threads| && u != t ==> r.value.threads[u] == s.threads[u]
  }

  // addfb: ->fb_create runs drm_framebuffer_init, one reference for the creator and one for the id table
  function TryFbCreate(s: State, t: nat, file: File, f: Addr, newId: nat, geo: Geometry): (r: Option<State>)
    requires t < |s.threads|
    ensures OnlyMoves(s, t, r)
  {
    if s.threads[t].Idle? && f !in s.fbs && newId != 0 && newId !in s.idr then
      Some(WithPc(s.(fbs := s.fbs[f := Fb(2, newId, geo)], idr := s.idr[newId := f]), t, Created(f, file)))
    else None
  }

  function TryFbListAdd(s: State, t: nat): (r: Option<State>)
    requires t < |s.threads|
    ensures OnlyMoves(s, t, r)
  {
    var pc := s.threads[t];
    if pc.Created? && CanLockFile(s, pc.file) then
      Some(WithPc(s.(onList := s.onList[pc.fb := pc.file]), t, Idle))
    else None
  }

  // getfb, dirtyfb: look up, use, unreference
  function TryLookup(s: State, t: nat, id: nat): (r: Option<State>)
    requires t < |s.threads|
    ensures OnlyMoves(s, t, r)
  {
    if s.threads[t].Idle? && id in s.idr then
      Some(WithPc(Get(s, s.idr[id]), t, Dropping(Some(s.idr[id]))))
    else None
  }

  function TryDrop(s: State, t: nat): (r: Option<State>)
    requires t < |s.threads|
    ensures OnlyMoves(s, t, r)
  {
    var pc := s.threads[t];
    if pc.Dropping? then Some(WithPc(PutOpt(s, pc.drop), t, Idle)) else None
  }

  // rmfb, under fbs_lock and fb_lock
  function TryRmFb(s: State, t: nat, file: File, id: nat): (r: Option<State>)
    requires t < |s.threads|
    ensures OnlyMoves(s, t, r)
  {
    if s.threads[t].Idle? && CanLockFile(s, file)
       && id in s.idr && s.idr[id] in s.onList && s.onList[s.idr[id]] == file then
      var f := s.idr[id];
      Some(WithPc(Unregister(s, f).(onList := s.onList - {f}), t, Removing(f, None)))
    else None
  }

  // drm_fb_release
  function TryReleaseBegin(s: State, t: nat, file: File): (r: Option<State>)
    requires t < |s.threads|
    ensures OnlyMoves(s, t, r)
  {
    if s.threads[t].Idle? && CanLockFile(s, file) then Some(WithPc(s, t, Releasing(file))) else None
  }

  function TryReleaseNext(s: State, t: nat, f: Addr): (r: Option<State>)
    requires t < |s.threads|
    ensures OnlyMoves(s, t, r)
  {
    var pc := s.threads[t];
    if pc.Releasing? && f in s.onList && s.onList[f] == pc.file then
      Some(WithPc(Unregister(s, f).(onList := s.onList - {f}), t, Removing(f, Some(pc.file))))
    else None
  }

  function TryReleaseEnd(s: State, t: nat): (r: Option<State>)
    requires t < |s.threads|
    ensures OnlyMoves(s, t, r)
  {
    var pc := s.threads[t];
    if pc.Releasing? && forall f :: f in s.onList ==> s.onList[f] != pc.file then Some(WithPc(s, t, Idle)) else None
  }

  // drm_framebuffer_remove
  function TryReadCount(s: State, t: nat): (r: Option<State>)
    requires t < |s.threads|
    ensures OnlyMoves(s, t, r)
  {
    var pc := s.threads[t];
    if !pc.Removing? then None
    else if pc.fb !in s.fbs then Some(s.(bug := true))
    else if s.fbs[pc.fb].refs > 1 then Some(WithPc(s, t, AwaitLocks(pc.fb, pc.rel)))
    else Some(WithPc(s, t, LastPut(pc.fb, pc.rel)))
  }

  function TryLockForSweep(s: State, t: nat): (r: Option<State>)
    requires t < |s.threads|
    ensures OnlyMoves(s, t, r)
  {
    var pc := s.threads[t];
    if pc.AwaitLocks? && CanLockAll(s) then Some(WithPc(s, t, SweepCrtcs(pc.fb, pc.rel, 0, true))) else None
  }

  function TrySweepCrtc(s: State, t: nat, success: bool, after: seq<Crtc>): (r: Option<State>)
    requires t < |s.threads|
    ensures OnlyMoves(s, t, r)
  {
    var pc := s.threads[t];
    if !pc.SweepCrtcs? then None
    else if pc.i >= |s.crtcs| then Some(WithPc(s, t, SweepPlanes(pc.fb, pc.rel, 0, pc.ok)))
    else if s.crtcs[pc.i].fb != Some(pc.fb) then Some(WithPc(s, t, SweepCrtcs(pc.fb, pc.rel, pc.i + 1, pc.ok)))
    else if DriverMay(SaveOld(s.crtcs), pc.i, None, 0, 0, Mode(0, 0), success, after) then
      Some(WithPc(s.(crtcs := after), t,
                  Dance(0, None, false, Call(pc.i, None, success, FromSweep(pc.fb, pc.rel, pc.ok && success)))))
    else None
  }

  function TrySweepPlane(s: State, t: nat): (r: Option<State>)
    requires t < |s.threads|
    ensures OnlyMoves(s, t, r)
  {
    var pc := s.threads[t];
    if !pc.SweepPlanes? then None
    else if pc.i >= |s.planes| then Some(WithPc(s, t, LastPut(pc.fb, pc.rel)))
    else
      var s1 := if s.planes[pc.i] == Some(pc.fb) then ForceDisable(s, pc.i) else s;
      Some(WithPc(s1, t, SweepPlanes(pc.fb, pc.rel, pc.i + 1, pc.ok)))
  }

  function TryFinalPut(s: State, t: nat): (r: Option<State>)
    requires t < |s.threads|
    ensures OnlyMoves(s, t, r)
  {
    var pc := s.threads[t];
    if pc.LastPut? then
      Some(WithPc(Put(s, pc.fb), t, if pc.rel.Some? then Releasing(pc.rel.value) else Idle))
    else None
  }

  // setplane
  function TryPlaneLookup(s: State, t: nat, plane: nat, id: nat): (r: Option<State>)
    requires t < |s.threads|
    ensures OnlyMoves(s, t, r)
  {
    if s.threads[t].Idle? && plane < |s.planes| && id in s.idr then
      Some(WithPc(Get(s, s.idr[id]), t, PlaneLooked(plane, s.idr[id])))
    else None
  }

  function TryPlaneDisable(s: State, t: nat, plane: nat): (r: Option<State>)
    requires t < |s.threads|
    ensures OnlyMoves(s, t, r)
  {
    if s.threads[t].Idle? && plane < |s.planes| && CanLockAll(s) then
      Some(WithPc(s.(planes := s.planes[plane := None]), t, Dropping(s.planes[plane])))
    else None
  }

  function TryPlaneReject(s: State, t: nat): (r: Option<State>)
    requires t < |s.threads|
    ensures OnlyMoves(s, t, r)
  {
    var pc := s.threads[t];
    if pc.PlaneLooked? then Some(WithPc(s, t, Dropping(Some(pc.fb)))) else None
  }

  function TryPlaneUpdate(s: State, t: nat, success: bool): (r: Option<State>)
    requires t < |s.threads|
    ensures OnlyMoves(s, t, r)
  {
    var pc := s.threads[t];
    if !(pc.PlaneLooked? && pc.plane < |s.planes| && CanLockAll(s)) then None
    else if success then
      Some(WithPc(s.(planes := s.planes[pc.plane := Some(pc.fb)]), t, Dropping(s.planes[pc.plane])))
    else Some(WithPc(s, t, Dropping(Some(pc.fb))))
  }

  // setcrtc
  function TryCrtcLock(s: State, t: nat, c: nat): (r: Option<State>)
    requires t < |s.threads|
    ensures OnlyMoves(s, t, r)
  {
    if s.threads[t].Idle? && c < |s.crtcs| && CanLockAll(s) then Some(WithPc(s, t, CrtcLocked(c))) else None
  }

  function TryCrtcFetch(s: State, t: nat, source: Source): (r: Option<State>)
    requires t < |s.threads|
    ensures OnlyMoves(s, t, r)
  {
    var pc := s.threads[t];
    if !(pc.CrtcLocked? && pc.crtc < |s.crtcs|) then None
    else
      match source
      case NoMode => Some(WithPc(s, t, CrtcHas(pc.crtc, None)))
      case Current =>
        var cur := s.crtcs[pc.crtc].fb;
        if cur == None then Some(WithPc(s, t, CrtcDrop(None)))
        else Some(WithPc(GetOpt(s, cur), t, CrtcHas(pc.crtc, cur)))
      case ById(id) =>
        if id in s.idr then Some(WithPc(Get(s, s.idr[id]), t, CrtcHas(pc.crtc, Some(s.idr[id]))))
        else Some(WithPc(s, t, CrtcDrop(None)))
  }

  function TryCrtcReject(s: State, t: nat): (r: Option<State>)
    requires t < |s.threads|
    ensures OnlyMoves(s, t, r)
  {
    var pc := s.threads[t];
    if pc.CrtcHas? then Some(WithPc(s, t, CrtcDrop(pc.has))) else None
  }

  /** The viewport test, and then the first half of drm_mode_set_config_internal: save old_fb, call the driver. */
  function TryCrtcCommit(s: State, t: nat, x: nat, y: nat, mode: Mode, success: bool, after: seq<Crtc>): (r: Option<State>)
    requires t < |s.threads|
    ensures OnlyMoves(s, t, r)
  {
    var pc := s.threads[t];
    if !(pc.CrtcHas? && pc.crtc < |s.crtcs|) then None
    else if pc.has.Some? && pc.has.value !in s.fbs then Some(s.(bug := true))
    else if (pc.has.Some? ==> Fits(x, y, mode, s.crtcs[pc.crtc].invert, s.fbs[pc.has.value].geo))
            && DriverMay(SaveOld(s.crtcs), pc.crtc, pc.has, x, y, mode, success, after) then
      Some(WithPc(s.(crtcs := after), t, Dance(0, None, false, Call(pc.crtc, pc.has, success, FromSetCrtc))))
    else None
  }

  function TryCrtcUnlock(s: State, t: nat): (r: Option<State>)
    requires t < |s.threads|
    ensures OnlyMoves(s, t, r)
  {
    var pc := s.threads[t];
    if pc.CrtcDrop? then Some(WithPc(PutOpt(s, pc.drop), t, Idle)) else None
  }

  // the reference/unreference loop of drm_mode_set_config_internal
  function TryDanceRef(s: State, t: nat): (r: Option<State>)
    requires t < |s.threads|
    ensures OnlyMoves(s, t, r)
  {
    var pc := s.threads[t];
    if pc.Dance? && pc.k < |s.crtcs| && !pc.half then
      Some(WithPc(GetOpt(s, s.crtcs[pc.k].fb), t, Dance(pc.k, s.crtcs[pc.k].fb, true, pc.call)))
    else None
  }

  function TryDanceUnref(s: State, t: nat): (r: Option<State>)
    requires t < |s.threads|
    ensures OnlyMoves(s, t, r)
  {
    var pc := s.threads[t];
    if pc.Dance? && pc.k < |s.crtcs| && pc.k < |s.crtcRef| && pc.half then
      Some(WithPc(PutOpt(s, s.crtcs[pc.k].oldFb).(crtcRef := s.crtcRef[pc.k := s.crtcs[pc.k].fb]), t,
                  Dance(pc.k + 1, None, false, pc.call)))
    else None
  }

  function TryDanceEnd(s: State, t: nat): (r: Option<State>)
    requires t < |s.threads|
    ensures OnlyMoves(s, t, r)
  {
    var pc := s.threads[t];
    if !(pc.Dance? && pc.k == |s.crtcs|) then None
    else if pc.call.from.FromSetCrtc? then Some(WithPc(s, t, CrtcDrop(pc.call.fb)))
    else
      var from := pc.call.from;
      Some(WithPc(s, t, SweepCrtcs(from.gone, from.rel, pc.call.target + 1, from.ok)))
  }

  // page flip
  function TryFlipLock(s: State, t: nat, c: nat): (r: Option<State>)
    requires t < |s.threads|
    ensures OnlyMoves(s, t, r)
  {
    if s.threads[t].Idle? && c < |s.crtcs| && CanLockCrtc(s, c) then Some(WithPc(s, t, FlipLocked(c))) else None
  }

  function TryFlipAbort(s: State, t: nat): (r: Option<State>)
    requires t < |s.threads|
    ensures OnlyMoves(s, t, r)
  {
    if s.threads[t].FlipLocked? then Some(WithPc(s, t, Idle)) else None
  }

  function TryFlipLookup(s: State, t: nat, id: nat): (r: Option<State>)
    requires t < |s.threads|
    ensures OnlyMoves(s, t, r)
  {
    var pc := s.threads[t];
    if pc.FlipLocked? && pc.crtc < |s.crtcs| && s.crtcs[pc.crtc].fb.Some? && id in s.idr then
      Some(WithPc(Get(s, s.idr[id]), t, FlipHas(pc.crtc, s.idr[id])))
    else None
  }

  function TryFlipReject(s: State, t: nat): (r: Option<State>)
    requires t < |s.threads|
    ensures OnlyMoves(s, t, r)
  {
    var pc := s.threads[t];
    if pc.FlipHas? then Some(WithPc(s, t, FlipDrop(pc.crtc, pc.fb))) else None
  }

  /** The viewport and format tests, then ->page_flip, which leaves crtc->fb == fb when it succeeds. */
  function TryFlipCommit(s: State, t: nat, success: bool): (r: Option<State>)
    requires t < |s.threads|
    ensures OnlyMoves(s, t, r)
  {
    var pc := s.threads[t];
    if !(pc.FlipHas? && pc.crtc < |s.crtcs| && pc.crtc < |s.crtcRef|) then None
    else
      var crtc := s.crtcs[pc.crtc];
      if crtc.fb == None || crtc.fb.value !in s.fbs || pc.fb !in s.fbs then Some(s.(bug := true))
      else if !Fits(crtc.x, crtc.y, crtc.mode, crtc.invert, s.fbs[pc.fb].geo)
              || s.fbs[crtc.fb.value].geo.format != s.fbs[pc.fb].geo.format then None
      else if success then
        Some(WithPc(s.(crtcs := s.crtcs[pc.crtc := crtc.(fb := Some(pc.fb))],
                       crtcRef := s.crtcRef[pc.crtc := Some(pc.fb)]), t,
                    FlipDrop(pc.crtc, crtc.fb.value)))
      else Some(WithPc(s, t, FlipDrop(pc.crtc, pc.fb)))
  }

  function TryFlipUnlock(s: State, t: nat): (r: Option<State>)
    requires t < |s.threads|
    ensures OnlyMoves(s, t, r)
  {
    var pc := s.threads[t];
    if pc.FlipDrop? then Some(WithPc(Put(s, pc.fb), t, Idle)) else None
  }

  function Next(s: State, t: nat, a: Action): (r: Option<State>)
    requires t < |s.threads|
    ensures OnlyMoves(s, t, r)
  {
    match a
    case FbCreate(file, f, newId, geo) => TryFbCreate(s, t, file, f, newId, geo)
    case FbListAdd => TryFbListAdd(s, t)
    case Lookup(id) => TryLookup(s, t, id)
    case Drop => TryDrop(s, t)
    case RmFb(file, id) => TryRmFb(s, t, file, id)
    case ReleaseBegin(file) => TryReleaseBegin(s, t, file)
    case ReleaseNext(f) => TryReleaseNext(s, t, f)
    case ReleaseEnd => TryReleaseEnd(s, t)
    case ReadCount => TryReadCount(s, t)
    case LockForSweep => TryLockForSweep(s, t)
    case SweepCrtc(success, after) => TrySweepCrtc(s, t, success, after)
    case SweepPlane => TrySweepPlane(s, t)
    case FinalPut => TryFinalPut(s, t)
    case PlaneLookup(plane, id) => TryPlaneLookup(s, t, plane, id)
    case PlaneDisable(plane) => TryPlaneDisable(s, t, plane)
    case PlaneReject => TryPlaneReject(s, t)
    case PlaneUpdate(success) => TryPlaneUpdate(s, t, success)
    case CrtcLock(c) => TryCrtcLock(s, t, c)
    case CrtcFetch(source) => TryCrtcFetch(s, t, source)
    case CrtcReject => TryCrtcReject(s, t)
    case CrtcCommit(x, y, mode, success, after) => TryCrtcCommit(s, t, x, y, mode, success, after)
    case CrtcUnlock => TryCrtcUnlock(s, t)
    case DanceRef => TryDanceRef(s, t)
    case DanceUnref => TryDanceUnref(s, t)
    case DanceEnd => TryDanceEnd(s, t)
    case FlipLock(c) => TryFlipLock(s, t, c)
    case FlipAbort => TryFlipAbort(s, t)
    case FlipLookup(id) => TryFlipLookup(s, t, id)
    case FlipReject => TryFlipReject(s, t)
    case FlipCommit(success) => TryFlipCommit(s, t, success)
    case FlipUnlock => TryFlipUnlock(s, t)
  }

  ghost predicate Step(s: State, s': State) {
    exists t: nat, a :: t < |s.threads| && Next(s, t, a) == Some(s')
  }

  /** Nothing registered, shown or running. */
  predicate Init(s: State) {
    && s.fbs == map[] && s.idr == map[] && s.onList == map[] && !s.bug
    && (forall j :: 0 <= j < |s.crtcs| ==> s.crtcs[j].fb == None)
    && (forall j :: 0 <= j < |s.planes| ==> s.planes[j] == None)
    && (forall t :: 0 <= t < |s.threads| ==> s.threads[t] == Idle)
    && |s.crtcRef| == |s.crtcs|
    && (forall j :: 0 <= j < |s.crtcRef| ==> s.crtcRef[j] == None)
  }

  ghost predicate StepAt(path: seq<State>, k: nat)
    requires k + 1 < |path|
  {
    Step(path[k], path[k + 1])
  }

  /** `path` is a run from its first state to its last, of any interleaving. */
  ghost predicate IsRun(path: seq<State>) {
    && |path| > 0
    && forall k :: 0 <= k < |path| - 1 ==> StepAt(path, k)
  }

  ghost predicate Reachable(s: State) {
    exists path: seq<State> :: IsRun(path) && Init(path[0]) && path[|path| - 1] == s
  }
}
