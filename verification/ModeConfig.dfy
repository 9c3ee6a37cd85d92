/**
 drm_crtc.c's ioctls as they run: fields updated in place, loops over the CRTCs and planes.
 Each method, executed on its own, is a run of the machine of FbMachine, so whatever holds in
 every reachable state of the machine holds before and after it.
 */
module ModeConfig {
  import opened Options
  import opened CValues
  import opened FbMachine
  import opened FbInvariant
  import opened FbTheorems
  import opened FbTrace
  import opened FbRequests
  import opened FbSweep
  import C = FramebufferCheck

  class ModeConfig {
    var fbs: map<Addr, Fb>
    var idr: map<nat, Addr>
    var onList: map<Addr, File>
    var crtcs: seq<Crtc>
    var planes: seq<Option<Addr>>
    var calls: nat
    ghost var log: seq<Ask>
    ghost var pc: Pc
    ghost var crtcRef: seq<Option<Addr>>
    ghost var path: seq<State>

    ghost function Now(): State
      reads this
    {
      State(fbs, idr, onList, crtcs, planes, [pc], crtcRef, false)
    }

    /** The ioctls run so far are a run of the machine, and each call of the driver is in the log. */
    ghost predicate Valid()
      reads this
    {
      Traced(path, Now()) && calls == |log|
    }

    constructor (crtcs: seq<Crtc>, planes: nat)
      requires forall j :: 0 <= j < |crtcs| ==> crtcs[j].fb == None
      ensures Valid() && pc == Idle
    {
      fbs, idr, onList, calls, log := map[], map[], map[], 0, [];
      this.crtcs := crtcs;
      this.planes := seq(planes, _ => None);
      pc := Idle;
      crtcRef := seq(|crtcs|, _ => None);
      new;
      path := [Now()];
    }

    /** What the method has just done was step `a` from `s`. */
    ghost method Record(s: State, a: Action)
      requires Traced(path, s) && calls == |log| && Next(s, 0, a) == Some(Now().(threads := s.threads[0 := pc]))
      modifies this`path
      ensures Valid() && path == old(path) + [Now()]
    {
      assert s.threads[0 := pc] == [pc];
      Advance(path, s, a, Now());
      path := path + [Now()];
    }

    /** What the id table names is alive, and what is alive is referenced. */
    lemma Alive()
      requires Valid()
      ensures forall i :: i in idr ==> idr[i] in fbs
      ensures forall f :: f in fbs ==> fbs[f].refs > 0
      ensures forall f :: f in onList ==> f in fbs
    {
      TracedGood(path, Now());
      forall f | f in fbs ensures fbs[f].refs > 0 { assert Accounted(Now(), f); }
    }

    // ---------- kref ----------

    method Reference(f: Addr)
      requires f in fbs
      modifies this`fbs
      ensures fbs == old(fbs)[f := old(fbs)[f].(refs := old(fbs)[f].refs + 1)]
    {
      fbs := fbs[f := fbs[f].(refs := fbs[f].refs + 1)];
    }

    /** drm_framebuffer_unreference: the last reference destroys the object. */
    method Unreference(f: Addr)
      requires f in fbs && fbs[f].refs > 0
      modifies this`fbs
      ensures fbs == if old(fbs)[f].refs == 1 then old(fbs) - {f} else old(fbs)[f := old(fbs)[f].(refs := old(fbs)[f].refs - 1)]
    {
      if fbs[f].refs == 1 {
        fbs := fbs - {f};
      } else {
        fbs := fbs[f := fbs[f].(refs := fbs[f].refs - 1)];
      }
    }

    /** A reference taken and given back leaves every count as it was. */
    lemma GivenBack(s: State, s': State, f: Addr)
      requires f in s.fbs && s.fbs[f].refs > 0 && s'.fbs == Get(s, f).fbs
      ensures Put(s', f).fbs == s.fbs
    {
    }

    // ---------- lookup, unreference ----------

    /** drm_framebuffer_lookup; `next` is where the ioctl goes on. */
    method Lookup(id: nat, ghost a: Action, ghost next: Pc) returns (fb: Option<Addr>)
      requires Valid()
      requires id in idr ==> Next(Now(), 0, a) == Some(WithPc(Get(Now(), idr[id]), 0, next))
      modifies this`fbs, this`pc, this`path
      ensures Valid() && old(path) <= path
      ensures fb == if id in idr then Some(idr[id]) else None
      ensures if fb == None then Now() == old(Now()) else pc == next && fb.value in fbs && fbs == Get(old(Now()), fb.value).fbs
    {
      if id !in idr { return None; }
      NoBug(path, Now(), a);
      ghost var s := Now();
      fb := Some(idr[id]);
      Reference(idr[id]);
      pc := next;
      Record(s, a);
    }

    /** The unreference that ends an ioctl. */
    method DropAtEnd(fb: Addr, ghost a: Action, ghost next: Pc)
      requires Valid() && Next(Now(), 0, a) == Some(WithPc(Put(Now(), fb), 0, next))
      modifies this`fbs, this`pc, this`path
      ensures Valid() && old(path) <= path && pc == next && fbs == Put(old(Now()), fb).fbs
    {
      NoBug(path, Now(), a);
      ghost var s := Now();
      Unreference(fb);
      pc := next;
      Record(s, a);
    }

    /** A step that changes nothing but where the ioctl stands. */
    ghost method Move(a: Action, next: Pc)
      requires Valid() && Next(Now(), 0, a) == Some(WithPc(Now(), 0, next))
      modifies this`pc, this`path
      ensures Valid() && old(path) <= path && pc == next
    {
      ghost var s := Now();
      pc := next;
      Record(s, a);
    }

    // ---------- addfb, getfb ----------

    /** The allocators hand out addresses and ids that are not in use. */
    predicate Unused(made: Option<Made>)
      reads this`fbs, this`idr
    {
      made.Some? ==> made.value.f !in fbs && made.value.id != 0 && made.value.id !in idr
    }

    /** drm_mode_addfb, whose format comes from depth and bits per pixel and is not checked. */
    method AddFb(file: File, limits: Limits, width: nat, height: nat, made: Option<Made>) returns (ok: bool)
      requires Valid() && pc == Idle && Unused(made)
      modifies this`fbs, this`idr, this`onList, this`pc, this`path
      ensures Valid() && old(path) <= path && pc == Idle
      ensures ok <==> limits.minWidth <= width <= limits.maxWidth && limits.minHeight <= height <= limits.maxHeight && made.Some?
      ensures ok ==> var m := made.value;
                && fbs == old(fbs)[m.f := Fb(2, m.id, Geometry(width, height, m.format))]
                && idr == old(idr)[m.id := m.f] && onList == old(onList)[m.f := file]
      ensures !ok ==> Now() == old(Now())
    {
      if limits.minWidth > width || width > limits.maxWidth { return false; }
      if limits.minHeight > height || height > limits.maxHeight { return false; }
      if made == None { return false; }
      Create(file, made.value.f, made.value.id, Geometry(width, height, made.value.format));
      ListIt(file, made.value.f);
      return true;
    }

    /** drm_mode_addfb2; `strange` is a flag it does not know. */
    method AddFb2(file: File, strange: bool, limits: Limits, r: C.FbCmd, made: Option<Made>) returns (ok: bool)
      requires Valid() && pc == Idle && Unused(made) && r.Valid()
      modifies this`fbs, this`idr, this`onList, this`pc, this`path
      ensures Valid() && old(path) <= path && pc == Idle
      ensures ok <==> && !strange && limits.minWidth <= r.width <= limits.maxWidth && limits.minHeight <= r.height <= limits.maxHeight
                      && C.Acceptable(r) && made.Some?
      ensures ok ==> var m := made.value;
                && fbs == old(fbs)[m.f := Fb(2, m.id, Geometry(r.width, r.height, m.format))]
                && idr == old(idr)[m.id := m.f] && onList == old(onList)[m.f := file]
      ensures !ok ==> Now() == old(Now())
    {
      if strange { return false; }
      if limits.minWidth > r.width || r.width > limits.maxWidth { return false; }
      if limits.minHeight > r.height || r.height > limits.maxHeight { return false; }
      var ret := C.Check(r);
      if ret != 0 || made == None { return false; }
      Create(file, made.value.f, made.value.id, Geometry(r.width, r.height, made.value.format));
      ListIt(file, made.value.f);
      return true;
    }

    /** list_add, which takes over the reference from the creation. */
    method ListIt(file: File, f: Addr)
      requires Valid() && pc == Created(f, file)
      modifies this`onList, this`pc, this`path
      ensures Valid() && old(path) <= path && pc == Idle && onList == old(onList)[f := file]
    {
      ghost var s := Now();
      onList := onList[f := file];
      pc := Idle;
      Record(s, FbListAdd);
    }

    /** drm_framebuffer_init, as ->fb_create calls it. */
    method Create(file: File, f: Addr, newId: nat, geo: Geometry)
      requires Valid() && pc == Idle && f !in fbs && newId != 0 && newId !in idr
      modifies this`fbs, this`idr, this`pc, this`path
      ensures Valid() && old(path) <= path && pc == Created(f, file)
      ensures fbs == old(fbs)[f := Fb(2, newId, geo)] && idr == old(idr)[newId := f]
    {
      ghost var s := Now();
      fbs := fbs[f := Fb(1, newId, geo)];
      idr := idr[newId := f];
      Reference(f);
      assert fbs == old(fbs)[f := Fb(2, newId, geo)];
      pc := Created(f, file);
      Record(s, FbCreate(file, f, newId, geo));
    }

    /** `handle` is what ->create_handle answers, if the framebuffer has that hook; the size is told whether it succeeds or not. */
    method GetFb(id: nat, handle: Option<int>) returns (ret: int, geo: Option<Geometry>)
      requires Valid() && pc == Idle
      modifies this`fbs, this`pc, this`path
      ensures Valid() && old(path) <= path && pc == Idle
      ensures ret == if id !in idr then -22 else if handle.Some? then handle.value else -19
      ensures geo.Some? <==> id in idr
      ensures geo.Some? ==> idr[id] in fbs && geo.value == fbs[idr[id]].geo
      ensures fbs == old(fbs)
    {
      Alive();
      ghost var s, a := Now(), FbMachine.Action.Lookup(id);
      var fb := Lookup(id, a, if id in idr then Dropping(Some(idr[id])) else Idle);
      if fb == None { return EINVAL, None; }
      GivenBack(s, Now(), fb.value);
      geo := Some(fbs[fb.value].geo);
      ret := if handle.Some? then handle.value else ENODEV;
      DropAtEnd(fb.value, Drop, Idle);
    }

    // ---------- drm_mode_set_config_internal ----------

    method SaveOldFbs()
      modifies this`crtcs
      ensures crtcs == SaveOld(old(crtcs))
    {
      for j := 0 to |crtcs|
        invariant |crtcs| == |old(crtcs)|
        invariant forall i :: 0 <= i < |crtcs| ==> crtcs[i] == if i < j then SaveOld(old(crtcs))[i] else old(crtcs)[i]
      {
        crtcs := crtcs[j := crtcs[j].(oldFb := crtcs[j].fb)];
      }
    }

    /** One CRTC's turn, first half: reference what it shows now. */
    method TakeNew(k: nat, ghost call: Call)
      requires Valid() && k < |crtcs| == |crtcRef| && pc == Dance(k, None, false, call)
      modifies this`fbs, this`pc, this`path
      ensures Valid() && old(path) <= path && pc == Dance(k, crtcs[k].fb, true, call)
    {
      NoBug(path, Now(), DanceRef);
      ghost var s := Now();
      if crtcs[k].fb.Some? {
        Reference(crtcs[k].fb.value);
      }
      pc := Dance(k, crtcs[k].fb, true, call);
      Record(s, DanceRef);
    }

    /** Second half: unreference what it showed before. */
    method DropOld(k: nat, ghost call: Call)
      requires Valid() && k < |crtcs| == |crtcRef| && pc == Dance(k, crtcs[k].fb, true, call)
      modifies this`fbs, this`crtcRef, this`pc, this`path
      ensures Valid() && old(path) <= path && |crtcs| == |crtcRef| && pc == Dance(k + 1, None, false, call)
    {
      NoBug(path, Now(), DanceUnref);
      ghost var s := Now();
      if crtcs[k].oldFb.Some? {
        Unreference(crtcs[k].oldFb.value);
      }
      crtcRef := crtcRef[k := crtcs[k].fb];
      pc := Dance(k + 1, None, false, call);
      Record(s, DanceUnref);
    }

    function AfterCall(call: Call): Pc {
      if call.from.FromSetCrtc? then CrtcDrop(call.fb)
      else SweepCrtcs(call.from.gone, call.from.rel, call.target + 1, call.from.ok)
    }

    /** The loop over all CRTCs. */
    method DanceLoop(ghost call: Call)
      requires Valid() && |crtcs| == |crtcRef| && pc == Dance(0, None, false, call)
      modifies this`fbs, this`crtcRef, this`pc, this`path
      ensures Valid() && old(path) <= path && |crtcs| == |crtcRef| && pc == Dance(|crtcs|, None, false, call)
    {
      for k := 0 to |crtcs|
        invariant Valid() && old(path) <= path && |crtcs| == |crtcRef| && pc == Dance(k, None, false, call)
      {
        TakeNew(k, call);
        DropOld(k, call);
      }
    }

    /** What the call finds in the program counter, and what it leaves there. */
    ghost predicate ReadyToSet(target: nat, fb: Option<Addr>, x: nat, y: nat, mode: Mode)
      reads this
    {
      && target < |crtcs| == |crtcRef|
      && (if pc.SweepCrtcs? then pc.i == target && crtcs[target].fb == Some(pc.fb) && fb == None && x == 0 && y == 0 && mode == Mode(0, 0)
          else pc == CrtcHas(target, fb)
               && (fb.Some? ==> fb.value in fbs && Fits(x, y, mode, crtcs[target].invert, fbs[fb.value].geo)))
    }

    function CallOf(was: Pc, target: nat, fb: Option<Addr>, ok: bool): Call {
      Call(target, fb, ok, if was.SweepCrtcs? then FromSweep(was.fb, was.rel, was.ok && ok) else FromSetCrtc)
    }

    method SetConfigInternal(target: nat, fb: Option<Addr>, x: nat, y: nat, mode: Mode, driver: SetConfigFn) returns (ok: bool)
      requires Valid() && Lawful(driver) && ReadyToSet(target, fb, x, y, mode)
      modifies this`fbs, this`crtcs, this`crtcRef, this`calls, this`log, this`pc, this`path
      ensures Valid() && old(path) <= path && |crtcs| == |crtcRef| && pc == AfterCall(CallOf(old(pc), target, fb, ok))
      ensures (ok, crtcs) == driver(old(calls), SaveOld(old(crtcs)), target, fb, x, y, mode)
      ensures |crtcs| == |old(crtcs)| && log == old(log) + [Ask(target, old(crtcs)[target].fb, fb)]
    {
      ghost var call: Call;
      ok, call := CallDriver(target, fb, x, y, mode, driver);
      DanceToEnd(call);
    }

    /** The loop, and the return from drm_mode_set_config_internal. */
    method DanceToEnd(ghost call: Call)
      requires Valid() && |crtcs| == |crtcRef| && pc == Dance(0, None, false, call)
      modifies this`fbs, this`crtcRef, this`pc, this`path
      ensures Valid() && old(path) <= path && |crtcs| == |crtcRef| && pc == AfterCall(call)
    {
      DanceLoop(call);
      EndDance(call);
    }

    ghost method EndDance(call: Call)
      requires Valid() && pc == Dance(|crtcs|, None, false, call)
      modifies this`pc, this`path
      ensures Valid() && old(path) <= path && pc == AfterCall(call)
    {
      Move(DanceEnd, AfterCall(call));
    }

    /** What each CRTC shows is saved, and ->set_config is called. */
    method AskDriver(target: nat, fb: Option<Addr>, x: nat, y: nat, mode: Mode, driver: SetConfigFn) returns (ok: bool)
      requires target < |crtcs|
      modifies this`crtcs, this`calls, this`log
      ensures (ok, crtcs) == driver(old(calls), SaveOld(old(crtcs)), target, fb, x, y, mode)
      ensures calls == old(calls) + 1 && log == old(log) + [Ask(target, old(crtcs)[target].fb, fb)]
    {
      SaveOldFbs();
      var result := driver(calls, crtcs, target, fb, x, y, mode);
      calls, log := calls + 1, log + [Ask(target, crtcs[target].fb, fb)];
      ok, crtcs := result.0, result.1;
    }

    /** Up to the return of ->set_config, which is a step of the machine. */
    method CallDriver(target: nat, fb: Option<Addr>, x: nat, y: nat, mode: Mode, driver: SetConfigFn) returns (ok: bool, ghost call: Call)
      requires Valid() && Lawful(driver) && ReadyToSet(target, fb, x, y, mode)
      modifies this`crtcs, this`calls, this`log, this`pc, this`path
      ensures Valid() && old(path) <= path && pc == Dance(0, None, false, call) && |crtcs| == |crtcRef|
      ensures call == CallOf(old(pc), target, fb, ok)
      ensures (ok, crtcs) == driver(old(calls), SaveOld(old(crtcs)), target, fb, x, y, mode)
      ensures |crtcs| == |old(crtcs)| && log == old(log) + [Ask(target, old(crtcs)[target].fb, fb)]
    {
      ghost var s, was := Now(), pc;
      ok := AskDriver(target, fb, x, y, mode, driver);
      call := CallOf(was, target, fb, ok);
      pc := Dance(0, None, false, call);
      Record(s, if was.SweepCrtcs? then SweepCrtc(ok, crtcs) else CrtcCommit(x, y, mode, ok, crtcs));
    }

    // ---------- drm_framebuffer_remove, rmfb, drm_fb_release ----------

    /** The plane's reference is not the last: the remover has one too. */
    lemma KeptByPlane(i: nat, fb: Addr, rel: Option<File>, ok: bool)
      requires Valid() && i < |planes| && pc == SweepPlanes(fb, rel, i, ok)
      ensures planes[i] == Some(fb) ==> fb in fbs && fbs[fb].refs > 1
    {
      NoBug(path, Now(), SweepPlane);
    }

    /** drm_plane_force_disable, in the sweep over the planes. */
    method ForceDisablePlane(i: nat, fb: Addr, ghost rel: Option<File>, ghost ok: bool)
      requires Valid() && i < |planes| && pc == SweepPlanes(fb, rel, i, ok)
      modifies this`fbs, this`planes, this`pc, this`path
      ensures Valid() && old(path) <= path && pc == SweepPlanes(fb, rel, i + 1, ok) && |planes| == |old(planes)|
      ensures forall j :: 0 <= j < |planes| ==> planes[j] == if j == i && old(planes)[j] == Some(fb) then None else old(planes)[j]
    {
      KeptByPlane(i, fb, rel, ok);
      ghost var s := Now();
      if planes[i] == Some(fb) {
        UnreferenceKeep(fb);
        planes := planes[i := None];
      }
      pc := SweepPlanes(fb, rel, i + 1, ok);
      Record(s, SweepPlane);
    }

    /** The sweep over all CRTCs: whichever shows `fb` is turned off. */
    method SweepAllCrtcs(fb: Addr, driver: SetConfigFn, ghost rel: Option<File>) returns (ghost ok: bool)
      requires Valid() && Lawful(driver) && pc == SweepCrtcs(fb, rel, 0, true)
      modifies this`fbs, this`crtcs, this`crtcRef, this`calls, this`log, this`pc, this`path
      ensures Valid() && old(path) <= path && |crtcs| == |old(crtcs)| && pc == SweepPlanes(fb, rel, 0, ok)
      ensures Obliging(driver) ==> ok
      ensures OnlySwept(Local(driver), {fb}, old(crtcs), old(log), crtcs, log)
    {
      Matched();
      ok := SweepTurns(fb, driver, rel, Local(driver), Obliging(driver));
      EndSweepCrtcs(fb, rel, ok);
    }

    /** The turns of the sweep; `tame` if the driver is local, `obliging` if it never fails. */
    method SweepTurns(fb: Addr, driver: SetConfigFn, ghost rel: Option<File>, ghost tame: bool, ghost obliging: bool) returns (ghost ok: bool)
      requires Valid() && Lawful(driver) && tame == Local(driver) && obliging == Obliging(driver)
      requires |crtcs| == |crtcRef| && pc == SweepCrtcs(fb, rel, 0, true)
      modifies this`fbs, this`crtcs, this`crtcRef, this`calls, this`log, this`pc, this`path
      ensures Valid() && old(path) <= path && |crtcs| == |old(crtcs)| && pc == SweepCrtcs(fb, rel, |crtcs|, ok)
      ensures obliging ==> ok
      ensures OnlySwept(tame, {fb}, old(crtcs), old(log), crtcs, log)
    {
      ok := true;
      ghost var was, wasLog := crtcs, log;
      NotSwept(tame, {fb}, crtcs, log);
      for i := 0 to |crtcs|
        invariant Valid() && old(path) <= path && |crtcs| == |was| == |crtcRef| && pc == SweepCrtcs(fb, rel, i, ok)
        invariant obliging ==> ok
        invariant OnlySwept(tame, {fb}, was, wasLog, crtcs, log)
      {
        ok := SweepCrtcAt(i, fb, driver, rel, ok, tame, obliging, was, wasLog);
      }
    }

    /** One turn; `was` and `wasLog` are from the beginning of the sweep. */
    method SweepCrtcAt(i: nat, fb: Addr, driver: SetConfigFn, ghost rel: Option<File>, ghost before: bool, ghost tame: bool, ghost obliging: bool,
                       ghost was: seq<Crtc>, ghost wasLog: seq<Ask>)
      returns (ghost ok: bool)
      requires Valid() && Lawful(driver) && tame == Local(driver) && obliging == Obliging(driver)
      requires i < |crtcs| == |crtcRef| && pc == SweepCrtcs(fb, rel, i, before)
      requires OnlySwept(tame, {fb}, was, wasLog, crtcs, log)
      modifies this`fbs, this`crtcs, this`crtcRef, this`calls, this`log, this`pc, this`path
      ensures Valid() && old(path) <= path && |crtcs| == |old(crtcs)| == |crtcRef| && pc == SweepCrtcs(fb, rel, i + 1, ok)
      ensures obliging && before ==> ok
      ensures OnlySwept(tame, {fb}, was, wasLog, crtcs, log)
    {
      if crtcs[i].fb == Some(fb) {
        ok := TurnOff(i, fb, driver, rel, before, was, wasLog);
      } else {
        SkipCrtc(fb, rel, i, before);
        ok := before;
      }
    }

    /** A CRTC that shows `fb` is turned off. */
    method TurnOff(i: nat, fb: Addr, driver: SetConfigFn, ghost rel: Option<File>, ghost before: bool, ghost was: seq<Crtc>, ghost wasLog: seq<Ask>)
      returns (ghost ok: bool)
      requires Valid() && Lawful(driver) && i < |crtcs| == |crtcRef| && pc == SweepCrtcs(fb, rel, i, before) && crtcs[i].fb == Some(fb)
      requires OnlySwept(Local(driver), {fb}, was, wasLog, crtcs, log)
      modifies this`fbs, this`crtcs, this`crtcRef, this`calls, this`log, this`pc, this`path
      ensures Valid() && old(path) <= path && |crtcs| == |old(crtcs)| == |crtcRef| && pc == SweepCrtcs(fb, rel, i + 1, ok)
      ensures Obliging(driver) && before ==> ok
      ensures OnlySwept(Local(driver), {fb}, was, wasLog, crtcs, log)
    {
      var done := SetConfigInternal(i, None, 0, 0, Mode(0, 0), driver);
      ok := before && done;
      SweptOne(driver, old(calls), old(crtcs), old(log), i, fb, crtcs);
      SweptThen(Local(driver), {fb}, {fb}, {fb}, was, wasLog, old(crtcs), old(log), crtcs, log);
    }

    ghost method SkipCrtc(fb: Addr, rel: Option<File>, i: nat, ok: bool)
      requires Valid() && i < |crtcs| && pc == SweepCrtcs(fb, rel, i, ok) && crtcs[i].fb != Some(fb)
      modifies this`pc, this`path
      ensures Valid() && old(path) <= path && pc == SweepCrtcs(fb, rel, i + 1, ok)
    {
      Move(SweepCrtc(true, crtcs), SweepCrtcs(fb, rel, i + 1, ok));
    }

    lemma Matched()
      requires Valid()
      ensures |crtcs| == |crtcRef|
    {
      TracedGood(path, Now());
    }

    method SweepAllPlanes(fb: Addr, ghost rel: Option<File>, ghost ok: bool)
      requires Valid() && pc == SweepPlanes(fb, rel, 0, ok)
      modifies this`fbs, this`planes, this`pc, this`path
      ensures Valid() && old(path) <= path && pc == LastPut(fb, rel)
      ensures planes == Without(old(planes), fb)
    {
      for i := 0 to |planes|
        invariant Valid() && old(path) <= path && |planes| == |old(planes)| && pc == SweepPlanes(fb, rel, i, ok)
        invariant forall j :: 0 <= j < |planes| ==> planes[j] == if j < i then Without(old(planes), fb)[j] else old(planes)[j]
      {
        ForceDisablePlane(i, fb, rel, ok);
      }
      EndSweepPlanes(fb, rel, ok);
    }

    predicate OnScreen(f: Addr)
      reads this`crtcs
    {
      exists j :: 0 <= j < |crtcs| && crtcs[j].fb == Some(f)
    }

    predicate OnPlane(f: Addr)
      reads this`planes
    {
      exists j :: 0 <= j < |planes| && planes[j] == Some(f)
    }

    /** Removed and off the planes, an object stays exactly while a CRTC shows it. */
    lemma Remains(f: Addr)
      requires Valid() && (pc.Idle? || pc.Releasing?) && f !in idr.Values && f !in onList && !OnPlane(f)
      ensures f in fbs <==> OnScreen(f)
    {
      TracedGood(path, Now());
      assert Settled(Now());
      StaysIffShown(Now(), f);
    }

    /** What drm_framebuffer_remove is given has no id and no list place. */
    lemma RemovedHidden(fb: Addr, rel: Option<File>)
      requires Valid() && pc == Removing(fb, rel)
      ensures fb !in idr.Values && fb !in onList
      ensures fb in fbs && fbs[fb].refs == 1 ==> !OnScreen(fb) && !OnPlane(fb)
    {
      TracedGood(path, Now());
      var s := Now();
      assert ThreadOk(s, s.threads[0]);
      if fb in fbs && fbs[fb].refs == 1 { LastHolder(s, 0, fb); }
    }

    /** After a sweep in which every ->set_config succeeded no CRTC shows `fb`. */
    lemma SweptClear(fb: Addr, rel: Option<File>, ok: bool)
      requires Valid() && pc == SweepPlanes(fb, rel, 0, ok)
      ensures ok ==> !OnScreen(fb)
    {
      TracedGood(path, Now());
      assert ThreadOk(Now(), Now().threads[0]);
    }

    function AfterRemove(rel: Option<File>): Pc { if rel.Some? then Releasing(rel.value) else Idle }

    ghost method BeginSweep(fb: Addr, rel: Option<File>)
      requires Valid() && pc == AwaitLocks(fb, rel)
      modifies this`pc, this`path
      ensures Valid() && old(path) <= path && pc == SweepCrtcs(fb, rel, 0, true)
    {
      Move(LockForSweep, SweepCrtcs(fb, rel, 0, true));
    }

    ghost method SawCount(fb: Addr, rel: Option<File>)
      requires Valid() && pc == Removing(fb, rel) && fb in fbs
      modifies this`pc, this`path
      ensures Valid() && old(path) <= path && pc == if fbs[fb].refs > 1 then AwaitLocks(fb, rel) else LastPut(fb, rel)
    {
      Move(ReadCount, if fbs[fb].refs > 1 then AwaitLocks(fb, rel) else LastPut(fb, rel));
    }

    lemma RemovedAlive(fb: Addr, rel: Option<File>)
      requires Valid() && pc == Removing(fb, rel)
      ensures fb in fbs && fbs[fb].refs > 0
    {
      NoBug(path, Now(), ReadCount);
      Alive();
    }

    ghost method EndSweepCrtcs(fb: Addr, rel: Option<File>, ok: bool)
      requires Valid() && pc == SweepCrtcs(fb, rel, |crtcs|, ok)
      modifies this`pc, this`path
      ensures Valid() && old(path) <= path && pc == SweepPlanes(fb, rel, 0, ok)
    {
      Move(SweepCrtc(true, crtcs), SweepPlanes(fb, rel, 0, ok));
    }

    ghost method EndSweepPlanes(fb: Addr, rel: Option<File>, ok: bool)
      requires Valid() && pc == SweepPlanes(fb, rel, |planes|, ok)
      modifies this`pc, this`path
      ensures Valid() && old(path) <= path && pc == LastPut(fb, rel)
    {
      Move(SweepPlane, LastPut(fb, rel));
    }

    /** Off every CRTC and plane, under all the modeset locks. */
    method TakeOffScreen(fb: Addr, driver: SetConfigFn, ghost rel: Option<File>)
      requires Valid() && Lawful(driver) && pc == AwaitLocks(fb, rel)
      modifies this`fbs, this`crtcs, this`crtcRef, this`planes, this`calls, this`log, this`pc, this`path
      ensures Valid() && old(path) <= path && pc == LastPut(fb, rel) && |crtcs| == |old(crtcs)|
      ensures planes == Without(old(planes), fb)
      ensures Obliging(driver) ==> !OnScreen(fb)
      ensures OnlySwept(Local(driver), {fb}, old(crtcs), old(log), crtcs, log)
    {
      BeginSweep(fb, rel);
      ghost var ok := SweepAllCrtcs(fb, driver, rel);
      SweptClear(fb, rel, ok);
      SweepAllPlanes(fb, rel, ok);
    }

    ghost method BeginRemove(fb: Addr, rel: Option<File>)
      requires Valid() && pc == Removing(fb, rel)
      modifies this`pc, this`path
      ensures Valid() && old(path) <= path && fb in fbs && fbs[fb].refs > 0
      ensures fb !in idr.Values && fb !in onList
      ensures pc == if fbs[fb].refs > 1 then AwaitLocks(fb, rel) else LastPut(fb, rel)
      ensures fbs[fb].refs == 1 ==> !OnScreen(fb) && !OnPlane(fb)
    {
      RemovedAlive(fb, rel);
      RemovedHidden(fb, rel);
      SawCount(fb, rel);
    }

    /**
     Called with a reference and nothing else that would keep `fb` once it is off the screen.  The
     planes that showed it are off, and it is gone exactly unless a CRTC still shows it, which
     takes a ->set_config that failed.  A last holder leaves CRTCs and planes alone.
     */
    method FramebufferRemove(fb: Addr, driver: SetConfigFn, ghost rel: Option<File>)
      requires Valid() && Lawful(driver) && pc == Removing(fb, rel)
      modifies this`fbs, this`crtcs, this`crtcRef, this`planes, this`calls, this`log, this`pc, this`path
      ensures Valid() && old(path) <= path && pc == AfterRemove(rel) && |crtcs| == |old(crtcs)|
      ensures planes == Without(old(planes), fb) && fb !in idr.Values && fb !in onList
      ensures fb in fbs <==> OnScreen(fb)
      ensures Obliging(driver) ==> fb !in fbs
      ensures fb in old(fbs) && old(fbs)[fb].refs == 1 ==> crtcs == old(crtcs) && planes == old(planes) && log == old(log)
      ensures OnlySwept(Local(driver), {fb}, old(crtcs), old(log), crtcs, log)
      ensures |log| - |old(log)| == calls - old(calls) && old(log) <= log
      ensures forall k :: |old(log)| <= k < |log| ==> log[k].shown == Some(fb) && log[k].fb == None
      ensures (forall j :: 0 <= j < |old(crtcs)| ==> old(crtcs)[j].fb != Some(fb)) ==> crtcs == old(crtcs) && calls == old(calls)
      ensures forall j :: 0 <= j < |crtcs| && crtcs[j].fb.Some? ==> crtcs[j] == old(crtcs)[j].(oldFb := crtcs[j].oldFb)
      ensures Local(driver) ==> forall j :: 0 <= j < |crtcs| && old(crtcs)[j].fb != Some(fb) ==> crtcs[j] == old(crtcs)[j].(oldFb := crtcs[j].oldFb)
    {
      SweepIfShared(fb, driver, rel);
      FinishRemove(fb, rel);
      SweptMeans(driver, fb, old(crtcs), old(log), crtcs, log);
    }

    /** A last holder need not look who shows `fb`. */
    method SweepIfShared(fb: Addr, driver: SetConfigFn, ghost rel: Option<File>)
      requires Valid() && Lawful(driver) && pc == Removing(fb, rel)
      modifies this`fbs, this`crtcs, this`crtcRef, this`planes, this`calls, this`log, this`pc, this`path
      ensures Valid() && old(path) <= path && pc == LastPut(fb, rel) && |crtcs| == |old(crtcs)|
      ensures planes == Without(old(planes), fb) && fb !in idr.Values && fb !in onList
      ensures Obliging(driver) ==> !OnScreen(fb)
      ensures fb in old(fbs) && old(fbs)[fb].refs == 1 ==> crtcs == old(crtcs) && planes == old(planes) && log == old(log)
      ensures OnlySwept(Local(driver), {fb}, old(crtcs), old(log), crtcs, log)
    {
      BeginRemove(fb, rel);
      if fbs[fb].refs > 1 {
        TakeOffScreen(fb, driver, rel);
      } else {
        NotSwept(Local(driver), {fb}, crtcs, log);
      }
    }

    /** The final unreference. */
    method FinishRemove(fb: Addr, ghost rel: Option<File>)
      requires Valid() && pc == LastPut(fb, rel) && fb !in idr.Values && fb !in onList && !OnPlane(fb)
      modifies this`fbs, this`pc, this`path
      ensures Valid() && old(path) <= path && pc == AfterRemove(rel)
      ensures (fb in fbs) == OnScreen(fb)
    {
      DropAtEnd(fb, FinalPut, AfterRemove(rel));
      Remains(fb);
    }

    /** __drm_framebuffer_unreference: it must not be the last. */
    method UnreferenceKeep(f: Addr)
      requires f in fbs && fbs[f].refs > 1
      modifies this`fbs
      ensures fbs == old(fbs)[f := old(fbs)[f].(refs := old(fbs)[f].refs - 1)]
    {
      fbs := fbs[f := fbs[f].(refs := fbs[f].refs - 1)];
    }

    /** __drm_framebuffer_unregister and list_del_init; the list's reference passes to the caller. */
    method Unlist(f: Addr, ghost a: Action, ghost next: Pc)
      requires Valid() && f in fbs
      requires Next(Now(), 0, a) == Some(WithPc(Unregister(Now(), f).(onList := onList - {f}), 0, next))
      modifies this`fbs, this`idr, this`onList, this`pc, this`path
      ensures Valid() && old(path) <= path && pc == next
      ensures idr == old(idr) - {old(fbs)[f].id} && onList == old(onList) - {f}
    {
      NoBug(path, Now(), a);
      ghost var s := Now();
      Withdraw(f);
      pc := next;
      Record(s, a);
    }

    method Withdraw(f: Addr)
      requires f in fbs && fbs[f].refs > 1
      modifies this`fbs, this`idr, this`onList
      ensures idr == old(idr) - {old(fbs)[f].id} && onList == old(onList) - {f}
      ensures fbs == Unregister(old(Now()), f).fbs
    {
      idr := idr - {fbs[f].id};
      fbs := fbs[f := fbs[f].(id := 0)];
      UnreferenceKeep(f);
      onList := onList - {f};
    }

    /**
     Refused unless `id` names an object on this file's list.  Otherwise the id is gone, and the
     object unless still shown; nothing but CRTCs that show it is asked to turn off, and with a
     driver that touches no other CRTC the others go on showing what they do.
     */
    method RmFb(file: File, id: nat, driver: SetConfigFn) returns (ok: bool)
      requires Valid() && Lawful(driver) && pc == Idle
      modifies this
      ensures Valid() && old(path) <= path && pc == Idle
      ensures ok <==> id in old(idr) && old(idr)[id] in old(onList) && old(onList)[old(idr)[id]] == file
      ensures !ok ==> Now() == old(Now()) && calls == old(calls)
      ensures ok ==> var fb := old(idr)[id];
                && idr == old(idr) - {id} && onList == old(onList) - {fb}
                && |planes| == |old(planes)|
                && (forall j :: 0 <= j < |planes| ==> planes[j] == if old(planes)[j] == Some(fb) then None else old(planes)[j])
                && (fb in fbs <==> exists j :: 0 <= j < |crtcs| && crtcs[j].fb == Some(fb))
                && ((forall n: nat, before: seq<Crtc>, target: nat, to, x: nat, y: nat, mode :: driver(n, before, target, to, x, y, mode).0) ==> fb !in fbs)
      ensures ok ==> var fb := old(idr)[id];
                && |log| - |old(log)| == calls - old(calls) && old(log) <= log
                && (forall k :: |old(log)| <= k < |log| ==> log[k].shown == Some(fb) && log[k].fb == None)
                && ((forall j :: 0 <= j < |old(crtcs)| ==> old(crtcs)[j].fb != Some(fb)) ==> crtcs == old(crtcs) && calls == old(calls))
      ensures ok ==> var fb := old(idr)[id];
                && |crtcs| == |old(crtcs)|
                && (forall j :: 0 <= j < |crtcs| && crtcs[j].fb.Some? ==> crtcs[j] == old(crtcs)[j].(oldFb := crtcs[j].oldFb))
                && ((forall n: nat, before: seq<Crtc>, target: nat, to, x: nat, y: nat, mode, j: nat :: target < |before| && j < |before| && j != target ==>
                    driver(n, before, target, to, x, y, mode).1[j] == before[j])
                 ==> forall j :: 0 <= j < |crtcs| && old(crtcs)[j].fb != Some(fb) ==>
                      crtcs[j] == old(crtcs)[j].(oldFb := crtcs[j].oldFb))
    {
      if id !in idr || idr[id] !in onList || onList[idr[id]] != file { return false; }
      Alive();
      NamedById(id);
      var fb := idr[id];
      RemoveListed(fb, FbMachine.Action.RmFb(file, id), driver, None);
      SweptMeans(driver, fb, old(crtcs), old(log), crtcs, log);
      return true;
    }

    lemma NamedById(id: nat)
      requires Valid() && id in idr
      ensures idr[id] in fbs && fbs[idr[id]].id == id
    {
      TracedGood(path, Now());
    }

    /** Taken off its list and the id table, and then removed. */
    method RemoveListed(f: Addr, ghost a: Action, driver: SetConfigFn, ghost rel: Option<File>)
      requires Valid() && Lawful(driver) && f in fbs
      requires Next(Now(), 0, a) == Some(WithPc(Unregister(Now(), f).(onList := onList - {f}), 0, Removing(f, rel)))
      modifies this
      ensures Valid() && old(path) <= path && pc == AfterRemove(rel)
      ensures idr == old(idr) - {old(fbs)[f].id} && onList == old(onList) - {f} && planes == Without(old(planes), f)
      ensures f !in idr.Values && (f in fbs) == OnScreen(f)
      ensures (forall n: nat, before: seq<Crtc>, target: nat, to, x: nat, y: nat, mode :: driver(n, before, target, to, x, y, mode).0) ==> f !in fbs
      ensures OnlySwept(Local(driver), {f}, old(crtcs), old(log), crtcs, log)
    {
      Unlist(f, a, Removing(f, rel));
      FramebufferRemove(f, driver, rel);
    }

    /**
     Exactly the file's objects leave the lists, the id table and the planes, and each of them is
     gone unless a CRTC still shows it.  Nothing but CRTCs that show one of them is asked to turn
     off, and with a driver that touches no other CRTC the others go on showing what they do.
     */
    method FbRelease(file: File, driver: SetConfigFn)
      requires Valid() && Lawful(driver) && pc == Idle
      modifies this
      ensures Valid() && old(path) <= path && pc == Idle
      ensures forall f :: f in onList <==> f in old(onList) && old(onList)[f] != file
      ensures forall i :: i in idr <==> i in old(idr) && !(old(idr)[i] in old(onList) && old(onList)[old(idr)[i]] == file)
      ensures forall i :: i in idr ==> idr[i] == old(idr)[i]
      ensures |planes| == |old(planes)|
      ensures forall j :: 0 <= j < |planes| ==>
                planes[j] == if old(planes)[j].Some? && old(planes)[j].value in old(onList) && old(onList)[old(planes)[j].value] == file then None
                             else old(planes)[j]
      ensures forall f :: f in old(onList) && old(onList)[f] == file ==>
                && (f in fbs <==> exists j :: 0 <= j < |crtcs| && crtcs[j].fb == Some(f))
                && (Obliging(driver) ==> f !in fbs)
      ensures |log| - |old(log)| == calls - old(calls) && old(log) <= log
      ensures forall k :: |old(log)| <= k < |log| ==>
                && log[k].fb == None && log[k].shown.Some?
                && log[k].shown.value in old(onList) && old(onList)[log[k].shown.value] == file
      ensures (forall j :: 0 <= j < |old(crtcs)| && old(crtcs)[j].fb.Some? && old(crtcs)[j].fb.value in old(onList) ==>
                  old(onList)[old(crtcs)[j].fb.value] != file)
              ==> crtcs == old(crtcs) && calls == old(calls)
      ensures |crtcs| == |old(crtcs)|
      ensures forall j :: 0 <= j < |crtcs| && crtcs[j].fb.Some? ==> crtcs[j] == old(crtcs)[j].(oldFb := crtcs[j].oldFb)
      ensures (forall n: nat, before: seq<Crtc>, target: nat, to, x: nat, y: nat, mode, j: nat :: target < |before| && j < |before| && j != target ==>
                    driver(n, before, target, to, x, y, mode).1[j] == before[j])
                 ==> forall j :: 0 <= j < |crtcs| ==>
                || (old(crtcs)[j].fb.Some? && old(crtcs)[j].fb.value in old(onList) && old(onList)[old(crtcs)[j].fb.value] == file)
                || crtcs[j] == old(crtcs)[j].(oldFb := crtcs[j].oldFb)
    {
      ghost var s, was := Now(), log;
      ReleaseAll(file, driver);
      DroppedMeans(file, s, Now());
      ReleaseMeans(driver, file, s, was, Now(), log);
    }

    /** The locked section and its loop. */
    method ReleaseAll(file: File, driver: SetConfigFn)
      requires Valid() && Lawful(driver) && pc == Idle
      modifies this
      ensures Valid() && old(path) <= path && pc == Idle
      ensures Removed(driver, FilesObjects(old(onList), file), old(Now()), old(log), Now(), log)
      ensures forall f :: f in FilesObjects(old(onList), file) ==> (f in fbs) == OnScreen(f)
    {
      BeginRelease(file);
      ReleaseLoop(file, driver);
      EndRelease(file);
    }

    ghost method BeginRelease(file: File)
      requires Valid() && pc == Idle
      modifies this`pc, this`path
      ensures Valid() && old(path) <= path && pc == Releasing(file)
    {
      Move(ReleaseBegin(file), Releasing(file));
    }

    ghost method EndRelease(file: File)
      requires Valid() && pc == Releasing(file) && forall f :: f in onList ==> onList[f] != file
      modifies this`pc, this`path
      ensures Valid() && old(path) <= path && pc == Idle
    {
      Move(ReleaseEnd, Idle);
    }

    method ReleaseLoop(file: File, driver: SetConfigFn)
      requires Valid() && Lawful(driver) && pc == Releasing(file)
      modifies this
      ensures Valid() && old(path) <= path && pc == Releasing(file)
      ensures forall f :: f in onList ==> onList[f] != file
      ensures Removed(driver, FilesObjects(old(onList), file), old(Now()), old(log), Now(), log)
      ensures forall f :: f in FilesObjects(old(onList), file) ==> (f in fbs) == OnScreen(f)
    {
      ghost var s, was := Now(), log;
      ghost var done := {};
      NoneRemoved(driver, s, was, s);
      while exists f :: f in onList && onList[f] == file
        invariant Valid() && old(path) <= path && pc == Releasing(file)
        invariant Removed(driver, done, s, was, Now(), log) && done <= FilesObjects(s.onList, file)
        decreases |onList|
      {
        ghost var s1, log1 := Now(), log;
        var f :| f in onList && onList[f] == file;
        ReleaseOne(f, file, driver);
        RemovedThen(driver, done, {f}, s, was, s1, log1, Now(), log);
        done := done + {f};
      }
      assert done == FilesObjects(s.onList, file);
      GoneUnlessShown(driver, done, s, was);
    }

    /** What has been removed is there exactly while a CRTC shows it. */
    lemma GoneUnlessShown(driver: SetConfigFn, done: set<Addr>, s: State, was: seq<Ask>)
      requires Valid() && Lawful(driver) && (pc.Idle? || pc.Releasing?) && Removed(driver, done, s, was, Now(), log)
      ensures forall f :: f in done ==> (f in fbs) == OnScreen(f)
    {
      forall f | f in done ensures (f in fbs) == OnScreen(f) { Remains(f); }
    }

    method ReleaseOne(f: Addr, file: File, driver: SetConfigFn)
      requires Valid() && Lawful(driver) && pc == Releasing(file) && f in onList && onList[f] == file
      modifies this
      ensures Valid() && old(path) <= path && pc == Releasing(file) && onList == old(onList) - {f}
      ensures Removed(driver, {f}, old(Now()), old(log), Now(), log)
    {
      Alive();
      TracedGood(path, Now());
      RemoveListed(f, ReleaseNext(f), driver, Some(file));
      RemovedOne(driver, f, old(Now()), old(log), Now(), log);
    }

    // ---------- setplane ----------

    /** Label out of setplane. */
    method Out(drop: Option<Addr>)
      requires Valid() && pc == Dropping(drop)
      modifies this`fbs, this`pc, this`path
      ensures Valid() && old(path) <= path && pc == Idle && fbs == PutOpt(old(Now()), drop).fbs
    {
      if drop.Some? {
        DropAtEnd(drop.value, Drop, Idle);
      } else {
        Move(Drop, Idle);
      }
    }

    method DisablePlane(plane: nat)
      requires Valid() && pc == Idle && plane < |planes|
      modifies this`fbs, this`planes, this`pc, this`path
      ensures Valid() && old(path) <= path && pc == Idle && planes == old(planes)[plane := None]
    {
      ghost var s := Now();
      var oldFb := planes[plane];
      planes := planes[plane := None];
      pc := Dropping(oldFb);
      Record(s, PlaneDisable(plane));
      Out(oldFb);
    }

    /** ->update_plane, which says `success`, under the modeset locks; what is left over goes back. */
    method UpdatePlane(plane: nat, fb: Addr, success: bool)
      requires Valid() && plane < |planes| && pc == PlaneLooked(plane, fb)
      modifies this`fbs, this`planes, this`pc, this`path
      ensures Valid() && old(path) <= path && pc == Idle
      ensures planes == if success then old(planes)[plane := Some(fb)] else old(planes)
      ensures !success ==> fbs == Put(old(Now()), fb).fbs
    {
      var left := CallUpdatePlane(plane, fb, success);
      Out(left);
    }

    /** Up to the unlocking. */
    method CallUpdatePlane(plane: nat, fb: Addr, success: bool) returns (left: Option<Addr>)
      requires Valid() && plane < |planes| && pc == PlaneLooked(plane, fb)
      modifies this`planes, this`pc, this`path
      ensures Valid() && old(path) <= path && pc == Dropping(left)
      ensures left == if success then old(planes)[plane] else Some(fb)
      ensures planes == if success then old(planes)[plane := Some(fb)] else old(planes)
    {
      ghost var s := Now();
      left := Some(fb);
      if success {
        left := planes[plane];
        planes := planes[plane := Some(fb)];
      }
      pc := Dropping(left);
      Record(s, PlaneUpdate(success));
    }

    ghost method RejectPlane(plane: nat, fb: Addr)
      requires Valid() && pc == PlaneLooked(plane, fb)
      modifies this`pc, this`path
      ensures Valid() && old(path) <= path && pc == Dropping(Some(fb))
    {
      Move(PlaneReject, Dropping(Some(fb)));
    }

    method FindForPlane(plane: nat, id: nat) returns (fb: Option<Addr>)
      requires Valid() && pc == Idle && plane < |planes|
      modifies this`fbs, this`pc, this`path
      ensures Valid() && old(path) <= path
      ensures fb == if id in idr then Some(idr[id]) else None
      ensures if fb == None then Now() == old(Now()) else pc == PlaneLooked(plane, fb.value) && fbs == Get(old(Now()), fb.value).fbs
      ensures fb.Some? ==> fb.value in old(fbs) && old(fbs)[fb.value].refs > 0 && fb.value in fbs
    {
      Alive();
      fb := Lookup(id, PlaneLookup(plane, id), if id in idr then PlaneLooked(plane, idr[id]) else Idle);
    }

    /**
     `formats` are those the plane supports, and `success` is what ->update_plane answers.  The
     framebuffer's sides are shifted in 32 bits before the source is compared with them; so what
     is shown lies inside, and of sides below 65536 all that lies inside can be shown.
     */
    method SetPlane(plane: nat, crtc: nat, r: PlaneRequest, formats: seq<nat>, success: bool) returns (ok: bool)
      requires Valid() && pc == Idle && r.Valid()
      modifies this`fbs, this`planes, this`pc, this`path
      ensures Valid() && old(path) <= path && pc == Idle
      ensures r.fbId == 0 ==> (ok <==> plane < |old(planes)|)
      ensures r.fbId != 0 && (plane >= |old(planes)| || crtc >= |crtcs| || r.fbId !in old(idr)) ==> !ok
      ensures r.fbId != 0 && plane < |old(planes)| && crtc < |crtcs| && r.fbId in old(idr) ==>
                && old(idr)[r.fbId] in old(fbs)
                && var geo := old(fbs)[old(idr)[r.fbId]].geo;
                   ok <==>
                     && success && geo.format in formats
                     && r.srcX + r.srcW <= geo.width * 0x1_0000 % 0x1_0000_0000
                     && r.srcY + r.srcH <= geo.height * 0x1_0000 % 0x1_0000_0000
                     && r.crtcW <= 0x7fff_ffff && r.crtcX + r.crtcW <= 0x7fff_ffff
                     && r.crtcH <= 0x7fff_ffff && r.crtcY + r.crtcH <= 0x7fff_ffff
      ensures ok && r.fbId != 0 ==>
                && r.fbId in old(idr) && old(idr)[r.fbId] in old(fbs)
                && var geo := old(fbs)[old(idr)[r.fbId]].geo;
                   r.srcX + r.srcW <= geo.width * 0x1_0000 && r.srcY + r.srcH <= geo.height * 0x1_0000
      ensures r.fbId != 0 && plane < |old(planes)| && crtc < |crtcs| && r.fbId in old(idr) ==>
                && old(idr)[r.fbId] in old(fbs)
                && var geo := old(fbs)[old(idr)[r.fbId]].geo;
                   geo.width < 0x1_0000 && geo.height < 0x1_0000 ==>
                     (ok <==>
                        && success && geo.format in formats
                        && r.srcX + r.srcW <= geo.width * 0x1_0000 && r.srcY + r.srcH <= geo.height * 0x1_0000
                        && r.crtcW <= 0x7fff_ffff && r.crtcX + r.crtcW <= 0x7fff_ffff
                        && r.crtcH <= 0x7fff_ffff && r.crtcY + r.crtcH <= 0x7fff_ffff)
      ensures ok ==> plane < |old(planes)| && planes == old(planes)[plane := if r.fbId == 0 then None else Some(old(idr)[r.fbId])]
      ensures !ok ==> Now() == old(Now())
    {
      Alive();
      if plane >= |planes| { return false; }
      if r.fbId == 0 {
        DisablePlane(plane);
        return true;
      }
      if crtc >= |crtcs| { return false; }
      ok := SetPlaneTo(plane, r, formats, success);
    }

    /** The id names a framebuffer that passes the tests. */
    predicate Usable(r: PlaneRequest, formats: seq<nat>)
      reads this`fbs, this`idr
    {
      r.fbId in idr && idr[r.fbId] in fbs && PlaneTest(formats, r, fbs[idr[r.fbId]].geo)
    }

    method SetPlaneTo(plane: nat, r: PlaneRequest, formats: seq<nat>, success: bool) returns (ok: bool)
      requires Valid() && pc == Idle && plane < |planes| && r.Valid()
      modifies this`fbs, this`planes, this`pc, this`path
      ensures Valid() && old(path) <= path && pc == Idle
      ensures ok <==> success && old(Usable(r, formats))
      ensures ok ==> r.fbId in idr && planes == old(planes)[plane := Some(idr[r.fbId])]
      ensures !ok ==> Now() == old(Now())
    {
      ghost var s := Now();
      var fb := FindForPlane(plane, r.fbId);
      if fb == None { return false; }
      GivenBack(s, Now(), fb.value);
      if !PlaneTest(formats, r, fbs[fb.value].geo) {
        RejectPlane(plane, fb.value);
        Out(fb);
        return false;
      }
      UpdatePlane(plane, fb.value, success);
      return success;
    }

    // ---------- setcrtc ----------

    /** The framebuffer a request names. */
    function Wanted(c: nat, source: Source): Option<Addr>
      reads this
    {
      match source
      case NoMode => None
      case Current => if c < |crtcs| then crtcs[c].fb else None
      case ById(id) => if id in idr then Some(idr[id]) else None
    }

    /** The request names a framebuffer that can be had, and its viewport lies inside it. */
    predicate MaySet(c: nat, source: Source, x: nat, y: nat, mode: Mode)
      reads this
    {
      c < |crtcs| &&
      var fb := Wanted(c, source);
      (source.NoMode? || fb.Some?) && (fb.Some? ==> fb.value in fbs && Fits(x, y, mode, crtcs[c].invert, fbs[fb.value].geo))
    }

    /** The framebuffer of the request, referenced, or nothing when there is none to be had. */
    method FetchFb(c: nat, source: Source) returns (fb: Option<Addr>, found: bool)
      requires Valid() && c < |crtcs| && pc == CrtcLocked(c)
      modifies this`fbs, this`pc, this`path
      ensures Valid() && old(path) <= path && pc == if found then CrtcHas(c, fb) else CrtcDrop(None)
      ensures fb == Wanted(c, source)
      ensures found <==> source.NoMode? || fb.Some?
      ensures fb.Some? ==> fb.value in fbs && fb.value in old(fbs) && fbs[fb.value].geo == old(fbs)[fb.value].geo
      ensures if fb.Some? then fbs == Get(old(Now()), fb.value).fbs && old(fbs)[fb.value].refs > 0 else fbs == old(fbs)
    {
      WantedAlive(c, source);
      match source
      case NoMode =>
        Move(CrtcFetch(source), CrtcHas(c, None));
        return None, true;
      case Current =>
        fb := crtcs[c].fb;
        if fb == None {
          Move(CrtcFetch(source), CrtcDrop(None));
          return None, false;
        }
        ReferenceCurrent(c);
        return fb, true;
      case ById(id) =>
        fb := Lookup(id, CrtcFetch(source), if id in idr then CrtcHas(c, Some(idr[id])) else Idle);
        if fb == None {
          Move(CrtcFetch(source), CrtcDrop(None));
          return None, false;
        }
        return fb, true;
    }

    lemma WantedAlive(c: nat, source: Source)
      requires Valid() && c < |crtcs|
      ensures var fb := Wanted(c, source); fb.Some? ==> fb.value in fbs && fbs[fb.value].refs > 0
    {
      Alive();
      if source.Current? && crtcs[c].fb.Some? { ShownAlive(c); }
    }

    /** The framebuffer now bound gets a reference of the ioctl's own, as one that was looked up has. */
    method ReferenceCurrent(c: nat)
      requires Valid() && c < |crtcs| && pc == CrtcLocked(c) && crtcs[c].fb.Some?
      modifies this`fbs, this`pc, this`path
      ensures Valid() && old(path) <= path && pc == CrtcHas(c, crtcs[c].fb)
      ensures var f := crtcs[c].fb.value; f in fbs && f in old(fbs) && fbs[f].geo == old(fbs)[f].geo && fbs == Get(old(Now()), f).fbs
    {
      NoBug(path, Now(), CrtcFetch(Current));
      ghost var s := Now();
      Reference(crtcs[c].fb.value);
      pc := CrtcHas(c, crtcs[c].fb);
      Record(s, CrtcFetch(Current));
    }

    ghost method BeginSetCrtc(c: nat)
      requires Valid() && pc == Idle && c < |crtcs|
      modifies this`pc, this`path
      ensures Valid() && old(path) <= path && pc == CrtcLocked(c)
    {
      Move(CrtcLock(c), CrtcLocked(c));
    }

    ghost method RejectCrtc(c: nat, fb: Option<Addr>)
      requires Valid() && pc == CrtcHas(c, fb)
      modifies this`pc, this`path
      ensures Valid() && old(path) <= path && pc == CrtcDrop(fb)
    {
      Move(CrtcReject, CrtcDrop(fb));
    }

    /** Label out of setcrtc. */
    method UnlockCrtc(fb: Option<Addr>)
      requires Valid() && pc == CrtcDrop(fb)
      modifies this`fbs, this`pc, this`path
      ensures Valid() && old(path) <= path && pc == Idle && fbs == PutOpt(old(Now()), fb).fbs
    {
      if fb.Some? {
        DropAtEnd(fb.value, CrtcUnlock, Idle);
      } else {
        Move(CrtcUnlock, Idle);
      }
    }

    /**
     `connectors` are the ids of the device's connectors.  The CRTCs are as the driver left
     them when it was called; when it was not, nothing at all has changed.
     */
    method SetCrtc(c: nat, source: Source, x: nat, y: nat, mode: Mode, r: CrtcRequest, connectors: set<nat>, driver: SetConfigFn)
      returns (called: bool, ok: bool)
      requires Valid() && Lawful(driver) && pc == Idle && |r.ids| == r.count
      modifies this`fbs, this`crtcs, this`crtcRef, this`calls, this`log, this`pc, this`path
      ensures Valid() && old(path) <= path && pc == Idle
      ensures source.NoMode? ==> (called <==> c < |old(crtcs)| && x <= 0x7fff_ffff && y <= 0x7fff_ffff && r.count == 0)
      ensures !source.NoMode? ==>
                (called <==>
                   && c < |old(crtcs)| && x <= 0x7fff_ffff && y <= 0x7fff_ffff
                   && r.modeMade && r.clock <= 0x7fff_ffff && r.vrefresh <= 0x7fff_ffff
                   && 0 < r.count <= |connectors| && r.memory
                   && (forall i :: 0 <= i < r.count ==> r.ids[i].Some? && r.ids[i].value in connectors)
                   && (if source.Current? then old(crtcs)[c].fb.Some? else source.id in old(idr))
                   && var fb, crtc := if source.Current? then old(crtcs)[c].fb.value else old(idr)[source.id], old(crtcs)[c];
                      && fb in old(fbs)
                      && x + (if crtc.invert then mode.vdisplay else mode.hdisplay) <= old(fbs)[fb].geo.width
                      && y + (if crtc.invert then mode.hdisplay else mode.vdisplay) <= old(fbs)[fb].geo.height)
      ensures !called ==> !ok && Now() == old(Now())
      ensures calls == old(calls) + (if called then 1 else 0)
      ensures called ==> c < |old(crtcs)| && (source.ById? ==> source.id in old(idr))
      ensures called ==> (ok, crtcs) == driver(old(calls), SaveOld(old(crtcs)), c,
                                               if source.NoMode? then None else if source.Current? then old(crtcs)[c].fb else Some(old(idr)[source.id]),
                                               x, y, mode)
    {
      var sound := TestCrtc(source, x, y, r, connectors);
      if c >= |crtcs| { return false, false; }
      BeginSetCrtc(c);
      called, ok := SetCrtcTo(c, source, x, y, mode, sound, driver);
    }

    /** Everything under the modeset locks. */
    method SetCrtcTo(c: nat, source: Source, x: nat, y: nat, mode: Mode, sound: bool, driver: SetConfigFn) returns (called: bool, ok: bool)
      requires Valid() && Lawful(driver) && c < |crtcs| && pc == CrtcLocked(c)
      modifies this`fbs, this`crtcs, this`crtcRef, this`calls, this`log, this`pc, this`path
      ensures Valid() && old(path) <= path && pc == Idle
      ensures called <==> sound && old(MaySet(c, source, x, y, mode))
      ensures calls == old(calls) + (if called then 1 else 0)
      ensures !called ==> !ok && crtcs == old(crtcs) && crtcRef == old(crtcRef) && fbs == old(fbs)
      ensures called ==> (ok, crtcs) == driver(old(calls), SaveOld(old(crtcs)), c, old(Wanted(c, source)), x, y, mode)
    {
      ghost var s := Now();
      var fb, found := FetchFb(c, source);
      if fb.Some? { GivenBack(s, Now(), fb.value); }
      if !found {
        UnlockCrtc(None);
        return false, false;
      }
      if !sound || (fb.Some? && !Fits(x, y, mode, crtcs[c].invert, fbs[fb.value].geo)) {
        RefuseCrtc(c, fb);
        return false, false;
      }
      called := true;
      ok := CommitCrtc(c, fb, x, y, mode, driver);
    }

    /** The way out when the request does not stand the tests. */
    method RefuseCrtc(c: nat, fb: Option<Addr>)
      requires Valid() && pc == CrtcHas(c, fb)
      modifies this`fbs, this`pc, this`path
      ensures Valid() && old(path) <= path && pc == Idle && fbs == PutOpt(old(Now()), fb).fbs
    {
      RejectCrtc(c, fb);
      UnlockCrtc(fb);
    }

    /** The call of drm_mode_set_config_internal and the way out. */
    method CommitCrtc(c: nat, fb: Option<Addr>, x: nat, y: nat, mode: Mode, driver: SetConfigFn) returns (ok: bool)
      requires Valid() && Lawful(driver) && pc == CrtcHas(c, fb) && c < |crtcs|
      requires fb.Some? ==> fb.value in fbs && Fits(x, y, mode, crtcs[c].invert, fbs[fb.value].geo)
      modifies this`fbs, this`crtcs, this`crtcRef, this`calls, this`log, this`pc, this`path
      ensures Valid() && old(path) <= path && pc == Idle
      ensures (ok, crtcs) == driver(old(calls), SaveOld(old(crtcs)), c, fb, x, y, mode) && calls == old(calls) + 1
    {
      Matched();
      ok := SetConfigInternal(c, fb, x, y, mode, driver);
      UnlockCrtc(fb);
    }

    // ---------- page flip ----------

    ghost method BeginFlip(c: nat)
      requires Valid() && pc == Idle && c < |crtcs|
      modifies this`pc, this`path
      ensures Valid() && old(path) <= path && pc == FlipLocked(c)
    {
      Move(FlipLock(c), FlipLocked(c));
    }

    ghost method AbortFlip(c: nat)
      requires Valid() && pc == FlipLocked(c)
      modifies this`pc, this`path
      ensures Valid() && old(path) <= path && pc == Idle
    {
      Move(FlipAbort, Idle);
    }

    method FindForFlip(c: nat, id: nat) returns (fb: Option<Addr>)
      requires Valid() && pc == FlipLocked(c) && c < |crtcs| && crtcs[c].fb.Some?
      modifies this`fbs, this`pc, this`path
      ensures Valid() && old(path) <= path
      ensures fb == if id in idr then Some(idr[id]) else None
      ensures if fb == None then Now() == old(Now()) else pc == FlipHas(c, fb.value) && fbs == Get(old(Now()), fb.value).fbs
      ensures fb.Some? ==> fb.value in old(fbs) && old(fbs)[fb.value].refs > 0
      ensures fb.Some? ==> fb.value in fbs && old(MayFlip(c, id)) == (crtcs[c].fb.value in fbs && Flippable(c, fb.value))
    {
      fb := LookupForFlip(c, id);
      if fb.Some? { GeoKept(old(Now()), fb.value, crtcs[c].fb.value, Now()); }
    }

    method LookupForFlip(c: nat, id: nat) returns (fb: Option<Addr>)
      requires Valid() && pc == FlipLocked(c) && c < |crtcs| && crtcs[c].fb.Some?
      modifies this`fbs, this`pc, this`path
      ensures Valid() && old(path) <= path
      ensures fb == if id in idr then Some(idr[id]) else None
      ensures if fb == None then Now() == old(Now()) else pc == FlipHas(c, fb.value) && fbs == Get(old(Now()), fb.value).fbs
      ensures fb.Some? ==> fb.value in old(fbs) && old(fbs)[fb.value].refs > 0
      ensures crtcs[c].fb.value in old(fbs)
    {
      ShownAlive(c);
      Alive();
      fb := Lookup(id, FlipLookup(id), if id in idr then FlipHas(c, idr[id]) else Idle);
    }

    /** A reference taken changes no object's size and format. */
    lemma GeoKept(s: State, f: Addr, g: Addr, s': State)
      requires f in s.fbs && g in s.fbs && s'.fbs == Get(s, f).fbs
      ensures f in s'.fbs && g in s'.fbs && s'.fbs[f].geo == s.fbs[f].geo && s'.fbs[g].geo == s.fbs[g].geo
    {
    }

    /** What a CRTC shows is alive. */
    lemma ShownAlive(c: nat)
      requires Valid() && c < |crtcs| && crtcs[c].fb.Some?
      ensures crtcs[c].fb.value in fbs && |crtcs| == |crtcRef|
    {
      TracedGood(path, Now());
      ShownIsAliveAndFits(Now(), c);
    }

    ghost method RejectFlip(c: nat, fb: Addr)
      requires Valid() && pc == FlipHas(c, fb)
      modifies this`pc, this`path
      ensures Valid() && old(path) <= path && pc == FlipDrop(c, fb)
    {
      Move(FlipReject, FlipDrop(c, fb));
    }

    /** May this CRTC flip to `fb`: its viewport inside, and the format unchanged? */
    predicate Flippable(c: nat, fb: Addr)
      requires c < |crtcs| && crtcs[c].fb.Some? && crtcs[c].fb.value in fbs && fb in fbs
      reads this
    {
      Fits(crtcs[c].x, crtcs[c].y, crtcs[c].mode, crtcs[c].invert, fbs[fb].geo)
      && fbs[crtcs[c].fb.value].geo.format == fbs[fb].geo.format
    }

    predicate MayFlip(c: nat, id: nat)
      reads this
    {
      c < |crtcs| && crtcs[c].fb.Some? && crtcs[c].fb.value in fbs && id in idr && idr[id] in fbs && Flippable(c, idr[id])
    }

    /** ->page_flip, which says `success`, and the unreference of whichever framebuffer is not shown. */
    method CommitFlip(c: nat, fb: Addr, success: bool)
      requires Valid() && pc == FlipHas(c, fb) && c < |crtcs| == |crtcRef|
      requires crtcs[c].fb.Some? && crtcs[c].fb.value in fbs && fb in fbs && Flippable(c, fb)
      modifies this`fbs, this`crtcs, this`crtcRef, this`pc, this`path
      ensures Valid() && old(path) <= path && pc == Idle
      ensures crtcs == if success then old(crtcs)[c := old(crtcs)[c].(fb := Some(fb))] else old(crtcs)
      ensures !success ==> crtcRef == old(crtcRef) && fbs == Put(old(Now()), fb).fbs
    {
      var left := CallPageFlip(c, fb, success);
      UnlockFlip(c, left);
    }

    lemma FlipMoves(s: State, c: nat, fb: Addr, success: bool)
      requires |s.threads| == 1 && s.threads[0] == FlipHas(c, fb) && c < |s.crtcs| == |s.crtcRef|
      requires s.crtcs[c].fb.Some? && s.crtcs[c].fb.value in s.fbs && fb in s.fbs
      requires Fits(s.crtcs[c].x, s.crtcs[c].y, s.crtcs[c].mode, s.crtcs[c].invert, s.fbs[fb].geo)
      requires s.fbs[s.crtcs[c].fb.value].geo.format == s.fbs[fb].geo.format
      ensures Next(s, 0, FlipCommit(success)) == Some(
                if success then s.(crtcs := s.crtcs[c := s.crtcs[c].(fb := Some(fb))], crtcRef := s.crtcRef[c := Some(fb)],
                                   threads := s.threads[0 := FlipDrop(c, s.crtcs[c].fb.value)])
                else s.(threads := s.threads[0 := FlipDrop(c, fb)]))
    {
    }

    method CallPageFlip(c: nat, fb: Addr, success: bool) returns (left: Addr)
      requires Valid() && pc == FlipHas(c, fb) && c < |crtcs| == |crtcRef|
      requires crtcs[c].fb.Some? && crtcs[c].fb.value in fbs && fb in fbs && Flippable(c, fb)
      modifies this`crtcs, this`crtcRef, this`pc, this`path
      ensures Valid() && old(path) <= path && pc == FlipDrop(c, left)
      ensures crtcs == if success then old(crtcs)[c := old(crtcs)[c].(fb := Some(fb))] else old(crtcs)
      ensures left == if success then old(crtcs)[c].fb.value else fb
      ensures !success ==> crtcRef == old(crtcRef)
    {
      ghost var s := Now();
      FlipMoves(s, c, fb, success);
      left := fb;
      if success {
        left := crtcs[c].fb.value;
        crtcs := crtcs[c := crtcs[c].(fb := Some(fb))];
        crtcRef := crtcRef[c := Some(fb)];
      }
      pc := FlipDrop(c, left);
      Record(s, FlipCommit(success));
    }

    method UnlockFlip(c: nat, fb: Addr)
      requires Valid() && pc == FlipDrop(c, fb)
      modifies this`fbs, this`pc, this`path
      ensures Valid() && old(path) <= path && pc == Idle && fbs == Put(old(Now()), fb).fbs
    {
      DropAtEnd(fb, FlipUnlock, Idle);
    }

    /** The file has room for an event of `size` bytes, and it can be allocated, if one is asked for. */
    predicate MayPost(r: FlipRequest, file: EventQueue, size: nat, memory: bool)
      reads file
    {
      r.event ==> file.space >= size && memory
    }

    /** `hook` says whether the driver has a ->page_flip, `success` what it answers. */
    method PageFlip(c: nat, id: nat, r: FlipRequest, hook: bool, file: EventQueue, size: nat, memory: bool, success: bool) returns (ok: bool)
      requires Valid() && pc == Idle
      modifies this`fbs, this`crtcs, this`crtcRef, this`pc, this`path, file
      ensures Valid() && old(path) <= path && pc == Idle
      ensures ok <==>
                && !r.strange && r.reserved == 0 && hook && success
                && c < |old(crtcs)| && old(crtcs)[c].fb.Some? && id in old(idr)
                && old(crtcs)[c].fb.value in old(fbs) && old(idr)[id] in old(fbs)
                && (var crtc, shown, geo := old(crtcs)[c], old(fbs)[old(crtcs)[c].fb.value].geo, old(fbs)[old(idr)[id]].geo;
                    && shown.format == geo.format
                    && crtc.x + (if crtc.invert then crtc.mode.vdisplay else crtc.mode.hdisplay) <= geo.width
                    && crtc.y + (if crtc.invert then crtc.mode.hdisplay else crtc.mode.vdisplay) <= geo.height)
                && (r.event ==> old(file.space) >= size && memory)
      ensures ok && r.event ==> old(file.space) >= size && file.space == old(file.space) - size
      ensures !(ok && r.event) ==> file.space == old(file.space)
      ensures ok ==> c < |old(crtcs)| && id in idr && crtcs == old(crtcs)[c := old(crtcs)[c].(fb := Some(idr[id]))]
      ensures !ok ==> Now() == old(Now())
    {
      if r.strange || r.reserved != 0 { return false; }
      if c >= |crtcs| { return false; }
      BeginFlip(c);
      if crtcs[c].fb == None || !hook {
        AbortFlip(c);
        return false;
      }
      ok := FlipTo(c, id, r, file, size, memory, success);
    }

    /** From the lookup on. */
    method FlipTo(c: nat, id: nat, r: FlipRequest, file: EventQueue, size: nat, memory: bool, success: bool) returns (ok: bool)
      requires Valid() && pc == FlipLocked(c) && c < |crtcs| && crtcs[c].fb.Some?
      modifies this`fbs, this`crtcs, this`crtcRef, this`pc, this`path, file
      ensures Valid() && old(path) <= path && pc == Idle
      ensures ok <==> success && old(MayFlip(c, id)) && old(MayPost(r, file, size, memory))
      ensures ok && r.event ==> old(file.space) >= size && file.space == old(file.space) - size
      ensures !(ok && r.event) ==> file.space == old(file.space)
      ensures ok ==> id in idr && crtcs == old(crtcs)[c := old(crtcs)[c].(fb := Some(idr[id]))]
      ensures !ok ==> fbs == old(fbs) && crtcs == old(crtcs) && crtcRef == old(crtcRef)
    {
      ghost var s := Now();
      var fb := FindForFlip(c, id);
      if fb == None {
        AbortFlip(c);
        return false;
      }
      GivenBack(s, Now(), fb.value);
      ShownAlive(c);
      if !Flippable(c, fb.value) {
        RefuseFlip(c, fb.value);
        return false;
      }
      ok := PostAndFlip(c, fb.value, r, file, size, memory, success);
    }

    /** The way out when the framebuffer or the event does not stand the tests. */
    method RefuseFlip(c: nat, fb: Addr)
      requires Valid() && pc == FlipHas(c, fb)
      modifies this`fbs, this`pc, this`path
      ensures Valid() && old(path) <= path && pc == Idle && fbs == Put(old(Now()), fb).fbs
    {
      RejectFlip(c, fb);
      UnlockFlip(c, fb);
    }

    /** The event and the flip. */
    method PostAndFlip(c: nat, fb: Addr, r: FlipRequest, file: EventQueue, size: nat, memory: bool, success: bool) returns (ok: bool)
      requires Valid() && pc == FlipHas(c, fb) && c < |crtcs| == |crtcRef|
      requires crtcs[c].fb.Some? && crtcs[c].fb.value in fbs && fb in fbs && Flippable(c, fb)
      modifies this`fbs, this`crtcs, this`crtcRef, this`pc, this`path, file
      ensures Valid() && old(path) <= path && pc == Idle
      ensures ok <==> success && old(MayPost(r, file, size, memory))
      ensures ok && r.event ==> old(file.space) >= size && file.space == old(file.space) - size
      ensures !(ok && r.event) ==> file.space == old(file.space)
      ensures crtcs == if ok then old(crtcs)[c := old(crtcs)[c].(fb := Some(fb))] else old(crtcs)
      ensures !ok ==> crtcRef == old(crtcRef) && fbs == Put(old(Now()), fb).fbs
    {
      if r.event {
        var reserved := file.Reserve(size, memory);
        if !reserved {
          RefuseFlip(c, fb);
          return false;
        }
      }
      CommitFlip(c, fb, success);
      if !success && r.event { file.GiveBack(size); }
      return success;
    }
  }
}
