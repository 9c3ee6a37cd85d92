/**
 drm_crtc.c: what taking framebuffers off the screen may do to the CRTCs.  Each call of
 ->set_config is for a CRTC that shows one of them, and asks for no framebuffer.
 */
module FbSweep {
  import opened Options
  import opened FbMachine
  import opened FbInvariant

  /** One call of a ->set_config; `n` tells calls apart. */
  type SetConfigFn = (nat, seq<Crtc>, nat, Option<Addr>, nat, nat, Mode) -> (bool, seq<Crtc>)

  /** The driver keeps to what drm_mode_set_config_internal expects of it. */
  ghost predicate Lawful(driver: SetConfigFn) {
    forall n: nat, before: seq<Crtc>, target: nat, fb, x: nat, y: nat, mode :: target < |before| ==>
      DriverMay(before, target, fb, x, y, mode, driver(n, before, target, fb, x, y, mode).0, driver(n, before, target, fb, x, y, mode).1)
  }

  /** A driver whose ->set_config never fails. */
  ghost predicate Obliging(driver: SetConfigFn) {
    forall n: nat, before: seq<Crtc>, target: nat, fb, x: nat, y: nat, mode ::
      driver(n, before, target, fb, x, y, mode).0
  }

  /** A driver that never turns another CRTC off. */
  ghost predicate Local(driver: SetConfigFn)
    requires Lawful(driver)
  {
    forall n: nat, before: seq<Crtc>, target: nat, fb, x: nat, y: nat, mode, j: nat :: target < |before| && j < |before| && j != target ==>
      driver(n, before, target, fb, x, y, mode).1[j] == before[j]
  }

  /** A call of ->set_config: for which CRTC, what that showed, and the framebuffer it was asked to show. */
  datatype Ask = Ask(target: nat, shown: Option<Addr>, fb: Option<Addr>)

  predicate Shows(crtc: Crtc, gone: set<Addr>) {
    crtc.fb.Some? && crtc.fb.value in gone
  }

  /** The same but for the scratch field. */
  predicate Alike(was: Crtc, now: Crtc) {
    now == was.(oldFb := now.oldFb)
  }

  predicate TurnsOff(ask: Ask, gone: set<Addr>) {
    ask.shown.Some? && ask.shown.value in gone && ask.fb == None
  }

  predicate NoneShows(crtcs: seq<Crtc>, gone: set<Addr>) {
    forall j :: 0 <= j < |crtcs| ==> !Shows(crtcs[j], gone)
  }

  /** From `was` to `now` all that was asked of the driver, one that is local if `tame`, was to turn off CRTCs that show an object of `gone`. */
  ghost predicate OnlySwept(tame: bool, gone: set<Addr>, was: seq<Crtc>, wasLog: seq<Ask>, now: seq<Crtc>, nowLog: seq<Ask>) {
    && |now| == |was| && wasLog <= nowLog
    && (forall k :: |wasLog| <= k < |nowLog| ==> TurnsOff(nowLog[k], gone))
    && (NoneShows(was, gone) ==> now == was && nowLog == wasLog)
    && (forall j :: 0 <= j < |was| ==> now[j].fb == None || Alike(was[j], now[j]))
    && (tame ==> forall j :: 0 <= j < |was| ==> Shows(was[j], gone) || Alike(was[j], now[j]))
  }

  /** One call: CRTC `target`, which shows `fb`, is to be turned off. */
  lemma SweptOne(driver: SetConfigFn, n: nat, was: seq<Crtc>, log: seq<Ask>, target: nat, fb: Addr, now: seq<Crtc>)
    requires Lawful(driver) && target < |was| && was[target].fb == Some(fb)
    requires now == driver(n, SaveOld(was), target, None, 0, 0, Mode(0, 0)).1
    ensures OnlySwept(Local(driver), {fb}, was, log, now, log + [Ask(target, Some(fb), None)])
  {
    var ok := driver(n, SaveOld(was), target, None, 0, 0, Mode(0, 0)).0;
    assert DriverMay(SaveOld(was), target, None, 0, 0, Mode(0, 0), ok, now);
    assert Shows(was[target], {fb});
    forall j | 0 <= j < |was| ensures now[j].fb == None || Alike(was[j], now[j]) {
      assert KeptOrOff(SaveOld(was)[j], now[j]) || now[j].fb == None;
    }
  }

  lemma SweptThen(tame: bool, p: set<Addr>, q: set<Addr>, gone: set<Addr>,
                  a: seq<Crtc>, aLog: seq<Ask>, b: seq<Crtc>, bLog: seq<Ask>, c: seq<Crtc>, cLog: seq<Ask>)
    requires OnlySwept(tame, p, a, aLog, b, bLog) && OnlySwept(tame, q, b, bLog, c, cLog) && p <= gone && q <= gone
    ensures OnlySwept(tame, gone, a, aLog, c, cLog)
  {
    forall k | |aLog| <= k < |cLog| ensures TurnsOff(cLog[k], gone) {
      if k < |bLog| { assert cLog[k] == bLog[k]; }
    }
    if NoneShows(a, gone) { assert NoneShows(a, p) && NoneShows(b, q); }
    forall j | 0 <= j < |a| ensures c[j].fb == None || Alike(a[j], c[j]) {
      assert b[j].fb == None || Alike(a[j], b[j]);
      assert c[j].fb == None || Alike(b[j], c[j]);
    }
    if tame {
      forall j | 0 <= j < |a| ensures Shows(a[j], gone) || Alike(a[j], c[j]) {
        assert Shows(a[j], p) || Alike(a[j], b[j]);
        assert Shows(b[j], q) || Alike(b[j], c[j]);
      }
    }
  }

  lemma NotSwept(tame: bool, gone: set<Addr>, was: seq<Crtc>, log: seq<Ask>)
    ensures OnlySwept(tame, gone, was, log, was, log)
  {
  }

  // ---------- removal ----------

  function Without(planes: seq<Option<Addr>>, fb: Addr): (r: seq<Option<Addr>>)
    ensures |r| == |planes| && forall j :: 0 <= j < |r| ==> r[j] == if planes[j] == Some(fb) then None else planes[j]
  {
    seq(|planes|, j requires 0 <= j < |planes| => if planes[j] == Some(fb) then None else planes[j])
  }

  /** Ids, lists and planes without the objects of `gone`. */
  ghost predicate Dropped(gone: set<Addr>, s: State, s': State) {
    && (forall f :: f in s'.onList <==> f in s.onList && f !in gone)
    && (forall f :: f in s'.onList ==> s'.onList[f] == s.onList[f])
    && (forall i :: i in s'.idr <==> i in s.idr && s.idr[i] !in gone)
    && (forall i :: i in s'.idr ==> s'.idr[i] == s.idr[i])
    && |s'.planes| == |s.planes|
    && (forall j :: 0 <= j < |s.planes| ==>
          s'.planes[j] == if s.planes[j].Some? && s.planes[j].value in gone then None else s.planes[j])
  }

  /** The objects of `gone` have been removed, and nothing else has been done. */
  ghost predicate Removed(driver: SetConfigFn, gone: set<Addr>, s: State, log: seq<Ask>, s': State, log': seq<Ask>)
    requires Lawful(driver)
  {
    && Dropped(gone, s, s')
    && OnlySwept(Local(driver), gone, s.crtcs, log, s'.crtcs, log')
    && (Obliging(driver) ==> NoneShows(s'.crtcs, gone))
  }

  lemma RemovedOne(driver: SetConfigFn, f: Addr, s: State, log: seq<Ask>, s': State, log': seq<Ask>)
    requires Lawful(driver) && TableOk(s) && f in s.fbs
    requires s'.idr == s.idr - {s.fbs[f].id} && s'.onList == s.onList - {f} && s'.planes == Without(s.planes, f)
    requires OnlySwept(Local(driver), {f}, s.crtcs, log, s'.crtcs, log')
    requires Obliging(driver) ==> forall j :: 0 <= j < |s'.crtcs| ==> s'.crtcs[j].fb != Some(f)
    ensures Removed(driver, {f}, s, log, s', log')
  {
    forall i ensures i in s'.idr <==> i in s.idr && s.idr[i] !in {f} {
      if i in s.idr { assert s.fbs[s.idr[i]].id == i; }
    }
  }

  lemma NoneRemoved(driver: SetConfigFn, s: State, log: seq<Ask>, s': State)
    requires Lawful(driver) && s'.onList == s.onList && s'.idr == s.idr && s'.planes == s.planes && s'.crtcs == s.crtcs
    ensures Removed(driver, {}, s, log, s', log)
  {
    NotSwept(Local(driver), {}, s.crtcs, log);
  }

  lemma DroppedThen(p: set<Addr>, q: set<Addr>, a: State, b: State, c: State)
    requires Dropped(p, a, b) && Dropped(q, b, c)
    ensures Dropped(p + q, a, c)
  {
  }

  /** What shows nothing of `gone` does not come to show it. */
  lemma StaysDark(tame: bool, gone: set<Addr>, done: set<Addr>, was: seq<Crtc>, log: seq<Ask>, now: seq<Crtc>, nowLog: seq<Ask>)
    requires OnlySwept(tame, gone, was, log, now, nowLog) && NoneShows(was, done)
    ensures NoneShows(now, done)
  {
    forall j | 0 <= j < |now| ensures !Shows(now[j], done) {
      assert !Shows(was[j], done);
      assert now[j].fb == None || Alike(was[j], now[j]);
    }
  }

  lemma RemovedThen(driver: SetConfigFn, p: set<Addr>, q: set<Addr>, a: State, aLog: seq<Ask>, b: State, bLog: seq<Ask>, c: State, cLog: seq<Ask>)
    requires Lawful(driver) && Removed(driver, p, a, aLog, b, bLog) && Removed(driver, q, b, bLog, c, cLog)
    ensures Removed(driver, p + q, a, aLog, c, cLog)
  {
    DroppedThen(p, q, a, b, c);
    SweptThen(Local(driver), p, q, p + q, a.crtcs, aLog, b.crtcs, bLog, c.crtcs, cLog);
    if Obliging(driver) {
      StaysDark(Local(driver), q, p, b.crtcs, bLog, c.crtcs, cLog);
      assert NoneShows(c.crtcs, p) && NoneShows(c.crtcs, q);
      forall j | 0 <= j < |c.crtcs| ensures !Shows(c.crtcs[j], p + q) {
        assert !Shows(c.crtcs[j], p) && !Shows(c.crtcs[j], q);
      }
    }
  }

  // ---------- what that says ----------

  lemma SweptMeans(driver: SetConfigFn, fb: Addr, was: seq<Crtc>, wasLog: seq<Ask>, now: seq<Crtc>, nowLog: seq<Ask>)
    requires Lawful(driver) && OnlySwept(Local(driver), {fb}, was, wasLog, now, nowLog)
    ensures |now| == |was| && wasLog <= nowLog
    ensures forall k :: |wasLog| <= k < |nowLog| ==> nowLog[k].shown == Some(fb) && nowLog[k].fb == None
    ensures (forall j :: 0 <= j < |was| ==> was[j].fb != Some(fb)) ==> now == was && nowLog == wasLog
    ensures forall j :: 0 <= j < |now| && now[j].fb.Some? ==> now[j] == was[j].(oldFb := now[j].oldFb)
    ensures Local(driver) ==> forall j :: 0 <= j < |now| && was[j].fb != Some(fb) ==> now[j] == was[j].(oldFb := now[j].oldFb)
  {
    forall k | |wasLog| <= k < |nowLog| ensures nowLog[k].shown == Some(fb) && nowLog[k].fb == None {
      assert TurnsOff(nowLog[k], {fb});
    }
    if forall j :: 0 <= j < |was| ==> was[j].fb != Some(fb) { assert NoneShows(was, {fb}); }
    forall j | 0 <= j < |now| && now[j].fb.Some? ensures now[j] == was[j].(oldFb := now[j].oldFb) { assert Alike(was[j], now[j]); }
    if Local(driver) {
      forall j | 0 <= j < |now| && was[j].fb != Some(fb) ensures now[j] == was[j].(oldFb := now[j].oldFb) {
        assert Shows(was[j], {fb}) || Alike(was[j], now[j]);
      }
    }
  }

  /** The objects on a file's list. */
  ghost function FilesObjects(onList: map<Addr, File>, file: File): set<Addr> {
    set f | f in onList && onList[f] == file
  }

  lemma DroppedMeans(file: File, s: State, s': State)
    requires Dropped(FilesObjects(s.onList, file), s, s')
    ensures forall f :: f in s'.onList <==> f in s.onList && s.onList[f] != file
    ensures forall i :: i in s'.idr <==> i in s.idr && !(s.idr[i] in s.onList && s.onList[s.idr[i]] == file)
    ensures forall i :: i in s'.idr ==> s'.idr[i] == s.idr[i]
    ensures |s'.planes| == |s.planes|
    ensures forall j :: 0 <= j < |s.planes| ==>
              s'.planes[j] == if s.planes[j].Some? && s.planes[j].value in s.onList && s.onList[s.planes[j].value] == file then None else s.planes[j]
  {
  }

  lemma ReleaseMeans(driver: SetConfigFn, file: File, s: State, log: seq<Ask>, s': State, log': seq<Ask>)
    requires Lawful(driver) && Removed(driver, FilesObjects(s.onList, file), s, log, s', log')
    ensures |s'.crtcs| == |s.crtcs| && log <= log'
    ensures forall k :: |log| <= k < |log'| ==>
              && log'[k].fb == None && log'[k].shown.Some?
              && log'[k].shown.value in s.onList && s.onList[log'[k].shown.value] == file
    ensures (forall j :: 0 <= j < |s.crtcs| && s.crtcs[j].fb.Some? && s.crtcs[j].fb.value in s.onList ==> s.onList[s.crtcs[j].fb.value] != file)
            ==> s'.crtcs == s.crtcs && log' == log
    ensures forall j :: 0 <= j < |s'.crtcs| && s'.crtcs[j].fb.Some? ==> s'.crtcs[j] == s.crtcs[j].(oldFb := s'.crtcs[j].oldFb)
    ensures Local(driver) ==> forall j :: 0 <= j < |s'.crtcs| ==>
              || (s.crtcs[j].fb.Some? && s.crtcs[j].fb.value in s.onList && s.onList[s.crtcs[j].fb.value] == file)
              || s'.crtcs[j] == s.crtcs[j].(oldFb := s'.crtcs[j].oldFb)
    ensures Obliging(driver) ==> forall j :: 0 <= j < |s'.crtcs| && s'.crtcs[j].fb.Some? && s'.crtcs[j].fb.value in s.onList ==>
              s.onList[s'.crtcs[j].fb.value] != file
  {
    var gone := FilesObjects(s.onList, file);
    forall k | |log| <= k < |log'|
      ensures log'[k].fb == None && log'[k].shown.Some? && log'[k].shown.value in gone
    {
      assert TurnsOff(log'[k], gone);
    }
    if forall j :: 0 <= j < |s.crtcs| && s.crtcs[j].fb.Some? && s.crtcs[j].fb.value in s.onList ==> s.onList[s.crtcs[j].fb.value] != file {
      assert NoneShows(s.crtcs, gone);
    }
    forall j | 0 <= j < |s'.crtcs| && s'.crtcs[j].fb.Some? ensures s'.crtcs[j] == s.crtcs[j].(oldFb := s'.crtcs[j].oldFb) {
      assert Alike(s.crtcs[j], s'.crtcs[j]);
    }
    if Local(driver) {
      forall j | 0 <= j < |s'.crtcs| ensures (s.crtcs[j].fb.Some? && s.crtcs[j].fb.value in gone) || s'.crtcs[j] == s.crtcs[j].(oldFb := s'.crtcs[j].oldFb) {
        assert Shows(s.crtcs[j], gone) || Alike(s.crtcs[j], s'.crtcs[j]);
      }
    }
    if Obliging(driver) {
      forall j | 0 <= j < |s'.crtcs| && s'.crtcs[j].fb.Some? ensures s'.crtcs[j].fb.value !in gone {
        assert !Shows(s'.crtcs[j], gone);
      }
    }
  }
}
