/**
 drm_crtc_helper_set_config as the ->set_config of drm_crtc.c: whatever it answers, what it
 did to the CRTCs is what the reference counting of drm_mode_set_config_internal allows for.
 */
module HelperDriver {
  import opened Options
  import M = FbMachine
  import H = CrtcHelper

  function AddrOf(fb: Option<H.Framebuffer>): Option<M.Addr> {
    if fb.Some? then Some(fb.value.addr) else None
  }

  function ModeOf(mode: H.DisplayMode): M.Mode { M.Mode(mode.hdisplay, mode.vdisplay) }

  /** One CRTC, as each of the two files sees it. */
  predicate Views(crtc: M.Crtc, d: H.CrtcData) {
    crtc.fb == AddrOf(d.fb) && crtc.x == d.x && crtc.y == d.y && crtc.mode == ModeOf(d.mode)
  }

  ghost predicate ViewsAll(crtcs: seq<M.Crtc>, dev: H.Device)
    reads dev.crtcs
  {
    |crtcs| == |dev.crtcs| && forall j :: 0 <= j < |crtcs| ==> Views(crtcs[j], dev.crtcs[j].data)
  }

  /** The CRTC with what it shows now, and the fields the helper does not touch. */
  function Refreshed(crtc: M.Crtc, d: H.CrtcData): M.Crtc
    requires d.x >= 0 && d.y >= 0
  {
    crtc.(fb := AddrOf(d.fb), x := d.x, y := d.y, mode := ModeOf(d.mode))
  }

  lemma KeptView(crtc: M.Crtc, before: H.CrtcData, after: H.CrtcData)
    requires Views(crtc, before) && H.KeptOrDark(before, after)
    ensures after.x >= 0 && after.y >= 0 && M.KeptOrOff(crtc, Refreshed(crtc, after))
  {
  }

  lemma TargetView(crtc: M.Crtc, before: H.CrtcData, after: H.CrtcData, config: H.ModeSet)
    requires Views(crtc, before) && config.mode.Some? && config.x >= 0 && config.y >= 0 && H.TargetMay(before, after, config)
    ensures after.x >= 0 && after.y >= 0
    ensures M.KeptOrOff(crtc, Refreshed(crtc, after))
         || M.KeptOrOff(crtc.(fb := AddrOf(config.fb), x := config.x, y := config.y, mode := ModeOf(config.mode.value)), Refreshed(crtc, after))
  {
    if H.KeptOrDark(before, after) { KeptView(crtc, before, after); }
  }

  /** Turning the target off turns others off or leaves them, and leaves it dark. */
  lemma DisabledViews(dev: H.Device, was: H.Snap, now: H.Snap, crtc: H.Crtc, k: nat)
    requires H.Fitting(dev, was) && now == H.Cleanup(dev, H.Decouple(dev, was, crtc))
    requires k < |dev.crtcs| && dev.crtcs[k] == crtc
    requires forall i, j :: 0 <= i < j < |dev.encoders| ==> dev.encoders[i] != dev.encoders[j]
    ensures H.Fitting(dev, now) && now.data[k].fb == None
    ensures forall j :: 0 <= j < |was.data| ==> H.KeptOrDark(was.data[j], now.data[j])
  {
    H.DisableTurnsOff(dev, was, crtc, k);
  }

  /** What DriverMay lets become of one CRTC. */
  ghost predicate Result(crtc: M.Crtc, isTarget: bool, after: H.CrtcData, config: H.ModeSet, mode: M.Mode)
    requires config.x >= 0 && config.y >= 0
  {
    && after.x >= 0 && after.y >= 0
    && (|| M.KeptOrOff(crtc, Refreshed(crtc, after))
        || (isTarget && config.mode.Some?
            && M.KeptOrOff(crtc.(fb := AddrOf(config.fb), x := config.x, y := config.y, mode := mode), Refreshed(crtc, after))))
  }

  lemma OneView(dev: H.Device, config: H.ModeSet, was: H.Snap, now: H.Snap, success: bool, crtc: M.Crtc, j: nat, target: nat, mode: M.Mode)
    requires H.Fitting(dev, was) && H.Fitting(dev, now) && j < |dev.crtcs| && target < |dev.crtcs| && dev.crtcs[target] == config.crtc
    requires config.x >= 0 && config.y >= 0 && (config.mode.Some? ==> mode == ModeOf(config.mode.value)) && Views(crtc, was.data[j])
    requires forall i, k :: 0 <= i < k < |dev.crtcs| ==> dev.crtcs[i] != dev.crtcs[k]
    requires config.fb == None ==> H.KeptOrDark(was.data[j], now.data[j])
    requires config.fb.Some? ==> config.mode.Some?
    requires config.fb.Some? && success ==> dev.CrtcsFinished(config, was, now)
    requires !success ==> H.RolledBack(dev, was, now, config.crtc)
    ensures Result(crtc, j == target, now.data[j], config, mode)
  {
    if success && config.fb.Some? && j == target {
      TargetView(crtc, was.data[j], now.data[j], config);
    } else {
      KeptView(crtc, was.data[j], now.data[j]);
    }
  }

  lemma AllViews(dev: H.Device, config: H.ModeSet, was: H.Snap, now: H.Snap, success: bool, before: seq<M.Crtc>, target: nat, mode: M.Mode)
    returns (after: seq<M.Crtc>)
    requires H.Fitting(dev, was) && H.Fitting(dev, now) && |before| == |dev.crtcs|
    requires target < |dev.crtcs| && dev.crtcs[target] == config.crtc && config.x >= 0 && config.y >= 0
    requires config.mode.Some? ==> mode == ModeOf(config.mode.value)
    requires forall j :: 0 <= j < |before| ==> Views(before[j], was.data[j])
    requires forall i, k :: 0 <= i < k < |dev.crtcs| ==> dev.crtcs[i] != dev.crtcs[k]
    requires config.fb == None ==> success && now.data[target].fb == None && forall j :: 0 <= j < |before| ==> H.KeptOrDark(was.data[j], now.data[j])
    requires config.fb.Some? ==> config.mode.Some?
    requires config.fb.Some? && success ==> dev.CrtcsFinished(config, was, now)
    requires !success ==> H.RolledBack(dev, was, now, config.crtc)
    ensures |after| == |before| && forall j :: 0 <= j < |after| ==> Views(after[j], now.data[j])
    ensures M.DriverMay(before, target, AddrOf(config.fb), config.x, config.y, mode, success, after)
  {
    forall j | 0 <= j < |before| ensures Result(before[j], j == target, now.data[j], config, mode) {
      OneView(dev, config, was, now, success, before[j], j, target, mode);
    }
    after := seq(|before|, j requires 0 <= j < |before| && now.data[j].x >= 0 && now.data[j].y >= 0 => Refreshed(before[j], now.data[j]));
  }

  /** One call: `before` is what drm_crtc.c knows of the CRTCs, `after` what it then finds. */
  method SetConfig(dev: H.Device, config: H.ModeSet, ans: H.Answers, ghost target: nat, ghost mode: M.Mode, ghost before: seq<M.Crtc>)
    returns (ret: int, ghost after: seq<M.Crtc>)
    requires dev.Callable(config, ans) && ViewsAll(before, dev)
    requires target < |dev.crtcs| && dev.crtcs[target] == config.crtc && config.x >= 0 && config.y >= 0
    requires config.mode.Some? ==> mode == ModeOf(config.mode.value)
    modifies dev.connectors, dev.encoders, dev.crtcs
    ensures dev.Valid() && ViewsAll(after, dev)
    ensures |after| == |dev.crtcs|
    ensures forall j :: 0 <= j < |after| ==>
              var d := dev.crtcs[j].data;
              && after[j].fb == (if d.fb.Some? then Some(d.fb.value.addr) else None)
              && after[j].x == d.x && after[j].y == d.y && after[j].mode == M.Mode(d.mode.hdisplay, d.mode.vdisplay)
    ensures M.DriverMay(before, target, AddrOf(config.fb), config.x, config.y, mode, ret == 0, after)
  {
    ghost var was := dev.Snapshot();
    ret := dev.SetConfig(config, ans);
    ghost var now := dev.Snapshot();
    if config.fb == None { DisabledViews(dev, was, now, config.crtc, target); }
    after := AllViews(dev, config, was, now, ret == 0, before, target, mode);
  }
}
