/**
 drm_crtc_helper.c: the connector -> encoder -> CRTC graph, rewired in place by
 drm_crtc_helper_set_config and put back when anything fails.

 What a driver callback answers is a parameter; what it does to hardware is left out.
 */
module CrtcHelper {
  import opened Arith
  import opened CValues
  import opened Options

  /** drm_mode_equal compares the display size and the timing fields, not the rest (name, type, refresh). */
  datatype DisplayMode = DisplayMode(hdisplay: nat, vdisplay: nat, timing: nat, rest: nat)

  predicate ModeEqual(a: DisplayMode, b: DisplayMode) {
    a.hdisplay == b.hdisplay && a.vdisplay == b.vdisplay && a.timing == b.timing
  }

  datatype Framebuffer = Framebuffer(addr: nat, pixelFormat: nat)

  datatype Status = Connected | Disconnected | Unknown

  /** Everything `*crtc` holds that the helper reads or writes. */
  datatype CrtcData = CrtcData(enabled: bool, fb: Option<Framebuffer>, mode: DisplayMode, hwmode: DisplayMode, x: int, y: int)

  class Crtc {
    var data: CrtcData
    constructor (data: CrtcData)
      ensures this.data == data
    {
      this.data := data;
    }
  }

  class Encoder {
    var crtc: Crtc?
    const possibleCrtcs: nat  // bit i set: the i-th CRTC of the device may drive this encoder
    constructor (possibleCrtcs: nat)
      ensures crtc == null && this.possibleCrtcs == possibleCrtcs
    {
      crtc := null;
      this.possibleCrtcs := possibleCrtcs;
    }
  }

  class Connector {
    var encoder: Encoder?
    const status: Status
    constructor (status: Status)
      ensures encoder == null && this.status == status
    {
      encoder := null;
      this.status := status;
    }
  }

  /** struct drm_mode_set, for the case with an fb (`mode` and `fb` present) and without. */
  datatype ModeSet = ModeSet(crtc: Crtc, mode: Option<DisplayMode>, fb: Option<Framebuffer>, x: int, y: int, connectors: seq<Connector>)

  /** What the callbacks reached from one drm_crtc_helper_set_mode answer. */
  datatype ModeAnswers = ModeAnswers(duplicated: bool, encoderFixup: seq<bool>, crtcFixup: bool, modeSet: bool, adjusted: DisplayMode)

  /** What the callbacks and allocations reached from one drm_crtc_helper_set_config answer. */
  datatype Answers = Answers(
    memory: bool,
    best: map<Connector, Encoder?>,
    hasModeSetBase: bool,
    modeSetBase: int,
    attempt: ModeAnswers,
    restore: ModeAnswers)

  /** connector->encoder, encoder->crtc and *crtc, for every object of the device, in list order. */
  datatype Snap = Snap(enc: seq<Encoder?>, crtcOf: seq<Crtc?>, data: seq<CrtcData>)

  /** Bit `i` of the 32-bit mask `m`. */
  predicate MaskHas(m: nat, i: nat) { i < 32 && (m / Pow2(i)) % 2 == 1 }

  class Device {
    const crtcs: seq<Crtc>
    const encoders: seq<Encoder>
    const connectors: seq<Connector>

    constructor (crtcs: seq<Crtc>, encoders: seq<Encoder>, connectors: seq<Connector>)
      ensures this.crtcs == crtcs && this.encoders == encoders && this.connectors == connectors
    {
      this.crtcs, this.encoders, this.connectors := crtcs, encoders, connectors;
    }

    /** Each object is on its device list once, and links lead to listed objects. */
    ghost predicate Valid()
      reads connectors, encoders
    {
      && (forall i, j :: 0 <= i < j < |crtcs| ==> crtcs[i] != crtcs[j])
      && (forall i, j :: 0 <= i < j < |encoders| ==> encoders[i] != encoders[j])
      && (forall i, j :: 0 <= i < j < |connectors| ==> connectors[i] != connectors[j])
      && (forall c :: c in connectors ==> c.encoder == null || c.encoder in encoders)
      && (forall e :: e in encoders ==> e.crtc == null || e.crtc in crtcs)
    }

    ghost function Encs(): (s: seq<Encoder?>)
      reads connectors
      ensures |s| == |connectors| && forall i :: 0 <= i < |connectors| ==> s[i] == connectors[i].encoder
    {
      seq(|connectors|, i requires 0 <= i < |connectors| reads connectors => connectors[i].encoder)
    }

    ghost function CrtcOfs(): (s: seq<Crtc?>)
      reads encoders
      ensures |s| == |encoders| && forall i :: 0 <= i < |encoders| ==> s[i] == encoders[i].crtc
    {
      seq(|encoders|, i requires 0 <= i < |encoders| reads encoders => encoders[i].crtc)
    }

    ghost function Datas(): (s: seq<CrtcData>)
      reads crtcs
      ensures |s| == |crtcs| && forall i :: 0 <= i < |crtcs| ==> s[i] == crtcs[i].data
    {
      seq(|crtcs|, i requires 0 <= i < |crtcs| reads crtcs => crtcs[i].data)
    }

    /** The whole state the helper works on, as values in list order. */
    ghost function Snapshot(): (s: Snap)
      reads connectors, encoders, crtcs
      ensures s.enc == Encs() && s.crtcOf == CrtcOfs() && s.data == Datas()
    {
      Snap(Encs(), CrtcOfs(), Datas())
    }

    ghost predicate EncoderInUse(e: Encoder)
      reads connectors
    {
      exists c :: c in connectors && c.encoder == e
    }

    ghost predicate CrtcInUse(r: Crtc)
      reads connectors, encoders
    {
      exists e :: e in encoders && e.crtc == r && EncoderInUse(e)
    }

    ghost predicate Permits(e: Encoder, r: Crtc) {
      exists i :: 0 <= i < |crtcs| && crtcs[i] == r && MaskHas(e.possibleCrtcs, i)
    }

    // ---------- queries ----------

    method HelperEncoderInUse(encoder: Encoder) returns (used: bool)
      ensures used == EncoderInUse(encoder)
      ensures used <==> exists c :: c in connectors && c.encoder == encoder
    {
      for i := 0 to |connectors|
        invariant forall j :: 0 <= j < i ==> connectors[j].encoder != encoder
      {
        if connectors[i].encoder == encoder {
          assert connectors[i] in connectors;
          return true;
        }
      }
      return false;
    }

    method HelperCrtcInUse(crtc: Crtc) returns (used: bool)
      ensures used == CrtcInUse(crtc)
      ensures used <==> exists c, e :: c in connectors && c.encoder == e && e in encoders && e.crtc == crtc
    {
      for i := 0 to |encoders|
        invariant forall j :: 0 <= j < i ==> !(encoders[j].crtc == crtc && EncoderInUse(encoders[j]))
      {
        if encoders[i].crtc == crtc {
          var b := HelperEncoderInUse(encoders[i]);
          if b {
            assert encoders[i] in encoders;
            return true;
          }
        }
      }
      return false;
    }

    /** The mask is shifted once for every CRTC before `crtc`, in a 32-bit int. */
    method EncoderCrtcOk(encoder: Encoder, crtc: Crtc) returns (ok: bool)
      requires Valid() && crtc in crtcs && encoder.possibleCrtcs < Pow2(32)
      ensures ok == Permits(encoder, crtc)
      ensures ok <==> exists i :: 0 <= i < |crtcs| && i < 32 && crtcs[i] == crtc && (encoder.possibleCrtcs / Pow2(i)) % 2 == 1
    {
      var mask := 1;
      var i := 0;
      while i < |crtcs| && crtcs[i] != crtc
        invariant 0 <= i <= |crtcs|
        invariant crtc !in crtcs[..i]
        invariant mask == (if i < 32 then Pow2(i) else 0)
      {
        mask := if 2 * mask < 0x1_0000_0000 then 2 * mask else 0;
        i := i + 1;
        ShiftLemma(i);
      }
      assert i < |crtcs| && forall k :: 0 <= k < |crtcs| && crtcs[k] == crtc ==> k == i;
      ok := mask != 0 && (encoder.possibleCrtcs / mask) % 2 == 1;
    }

    // ---------- drm_helper_disable_unused_functions ----------

    method DisableUnusedFunctions()
      requires Valid()
      modifies connectors, encoders, crtcs
      ensures Valid()
      ensures Snapshot() == Cleanup(this, old(Snapshot()))
      ensures forall c :: c in connectors ==> c.encoder == (if c.status == Disconnected then null else old(c.encoder))
      ensures forall e :: e in encoders ==> e.crtc == (if EncoderInUse(e) then old(e.crtc) else null)
      ensures forall r :: r in crtcs ==>
                r.data == (if CrtcInUse(r) then old(r.data).(enabled := true) else old(r.data).(enabled := false, fb := None))
    {
      DetachDisconnected();
      label detached:
      ReleaseIdleEncoders();
      label released:
      SwitchOffCrtcs();
    }

    method DetachDisconnected()
      requires Valid()
      modifies connectors
      ensures Valid()
      ensures Snapshot() == DropDisconnected(this, old(Snapshot()))
      ensures forall c :: c in connectors ==> c.encoder == (if c.status == Disconnected then null else old(c.encoder))
    {
      for i := 0 to |connectors|
        invariant Valid()
        invariant forall j :: 0 <= j < i ==>
                    connectors[j].encoder == (if connectors[j].status == Disconnected then null else old(connectors[j].encoder))
        invariant forall j :: i <= j < |connectors| ==> connectors[j].encoder == old(connectors[j].encoder)
      {
        if connectors[i].encoder != null && connectors[i].status == Disconnected {
          connectors[i].encoder := null;
        }
      }
      assert Snapshot().enc == DropDisconnected(this, old(Snapshot())).enc;
      assert Snapshot().crtcOf == old(Snapshot()).crtcOf;
      assert Snapshot().data == old(Snapshot()).data;
    }

    method ReleaseIdleEncoders()
      requires Valid()
      modifies encoders
      ensures Valid()
      ensures Snapshot() == DropUnusedEncoders(this, old(Snapshot()))
      ensures forall e :: e in encoders ==> e.crtc == (if EncoderInUse(e) then old(e.crtc) else null)
    {
      for i := 0 to |encoders|
        invariant Valid()
        invariant forall j :: 0 <= j < i ==>
                    encoders[j].crtc == (if EncoderInUse(encoders[j]) then old(encoders[j].crtc) else null)
        invariant forall j :: i <= j < |encoders| ==> encoders[j].crtc == old(encoders[j].crtc)
      {
        var used := HelperEncoderInUse(encoders[i]);
        if !used {
          encoders[i].crtc := null;
        }
      }
      forall j | 0 <= j < |encoders| ensures EncoderInUse(encoders[j]) <==> encoders[j] in old(Snapshot()).enc {
        InUseIsListed(encoders[j]);
      }
      assert Snapshot().enc == old(Snapshot()).enc;
      assert Snapshot().crtcOf == DropUnusedEncoders(this, old(Snapshot())).crtcOf;
      assert Snapshot().data == old(Snapshot()).data;
    }

    method SwitchOffCrtcs()
      requires Valid()
      modifies crtcs
      ensures Valid()
      ensures Snapshot() == SwitchCrtcs(this, old(Snapshot()))
      ensures forall r :: r in crtcs ==>
                r.data == (if CrtcInUse(r) then old(r.data).(enabled := true) else old(r.data).(enabled := false, fb := None))
    {
      for k := 0 to |crtcs|
        invariant Valid()
        invariant forall j :: 0 <= j < k ==> crtcs[j].data == SwitchOne(CrtcInUse(crtcs[j]), old(crtcs[j].data))
        invariant forall j :: k <= j < |crtcs| ==> crtcs[j].data == old(crtcs[j].data)
      {
        var used := HelperCrtcInUse(crtcs[k]);
        crtcs[k].data := crtcs[k].data.(enabled := used);
        if !used {
          crtcs[k].data := crtcs[k].data.(fb := None);
        }
      }
      assert Snapshot().enc == old(Snapshot()).enc;
      assert Snapshot().crtcOf == old(Snapshot()).crtcOf;
      forall j | 0 <= j < |crtcs| ensures CrtcInUse(crtcs[j]) <==> Used(this, old(Snapshot()), crtcs[j]) {
        CrtcInUseIsUsed(crtcs[j]);
      }
      assert Snapshot().data == SwitchCrtcs(this, old(Snapshot())).data;
    }

    // ---------- drm_crtc_helper_disable ----------

    method HelperDisable(crtc: Crtc) returns (ret: int)
      requires Valid()
      modifies connectors, encoders, crtcs
      ensures Valid() && ret == 0
      ensures Snapshot() == Cleanup(this, Decouple(this, old(Snapshot()), crtc))
      ensures forall c :: c in connectors ==>
                c.encoder == (if c.status == Disconnected || (old(c.encoder) != null && old(c.encoder.crtc) == crtc) then null else old(c.encoder))
      ensures forall e :: e in encoders ==> e.crtc == (if EncoderInUse(e) then old(e.crtc) else null)
      ensures forall r :: r in crtcs ==>
                r.data == (if CrtcInUse(r) then old(r.data).(enabled := true) else old(r.data).(enabled := false, fb := None))
    {
      ghost var was := Snapshot();
      for j := 0 to |encoders|
        invariant Valid()
        invariant CrtcOfs() == was.crtcOf && Datas() == was.data
        invariant forall i :: 0 <= i < |connectors| ==> Encs()[i] == if OnCrtc(this, was, was.enc[i], crtc, j) then null else was.enc[i]
      {
        assert encoders[j].crtc == was.crtcOf[j];
        if encoders[j].crtc == crtc {
          DetachAll(encoders[j]);
        }
      }
      assert Encs() == Decouple(this, was, crtc).enc;
      DisableUnusedFunctions();
      ret := 0;
    }

    method DetachAll(encoder: Encoder)
      requires Valid()
      modifies connectors
      ensures Valid()
      ensures forall i :: 0 <= i < |connectors| ==>
                connectors[i].encoder == (if old(connectors[i].encoder) == encoder then null else old(connectors[i].encoder))
    {
      for i := 0 to |connectors|
        invariant Valid()
        invariant forall k :: 0 <= k < i ==>
                    connectors[k].encoder == (if old(connectors[k].encoder) == encoder then null else old(connectors[k].encoder))
        invariant forall k :: i <= k < |connectors| ==> connectors[k].encoder == old(connectors[k].encoder)
      {
        if connectors[i].encoder == encoder {
          connectors[i].encoder := null;
        }
      }
    }

    // ---------- drm_crtc_helper_set_mode ----------

    /** Every encoder on `crtc` is asked to fix the mode up; the first refusal stops the walk. */
    method FixupEncoders(crtc: Crtc, answers: seq<bool>) returns (ok: bool)
      ensures ok <==> forall j :: 0 <= j < |encoders| && encoders[j].crtc == crtc ==> j < |answers| && answers[j]
    {
      for j := 0 to |encoders|
        invariant forall k :: 0 <= k < j && encoders[k].crtc == crtc ==> k < |answers| && answers[k]
      {
        if encoders[j].crtc == crtc {
          if j >= |answers| || !answers[j] { return false; }
        }
      }
      return true;
    }

    /**
     Either the CRTC is idle and only `enabled` is written, or the mode and position are
     installed, or, on refusal, mode, hwmode and position are put back.
     */
    method SetMode(crtc: Crtc, mode: DisplayMode, x: int, y: int, ans: ModeAnswers) returns (ok: bool)
      requires Valid() && crtc in crtcs
      modifies crtc
      ensures ok <==> !CrtcInUse(crtc) || Accepts(Snapshot().crtcOf, crtc, ans)
      ensures CrtcInUse(crtc) ==>
                (ok <==> && ans.duplicated && ans.crtcFixup && ans.modeSet
                         && forall j :: 0 <= j < |encoders| && encoders[j].crtc == crtc ==> j < |ans.encoderFixup| && ans.encoderFixup[j])
      ensures var used := CrtcInUse(crtc);
              && (!used ==> ok && crtc.data == old(crtc.data).(enabled := false))
              && (used && ok ==> crtc.data == old(crtc.data).(enabled := true, mode := mode, hwmode := ans.adjusted, x := x, y := y))
              && (used && !ok ==> crtc.data == old(crtc.data).(enabled := true))
    {
      var used := HelperCrtcInUse(crtc);
      crtc.data := crtc.data.(enabled := used);
      if !used { return true; }
      if !ans.duplicated { return false; }
      var saved := crtc.data;
      crtc.data := crtc.data.(mode := mode, x := x, y := y);
      ok := FixupEncoders(crtc, ans.encoderFixup);
      if ok {
        ok := ans.crtcFixup;
        if ok {
          ok := ans.modeSet;
          if ok {
            crtc.data := crtc.data.(hwmode := ans.adjusted);
          }
        }
      }
      if !ok {
        crtc.data := crtc.data.(hwmode := saved.hwmode, mode := saved.mode, x := saved.x, y := saved.y);
      }
    }

    // ---------- drm_crtc_helper_set_config ----------

    /** What drm_crtc_helper_set_config relies on: its BUG_ONs, and connectors and encoders of this device. */
    ghost predicate Callable(config: ModeSet, ans: Answers)
      reads connectors, encoders
    {
      Valid() && Asked(config, ans)
    }

    /** Of it, what does not change. */
    ghost predicate Asked(config: ModeSet, ans: Answers) {
      && config.crtc in crtcs
      && (forall c :: c in config.connectors ==> c in connectors && c in ans.best)
      && (forall c :: c in ans.best ==> ans.best[c] == null || ans.best[c] in encoders)
      && (forall e :: e in encoders ==> e.possibleCrtcs < Pow2(32))
      && !(config.mode == None && config.fb.Some?)
      && !(config.fb.Some? && |config.connectors| == 0)
    }

    /** The encoder connector `c` has after pass a: the callback's choice if it is in the set, its own otherwise. */
    ghost function Chosen(config: ModeSet, ans: Answers, c: Connector): Encoder?
      reads c
    {
      ChosenOver(config, ans, c, c.encoder)
    }

    /** The encoders after pass a, in list order. */
    ghost function ChosenAll(config: ModeSet, ans: Answers): (enc: seq<Encoder?>)
      reads connectors
      ensures |enc| == |connectors| && forall i :: 0 <= i < |connectors| ==> enc[i] == Chosen(config, ans, connectors[i])
    {
      seq(|connectors|, i requires 0 <= i < |connectors| reads connectors => Chosen(config, ans, connectors[i]))
    }

    /**
     Given the connectors' encoders: each connector that is not disconnected stands on the same
     side of the set's border as the connector that is last, in list order, on the same encoder.
     */
    ghost predicate LastUsersAgree(config: ModeSet, enc: seq<Encoder?>)
      requires |enc| == |connectors|
    {
      forall j, l :: 0 <= j < |enc| && 0 <= l < |enc| && connectors[j].status != Disconnected && LastOn(enc, j, l) ==>
        (connectors[j] in config.connectors <==> connectors[l] in config.connectors)
    }

    /** The encoders' CRTCs after pass a: those that a connector was taken off have none. */
    ghost function KeptAll(config: ModeSet, ans: Answers): (crtcOf: seq<Crtc?>)
      reads connectors, encoders, crtcs
      ensures |crtcOf| == |encoders|
      ensures forall m :: 0 <= m < |encoders| ==>
                crtcOf[m] == if Left(Snapshot().enc, ChosenAll(config, ans), encoders[m], |connectors|) then null else encoders[m].crtc
    {
      var enc, chosen := Snapshot().enc, ChosenAll(config, ans);
      seq(|encoders|, m requires 0 <= m < |encoders| reads encoders =>
        if Left(enc, chosen, encoders[m], |connectors|) then null else encoders[m].crtc)
    }

    /** Pass a gives some connector another encoder. */
    ghost predicate Rewires(config: ModeSet, ans: Answers)
      reads connectors, encoders, crtcs
    {
      ChosenAll(config, ans) != Snapshot().enc
    }

    /** Some connector of the set is without an encoder. */
    ghost predicate Encoderless(config: ModeSet, enc: seq<Encoder?>)
      requires |enc| == |connectors|
    {
      Lacking(config, enc, |enc|)
    }

    method ChooseEncoder(config: ModeSet, ans: Answers, connector: Connector) returns (encoder: Encoder?)
      requires connector in config.connectors ==> connector in ans.best
      ensures encoder == Chosen(config, ans, connector)
    {
      encoder := connector.encoder;
      for ro := 0 to |config.connectors|
        invariant connector !in config.connectors[..ro]
        invariant encoder == connector.encoder
      {
        if config.connectors[ro] == connector {
          return ans.best[connector];
        }
      }
    }

    /** Pass a has dealt with the first `n` connectors. */
    ghost predicate Assigned(config: ModeSet, was: Snap, chosen: seq<Encoder?>, n: nat, now: Snap, changed: bool, fail: bool)
      requires Fitting(this, was) && Fitting(this, now) && n <= |chosen| == |connectors|
    {
      && (forall k :: 0 <= k < |connectors| ==> now.enc[k] == if k < n then chosen[k] else was.enc[k])
      && (forall m :: 0 <= m < |encoders| ==> now.crtcOf[m] == if Left(was.enc, chosen, encoders[m], n) then null else was.crtcOf[m])
      && changed == Differ(was.enc, chosen, n)
      && fail == Lacking(config, chosen, n)
    }

    /** Some of the first `n` connectors of the set is without an encoder. */
    ghost predicate Lacking(config: ModeSet, enc: seq<Encoder?>, n: nat)
      requires n <= |enc| == |connectors|
    {
      exists j :: 0 <= j < n && connectors[j] in config.connectors && enc[j] == null
    }

    /** What dealing with connector `i` does. */
    ghost predicate AssignTurn(config: ModeSet, i: nat, e: Encoder?, now: Snap, next: Snap, changed: bool, none: bool)
      requires Fitting(this, now) && Fitting(this, next) && i < |connectors|
    {
      && (forall k :: 0 <= k < |connectors| ==> next.enc[k] == if k == i then e else now.enc[k])
      && (forall m :: 0 <= m < |encoders| ==> next.crtcOf[m] == if changed && encoders[m] == now.enc[i] then null else now.crtcOf[m])
      && (changed == (e != now.enc[i]))
      && (none == (connectors[i] in config.connectors && e == null))
    }

    lemma OneAssigned(config: ModeSet, was: Snap, chosen: seq<Encoder?>, i: nat, now: Snap, changed: bool, fail: bool, next: Snap, c: bool, none: bool)
      requires Fitting(this, was) && Fitting(this, now) && Fitting(this, next) && i < |chosen| == |connectors|
      requires Assigned(config, was, chosen, i, now, changed, fail) && AssignTurn(config, i, chosen[i], now, next, c, none)
      ensures Assigned(config, was, chosen, i + 1, next, changed || c, fail || none)
    {
      forall m | 0 <= m < |encoders|
        ensures Left(was.enc, chosen, encoders[m], i + 1) <==> Left(was.enc, chosen, encoders[m], i) || (c && encoders[m] == was.enc[i])
      {
      }
    }

    lemma AllAssigned(config: ModeSet, was: Snap, chosen: seq<Encoder?>, now: Snap, changed: bool, fail: bool)
      requires Fitting(this, was) && Fitting(this, now) && |chosen| == |connectors|
      requires Assigned(config, was, chosen, |connectors|, now, changed, fail)
      ensures now.enc == chosen && (changed == (chosen != was.enc)) && (fail == Encoderless(config, chosen))
      ensures !changed ==> now.crtcOf == was.crtcOf
    {
      if !changed {
        forall m | 0 <= m < |encoders| ensures !Left(was.enc, chosen, encoders[m], |connectors|) {
        }
      }
    }

    /** Pass a: give every connector of the set its new encoder. */
    method PassEncoders(config: ModeSet, ans: Answers) returns (changed: bool, fail: bool)
      requires Valid() && Asked(config, ans)
      modifies connectors, encoders
      ensures Valid()
      ensures Encs() == old(ChosenAll(config, ans)) && CrtcOfs() == old(KeptAll(config, ans))
      ensures fail == Encoderless(config, old(ChosenAll(config, ans)))
      ensures changed == old(Rewires(config, ans))
      ensures forall i :: 0 <= i < |connectors| ==>
                connectors[i].encoder == if connectors[i] in config.connectors then ans.best[connectors[i]] else old(connectors[i].encoder)
      ensures forall m :: 0 <= m < |encoders| ==>
                encoders[m].crtc == if exists k :: 0 <= k < |connectors| && old(connectors[k].encoder) == encoders[m] != connectors[k].encoder then null
                                    else old(encoders[m].crtc)
      ensures fail <==> exists i :: 0 <= i < |connectors| && connectors[i] in config.connectors && connectors[i].encoder == null
      ensures changed <==> exists i :: 0 <= i < |connectors| && connectors[i].encoder != old(connectors[i].encoder)
      ensures !changed ==> Snapshot() == old(Snapshot())
    {
      ghost var was, chosen := Snapshot(), ChosenAll(config, ans);
      changed, fail := AssignAll(config, ans, was, chosen);
      AllAssigned(config, was, chosen, Snapshot(), changed, fail);
    }

    /** The loop of pass a. */
    method AssignAll(config: ModeSet, ans: Answers, ghost was: Snap, ghost chosen: seq<Encoder?>) returns (changed: bool, fail: bool)
      requires Valid() && Asked(config, ans) && was == Snapshot() && |chosen| == |connectors|
      requires forall k :: 0 <= k < |connectors| ==> chosen[k] == ChosenOver(config, ans, connectors[k], was.enc[k])
      modifies connectors, encoders
      ensures Valid() && Assigned(config, was, chosen, |connectors|, Snapshot(), changed, fail)
    {
      changed, fail := false, false;
      for i := 0 to |connectors|
        invariant Valid() && Assigned(config, was, chosen, i, Snapshot(), changed, fail)
      {
        ghost var now := Snapshot();
        var c, none := AssignNext(config, ans, i, chosen[i]);
        OneAssigned(config, was, chosen, i, now, changed, fail, Snapshot(), c, none);
        changed, fail := changed || c, fail || none;
      }
    }

    method AssignNext(config: ModeSet, ans: Answers, i: nat, ghost chosen: Encoder?) returns (changed: bool, none: bool)
      requires Valid() && Asked(config, ans) && i < |connectors| && chosen == ChosenOver(config, ans, connectors[i], connectors[i].encoder)
      modifies connectors[i], encoders
      ensures Valid()
      ensures AssignTurn(config, i, chosen, old(Snapshot()), Snapshot(), changed, none)
    {
      var connector := connectors[i];
      assert connector in connectors;
      var newEncoder := ChooseEncoder(config, ans, connector);
      none := newEncoder == null && connector in config.connectors;
      changed := newEncoder != connector.encoder;
      if changed { Rewire(i, newEncoder); }
    }

    /** The old encoder loses its CRTC; if it is reused, its CRTC is set later. */
    method Rewire(i: nat, newEncoder: Encoder?)
      requires Valid() && i < |connectors| && (newEncoder == null || newEncoder in encoders)
      modifies connectors[i], encoders
      ensures Valid()
      ensures connectors[i].encoder == newEncoder
      ensures forall k :: 0 <= k < |connectors| && k != i ==> connectors[k].encoder == old(connectors[k].encoder)
      ensures forall e :: e in encoders ==> e.crtc == (if e == old(connectors[i].encoder) then null else old(e.crtc))
    {
      assert connectors[i] in connectors;
      if connectors[i].encoder != null { connectors[i].encoder.crtc := null; }
      connectors[i].encoder := newEncoder;
    }

    ghost predicate RoutedRight(config: ModeSet)
      reads connectors, encoders
      requires Valid()
    {
      forall c :: c in connectors && c.encoder != null ==> (c in config.connectors <==> c.encoder.crtc == config.crtc)
    }

    ghost predicate AllPermitted()
      reads connectors, encoders
      requires Valid()
    {
      forall c :: c in connectors && c.encoder != null && c.encoder.crtc != null ==> Permits(c.encoder, c.encoder.crtc)
    }

    ghost predicate NoneShared(config: ModeSet)
      reads connectors
    {
      forall c, d :: c in connectors && d in connectors && c in config.connectors && d !in config.connectors && c.encoder != null ==>
        c.encoder != d.encoder
    }

    // ---------- pass b, on values: `enc` and `crtcOf` are what pass a left ----------

    /** An encoder's CRTC after the first `n` connectors had their turn, if no one was refused. */
    ghost function RoutedTo(config: ModeSet, enc: seq<Encoder?>, e: Encoder, was: Crtc?, n: nat): Crtc?
      requires n <= |enc| == |connectors|
    {
      if n == 0 then was
      else
        var before := RoutedTo(config, enc, e, was, n - 1);
        if enc[n - 1] == e then Turn(config, connectors[n - 1], before) else before
    }

    ghost function RoutedAll(config: ModeSet, enc: seq<Encoder?>, crtcOf: seq<Crtc?>): (r: seq<Crtc?>)
      requires |enc| == |connectors| && |crtcOf| == |encoders|
      ensures |r| == |encoders| && forall m :: 0 <= m < |r| ==> r[m] == RoutedTo(config, enc, encoders[m], crtcOf[m], |enc|)
    {
      seq(|encoders|, m requires 0 <= m < |encoders| => RoutedTo(config, enc, encoders[m], crtcOf[m], |enc|))
    }

    /** What connector `j` wants of encoder `m` at its turn is allowed. */
    ghost predicate Grants(config: ModeSet, enc: seq<Encoder?>, crtcOf: seq<Crtc?>, j: int, m: int)
      requires |enc| == |connectors| && |crtcOf| == |encoders| && 0 <= j < |enc| && 0 <= m < |encoders|
    {
      var r := RoutedTo(config, enc, encoders[m], crtcOf[m], j + 1);
      r != null ==> Permits(encoders[m], r)
    }

    ghost predicate AllGranted(config: ModeSet, enc: seq<Encoder?>, crtcOf: seq<Crtc?>, n: nat)
      requires n <= |enc| == |connectors| && |crtcOf| == |encoders|
    {
      forall j, m :: 0 <= j < n && 0 <= m < |encoders| && enc[j] == encoders[m] ==> Grants(config, enc, crtcOf, j, m)
    }

    /** Connector `k` gets encoder `m` another CRTC. */
    ghost predicate Turns(config: ModeSet, enc: seq<Encoder?>, crtcOf: seq<Crtc?>, k: int, m: int)
      requires |enc| == |connectors| && |crtcOf| == |encoders| && 0 <= k < |enc| && 0 <= m < |encoders|
    {
      enc[k] == encoders[m] && RoutedTo(config, enc, encoders[m], crtcOf[m], k + 1) != RoutedTo(config, enc, encoders[m], crtcOf[m], k)
    }

    ghost predicate Turned(config: ModeSet, enc: seq<Encoder?>, crtcOf: seq<Crtc?>, n: nat)
      requires n <= |enc| == |connectors| && |crtcOf| == |encoders|
    {
      exists k, m :: 0 <= k < n && 0 <= m < |encoders| && Turns(config, enc, crtcOf, k, m)
    }

    /** Pass b changes an encoder before it is refused one. */
    ghost predicate Reroutes(config: ModeSet, enc: seq<Encoder?>, crtcOf: seq<Crtc?>)
      requires |enc| == |connectors| && |crtcOf| == |encoders|
    {
      exists k, m :: 0 <= k < |enc| && 0 <= m < |encoders| && Turns(config, enc, crtcOf, k, m) && AllGranted(config, enc, crtcOf, k + 1)
    }

    /** What an encoder has been through: nobody of the set, and it is as it was or freed of the target; or someone, and it is on the target or free. */
    lemma {:induction false} RoutedBetween(config: ModeSet, enc: seq<Encoder?>, e: Encoder, was: Crtc?, n: nat)
      requires n <= |enc| == |connectors|
      ensures var r := RoutedTo(config, enc, e, was, n);
              if exists k :: 0 <= k < n && enc[k] == e && connectors[k] in config.connectors then r == config.crtc || r == null
              else r == was || (was == config.crtc && r == null)
    {
      if n > 0 { RoutedBetween(config, enc, e, was, n - 1); }
    }

    /**
     Where an encoder goes that connector `l` is the last on: to the target if `l` is in the set.
     Otherwise it is taken off the target, where it was or where an earlier connector of the
     set sent it, and stays where it is if it is elsewhere.
     */
    lemma RoutedIs(config: ModeSet, enc: seq<Encoder?>, e: Encoder, was: Crtc?, l: nat, n: nat)
      requires l < n <= |enc| == |connectors| && enc[l] == e && forall k :: l < k < n ==> enc[k] != e
      ensures RoutedTo(config, enc, e, was, n) ==
              if connectors[l] in config.connectors then config.crtc
              else if was == config.crtc || (exists k :: 0 <= k < l && enc[k] == e && connectors[k] in config.connectors) then null
              else was
    {
      LastTurn(config, enc, e, was, l, n);
      RoutedBetween(config, enc, e, was, l);
    }

    /** No one is refused exactly if each encoder that a connector of the set is given permits the target, and others permit the CRTC they stay on. */
    lemma GrantedIs(config: ModeSet, enc: seq<Encoder?>, crtcOf: seq<Crtc?>)
      requires |enc| == |connectors| && |crtcOf| == |encoders|
      ensures AllGranted(config, enc, crtcOf, |enc|) <==>
              forall j, m :: 0 <= j < |enc| && 0 <= m < |encoders| && enc[j] == encoders[m] ==>
                && (connectors[j] in config.connectors ==> Permits(encoders[m], config.crtc))
                && (crtcOf[m] != null && crtcOf[m] != config.crtc
                    && (forall k :: 0 <= k <= j && enc[k] == encoders[m] ==> connectors[k] !in config.connectors) ==>
                      Permits(encoders[m], crtcOf[m]))
    {
      forall j, m | 0 <= j < |enc| && 0 <= m < |encoders| && enc[j] == encoders[m]
        ensures Grants(config, enc, crtcOf, j, m) <==>
                && (connectors[j] in config.connectors ==> Permits(encoders[m], config.crtc))
                && (crtcOf[m] != null && crtcOf[m] != config.crtc
                    && (forall k :: 0 <= k <= j && enc[k] == encoders[m] ==> connectors[k] !in config.connectors) ==>
                      Permits(encoders[m], crtcOf[m]))
      {
        RoutedIs(config, enc, encoders[m], crtcOf[m], j, j + 1);
      }
    }

    /** Neither pass fails. */
    ghost predicate Routable(config: ModeSet, enc: seq<Encoder?>, crtcOf: seq<Crtc?>)
      requires |enc| == |connectors| && |crtcOf| == |encoders|
    {
      !Encoderless(config, enc) && AllGranted(config, enc, crtcOf, |enc|)
    }

    lemma ReroutesIs(config: ModeSet, enc: seq<Encoder?>, crtcOf: seq<Crtc?>, n: nat)
      requires n <= |enc| == |connectors| && |crtcOf| == |encoders| && AllGranted(config, enc, crtcOf, n)
      requires n < |enc| ==> !AllGranted(config, enc, crtcOf, n + 1)
      ensures Reroutes(config, enc, crtcOf) == Turned(config, enc, crtcOf, n)
    {
    }

    lemma {:induction false} NoTurns(config: ModeSet, enc: seq<Encoder?>, crtcOf: seq<Crtc?>, n: nat, m: nat)
      requires n <= |enc| == |connectors| && |crtcOf| == |encoders| && m < |encoders| && !Turned(config, enc, crtcOf, n)
      ensures RoutedTo(config, enc, encoders[m], crtcOf[m], n) == crtcOf[m]
    {
      if n > 0 {
        NoTurns(config, enc, crtcOf, n - 1, m);
        assert !Turns(config, enc, crtcOf, n - 1, m);
      }
    }

    /** The last connector on an encoder settles where it goes. */
    lemma {:induction false} LastTurn(config: ModeSet, enc: seq<Encoder?>, e: Encoder, was: Crtc?, l: nat, n: nat)
      requires l < n <= |enc| == |connectors| && forall k :: l < k < n ==> enc[k] != e
      ensures RoutedTo(config, enc, e, was, n) == RoutedTo(config, enc, e, was, l + 1)
    {
      if l + 1 < n { LastTurn(config, enc, e, was, l, n - 1); }
    }

    lemma LastDecides(config: ModeSet, enc: seq<Encoder?>, crtcOf: seq<Crtc?>, s: Snap)
      requires |enc| == |connectors| && |crtcOf| == |encoders| && Fitting(this, s)
      requires s.enc == enc && s.crtcOf == RoutedAll(config, enc, crtcOf)
      ensures RoutedByLast(config, s)
    {
      forall l, m | 0 <= l < |enc| && 0 <= m < |encoders| && enc[l] == encoders[m] && LastOn(enc, l, l)
        ensures connectors[l] in config.connectors <==> s.crtcOf[m] == config.crtc
      {
        LastTurn(config, enc, encoders[m], crtcOf[m], l, |enc|);
      }
    }

    lemma UnturnedIsRight(config: ModeSet, enc: seq<Encoder?>, crtcOf: seq<Crtc?>, s: Snap)
      requires |enc| == |connectors| && |crtcOf| == |encoders| && Fitting(this, s) && s.enc == enc && s.crtcOf == crtcOf
      requires !Turned(config, enc, crtcOf, |enc|)
      ensures RoutedByAll(config, s)
    {
      forall l, m | 0 <= l < |enc| && 0 <= m < |encoders| && enc[l] == encoders[m]
        ensures connectors[l] in config.connectors <==> crtcOf[m] == config.crtc
      {
        assert !Turns(config, enc, crtcOf, l, m);
        NoTurns(config, enc, crtcOf, l, m);
      }
    }

    lemma GrantedIsPermitted(config: ModeSet, enc: seq<Encoder?>, crtcOf: seq<Crtc?>)
      requires Valid() && |enc| == |connectors| && |crtcOf| == |encoders| && AllGranted(config, enc, crtcOf, |enc|)
      requires Snapshot().enc == enc && Snapshot().crtcOf == RoutedAll(config, enc, crtcOf)
      ensures AllPermitted()
    {
      forall c | c in connectors && c.encoder != null && c.encoder.crtc != null ensures Permits(c.encoder, c.encoder.crtc) {
        var j :| 0 <= j < |connectors| && connectors[j] == c;
        var m :| 0 <= m < |encoders| && encoders[m] == c.encoder;
        var l := LastIn(enc, j, |enc|);
        LastTurn(config, enc, encoders[m], crtcOf[m], l, |enc|);
        assert enc[l] == encoders[m] && Grants(config, enc, crtcOf, l, m);
      }
    }

    // ---------- pass b ----------

    method ChooseCrtc(config: ModeSet, connector: Connector) returns (newCrtc: Crtc?)
      requires connector.encoder != null
      ensures newCrtc == Turn(config, connector, connector.encoder.crtc)
    {
      newCrtc := if connector.encoder.crtc == config.crtc then null else connector.encoder.crtc;
      for ro := 0 to |config.connectors|
        invariant newCrtc == (if connector in config.connectors[..ro] then config.crtc
                              else if connector.encoder.crtc == config.crtc then null else connector.encoder.crtc)
      {
        if config.connectors[ro] == connector { newCrtc := config.crtc; }
      }
      assert config.connectors[..|config.connectors|] == config.connectors;
    }

    /** What a connector on encoder `e` did to the encoders' CRTCs: nothing if it was refused, and something if `changed`. */
    ghost predicate TurnTaken(config: ModeSet, c: Connector, e: Encoder?, before: seq<Crtc?>, after: seq<Crtc?>, changed: bool, ok: bool)
      requires |before| == |after| == |encoders|
    {
      && ok == TurnPermitted(config, c, e, before)
      && (forall m :: 0 <= m < |encoders| ==> after[m] == if ok && e == encoders[m] then Turn(config, c, before[m]) else before[m])
      && changed == SomeTurned(before, after)
    }

    ghost predicate TurnPermitted(config: ModeSet, c: Connector, e: Encoder?, before: seq<Crtc?>)
      requires |before| == |encoders|
    {
      forall m :: 0 <= m < |encoders| && e == encoders[m] && Turn(config, c, before[m]) != null ==> Permits(encoders[m], Turn(config, c, before[m]))
    }

    ghost predicate SomeTurned(before: seq<Crtc?>, after: seq<Crtc?>)
      requires |before| == |after|
    {
      exists m :: 0 <= m < |before| && after[m] != before[m]
    }

    lemma TurnAdds(config: ModeSet, enc: seq<Encoder?>, crtcOf: seq<Crtc?>, i: nat, before: seq<Crtc?>, after: seq<Crtc?>, changed: bool, ok: bool)
      requires i < |enc| == |connectors| && |crtcOf| == |before| == |after| == |encoders|
      requires forall m :: 0 <= m < |encoders| ==> before[m] == RoutedTo(config, enc, encoders[m], crtcOf[m], i)
      requires TurnTaken(config, connectors[i], enc[i], before, after, changed, ok) && AllGranted(config, enc, crtcOf, i)
      ensures ok == AllGranted(config, enc, crtcOf, i + 1)
      ensures ok ==> forall m :: 0 <= m < |encoders| ==> after[m] == RoutedTo(config, enc, encoders[m], crtcOf[m], i + 1)
      ensures ok ==> (Turned(config, enc, crtcOf, i + 1) <==> Turned(config, enc, crtcOf, i) || changed)
    {
      forall m | 0 <= m < |encoders| && enc[i] == encoders[m]
        ensures Grants(config, enc, crtcOf, i, m) <==>
                  Turn(config, connectors[i], before[m]) == null || Permits(encoders[m], Turn(config, connectors[i], before[m]))
        ensures ok ==> (Turns(config, enc, crtcOf, i, m) <==> after[m] != before[m])
      {
      }
      if ok && changed {
        var m :| 0 <= m < |encoders| && after[m] != before[m];
        assert Turns(config, enc, crtcOf, i, m);
      }
    }

    /** The turn of connector `i`. */
    method RouteNext(config: ModeSet, ans: Answers, i: nat) returns (changed: bool, ok: bool)
      requires Valid() && Asked(config, ans) && i < |connectors|
      modifies encoders
      ensures Valid()
      ensures Snapshot().enc == old(Snapshot()).enc
      ensures TurnTaken(config, connectors[i], connectors[i].encoder, old(Snapshot()).crtcOf, Snapshot().crtcOf, changed, ok)
    {
      ghost var was := Snapshot();
      changed, ok := false, true;
      assert connectors[i] in connectors;
      if connectors[i].encoder != null {
        ghost var at :| 0 <= at < |encoders| && encoders[at] == connectors[i].encoder;
        changed, ok := RouteOne(config, connectors[i], connectors[i].encoder);
        assert Encs() == was.enc;
        OnlyAt(at, was.crtcOf, Snapshot().crtcOf);
      }
    }

    /** Encoders are listed once. */
    lemma OnlyAt(at: nat, before: seq<Crtc?>, after: seq<Crtc?>)
      requires Valid() && at < |encoders| == |before| == |after|
      requires forall m :: 0 <= m < |encoders| && encoders[m] != encoders[at] ==> after[m] == before[m]
      ensures forall m :: 0 <= m < |encoders| ==> (encoders[m] == encoders[at] <==> m == at)
      ensures SomeTurned(before, after) == (after[at] != before[at])
    {
    }

    method RouteOne(config: ModeSet, connector: Connector, e: Encoder) returns (changed: bool, ok: bool)
      requires Valid() && config.crtc in crtcs && connector.encoder == e && e in encoders && e.possibleCrtcs < Pow2(32)
      modifies e
      ensures Valid()
      ensures var r := Turn(config, connector, old(e.crtc)); ok <==> r == null || Permits(e, r)
      ensures e.crtc == if ok then Turn(config, connector, old(e.crtc)) else old(e.crtc)
      ensures changed == (e.crtc != old(e.crtc))
    {
      changed, ok := false, true;
      var newCrtc := ChooseCrtc(config, connector);
      if newCrtc != null {
        ok := EncoderCrtcOk(e, newCrtc);
        if !ok { return; }
      }
      if newCrtc != e.crtc {
        changed := true;
        e.crtc := newCrtc;
      }
    }

    /** Pass b has dealt with the first `n` connectors: nothing refused yet, and `changed` if something was turned. */
    ghost predicate Passed(config: ModeSet, was: Snap, n: nat, now: Snap, changed: bool)
      requires Fitting(this, was) && Fitting(this, now) && n <= |connectors|
    {
      && now.enc == was.enc
      && (forall m :: 0 <= m < |encoders| ==> now.crtcOf[m] == RoutedTo(config, was.enc, encoders[m], was.crtcOf[m], n))
      && AllGranted(config, was.enc, was.crtcOf, n)
      && (changed == Turned(config, was.enc, was.crtcOf, n))
    }

    lemma GrantedTurn(config: ModeSet, was: Snap, i: nat, now: Snap, changed: bool, next: Snap, c: bool)
      requires Fitting(this, was) && Fitting(this, now) && Fitting(this, next) && i < |connectors|
      requires Passed(config, was, i, now, changed) && next.enc == now.enc
      requires TurnTaken(config, connectors[i], now.enc[i], now.crtcOf, next.crtcOf, c, true)
      ensures Passed(config, was, i + 1, next, changed || c)
    {
      TurnAdds(config, was.enc, was.crtcOf, i, now.crtcOf, next.crtcOf, c, true);
    }

    lemma RefusedTurn(config: ModeSet, was: Snap, i: nat, now: Snap, changed: bool, next: Snap, c: bool)
      requires Fitting(this, was) && Fitting(this, now) && Fitting(this, next) && i < |connectors|
      requires Passed(config, was, i, now, changed) && next.enc == now.enc
      requires TurnTaken(config, connectors[i], now.enc[i], now.crtcOf, next.crtcOf, c, false)
      ensures !AllGranted(config, was.enc, was.crtcOf, |connectors|)
      ensures changed == Reroutes(config, was.enc, was.crtcOf)
    {
      TurnAdds(config, was.enc, was.crtcOf, i, now.crtcOf, next.crtcOf, c, false);
      ReroutesIs(config, was.enc, was.crtcOf, i);
    }

    lemma AllTurns(config: ModeSet, was: Snap, now: Snap, changed: bool)
      requires Fitting(this, was) && Fitting(this, now) && Passed(config, was, |connectors|, now, changed)
      ensures now.crtcOf == RoutedAll(config, was.enc, was.crtcOf)
      ensures changed == Reroutes(config, was.enc, was.crtcOf)
    {
      ReroutesIs(config, was.enc, was.crtcOf, |connectors|);
    }

    /** The loop of pass b. */
    method RouteLoop(config: ModeSet, ans: Answers) returns (changed: bool, ok: bool)
      requires Valid() && Asked(config, ans)
      modifies encoders
      ensures Valid()
      ensures ok == AllGranted(config, old(Snapshot()).enc, old(Snapshot()).crtcOf, |connectors|)
      ensures ok ==> Snapshot().crtcOf == RoutedAll(config, old(Snapshot()).enc, old(Snapshot()).crtcOf)
      ensures changed == Reroutes(config, old(Snapshot()).enc, old(Snapshot()).crtcOf)
      ensures ok && !changed ==> !Turned(config, old(Snapshot()).enc, old(Snapshot()).crtcOf, |connectors|)
    {
      ghost var was := Snapshot();
      changed, ok := false, true;
      for i := 0 to |connectors|
        invariant Valid()
        invariant Passed(config, was, i, Snapshot(), changed)
      {
        ghost var now := Snapshot();
        var c;
        c, ok := RouteNext(config, ans, i);
        if !ok {
          RefusedTurn(config, was, i, now, changed, Snapshot(), c);
          return changed, false;
        }
        GrantedTurn(config, was, i, now, changed, Snapshot(), c);
        changed := changed || c;
      }
      AllTurns(config, was, Snapshot(), changed);
    }

    /**
     Pass b: route the encoders, each as its last user wants.  Every connector of the set gets
     to the target and no other does exactly when no encoder is shared across the set's border.
     */
    method PassCrtcs(config: ModeSet, ans: Answers) returns (changed: bool, ok: bool)
      requires Valid() && Asked(config, ans)
      modifies encoders
      ensures Valid()
      ensures ok ==> (RoutedRight(config) == NoneShared(config)) && AllPermitted() && RoutedByLast(config, Snapshot())
      ensures ok && !changed ==> RoutedByAll(config, Snapshot()) && Snapshot() == old(Snapshot())
      ensures ok == AllGranted(config, old(Snapshot()).enc, old(Snapshot()).crtcOf, |connectors|)
      ensures ok ==> Snapshot().crtcOf == RoutedAll(config, old(Snapshot()).enc, old(Snapshot()).crtcOf)
      ensures changed == Reroutes(config, old(Snapshot()).enc, old(Snapshot()).crtcOf)
    {
      ghost var was := Snapshot();
      changed, ok := RouteLoop(config, ans);
      if ok {
        assert Snapshot().enc == was.enc;
        LastDecides(config, was.enc, was.crtcOf, Snapshot());
        RoutingFollows(config);
        GrantedIsPermitted(config, was.enc, was.crtcOf);
        if !changed {
          forall m | 0 <= m < |encoders| ensures Snapshot().crtcOf[m] == was.crtcOf[m] {
            NoTurns(config, was.enc, was.crtcOf, |connectors|, m);
          }
          assert Snapshot().crtcOf == was.crtcOf && Snapshot().data == was.data;
          UnturnedIsRight(config, was.enc, was.crtcOf, Snapshot());
        }
      }
    }

    lemma RoutingFollows(config: ModeSet)
      requires Valid() && RoutedByLast(config, Snapshot())
      ensures RoutedRight(config) == NoneShared(config)
    {
      if NoneShared(config) {
        forall c | c in connectors && c.encoder != null ensures c in config.connectors <==> c.encoder.crtc == config.crtc {
          var enc := Snapshot().enc;
          var j :| 0 <= j < |connectors| && connectors[j] == c;
          var m :| 0 <= m < |encoders| && encoders[m] == c.encoder;
          var l := LastIn(enc, j, |connectors|);
          assert enc[l] == encoders[m] && LastOn(enc, l, l);
          assert connectors[l] in connectors;
        }
      }
    }

    /** Every encoder may be driven by every CRTC. */
    ghost predicate EveryPermitted() {
      forall e, r :: e in encoders && r in crtcs ==> Permits(e, r)
    }

    /** One of the passes changes a link. */
    ghost predicate Repatches(config: ModeSet, ans: Answers)
      reads connectors, encoders, crtcs
    {
      Rewires(config, ans) || (!Encoderless(config, ChosenAll(config, ans)) && Reroutes(config, ChosenAll(config, ans), KeptAll(config, ans)))
    }

    /** The final part of drm_crtc_helper_set_config does, or Undo is told of, a full mode set. */
    ghost predicate FullModeSet(config: ModeSet, ans: Answers)
      requires Valid() && config.mode.Some? && config.fb.Some?
      reads connectors, encoders, crtcs, config.crtc
    {
      || NeedsMode(config, config.crtc.data)
      || Repatches(config, ans)
      || (Routable(config, ChosenAll(config, ans), KeptAll(config, ans)) && NeedsBase(config, config.crtc.data) && !ans.hasModeSetBase)
    }

    /** Each connector of the set is given the encoder it has, and the encoders in use are on the target exactly where the set wants them. */
    ghost predicate LinksKept(config: ModeSet, ans: Answers)
      requires Callable(config, ans)
      reads connectors, encoders
    {
      forall c :: c in connectors ==>
        && (c in config.connectors ==> ans.best[c] == c.encoder)
        && (c.encoder != null ==> (c in config.connectors <==> c.encoder.crtc == config.crtc))
    }

    lemma KeptIsChosen(config: ModeSet, ans: Answers)
      requires Callable(config, ans) && !Rewires(config, ans)
      ensures ChosenAll(config, ans) == Snapshot().enc && KeptAll(config, ans) == Snapshot().crtcOf
    {
    }

    lemma {:induction false} KeptStays(config: ModeSet, ans: Answers, m: nat, n: nat)
      requires Callable(config, ans) && LinksKept(config, ans) && n <= |connectors| && m < |encoders|
      ensures RoutedTo(config, Snapshot().enc, encoders[m], encoders[m].crtc, n) == encoders[m].crtc
    {
      if n > 0 {
        KeptStays(config, ans, m, n - 1);
        assert connectors[n - 1] in connectors;
      }
    }

    /** Then neither pass changes a link. */
    lemma KeptLinks(config: ModeSet, ans: Answers)
      requires Callable(config, ans) && LinksKept(config, ans)
      ensures !Repatches(config, ans)
      ensures config.mode.Some? ==> PassedOn(config, ans) == Snapshot()
      ensures ChosenAll(config, ans) == Snapshot().enc && KeptAll(config, ans) == Snapshot().crtcOf
    {
      assert forall i :: 0 <= i < |connectors| ==> connectors[i] in connectors;
      assert ChosenAll(config, ans) == Snapshot().enc;
      KeptIsChosen(config, ans);
      forall k, m | 0 <= k < |connectors| && 0 <= m < |encoders| ensures !Turns(config, Snapshot().enc, Snapshot().crtcOf, k, m) {
        KeptStays(config, ans, m, k);
        KeptStays(config, ans, m, k + 1);
      }
      forall m | 0 <= m < |encoders| ensures PassedOn(config, ans).crtcOf[m] == encoders[m].crtc {
        KeptStays(config, ans, m, |connectors|);
      }
      assert PassedOn(config, ans).crtcOf == Snapshot().crtcOf;
    }

    /** And otherwise, if they do not fail, one of them does. */
    lemma LinksChange(config: ModeSet, ans: Answers)
      requires Callable(config, ans) && !LinksKept(config, ans) && Routable(config, ChosenAll(config, ans), KeptAll(config, ans))
      ensures Repatches(config, ans)
    {
      if !Rewires(config, ans) {
        KeptIsChosen(config, ans);
        var s := Snapshot();
        ReroutesIs(config, s.enc, s.crtcOf, |connectors|);
        if !Turned(config, s.enc, s.crtcOf, |connectors|) {
          UnturnedIsRight(config, s.enc, s.crtcOf, s);
          forall c | c in connectors
            ensures c in config.connectors ==> ans.best[c] == c.encoder
            ensures c.encoder != null ==> (c in config.connectors <==> c.encoder.crtc == config.crtc)
          {
            var i :| 0 <= i < |connectors| && connectors[i] == c;
            assert ChosenAll(config, ans)[i] == s.enc[i];
            if c.encoder != null {
              var m :| 0 <= m < |encoders| && encoders[m] == c.encoder;
              assert s.enc[i] == encoders[m];
            }
          }
        }
      }
    }

    /**
     When a request that can be routed is met by a full mode set: the CRTC shows nothing, or
     something of another format, or in another mode; or links change; or framebuffer or position
     do, and there is no callback for that.
     */
    lemma FullIs(config: ModeSet, ans: Answers)
      requires Callable(config, ans) && config.mode.Some? && config.fb.Some? && Routable(config, ChosenAll(config, ans), KeptAll(config, ans))
      ensures var d, fb, mode := config.crtc.data, config.fb.value, config.mode.value;
              FullModeSet(config, ans) <==>
                || d.fb == None || d.fb.value.pixelFormat != fb.pixelFormat
                || mode.hdisplay != d.mode.hdisplay || mode.vdisplay != d.mode.vdisplay || mode.timing != d.mode.timing
                || !(forall c :: c in connectors ==>
                       && (c in config.connectors ==> ans.best[c] == c.encoder)
                       && (c.encoder != null ==> (c in config.connectors <==> c.encoder.crtc == config.crtc)))
                || ((d.fb.value != fb || d.x != config.x || d.y != config.y) && !ans.hasModeSetBase)
    {
      if LinksKept(config, ans) { KeptLinks(config, ans); } else { LinksChange(config, ans); }
    }

    /** The links after both passes. */
    ghost function PassedOn(config: ModeSet, ans: Answers): (s: Snap)
      reads connectors, encoders, crtcs
      ensures Fitting(this, s)
    {
      var enc := ChosenAll(config, ans);
      Snap(enc, RoutedAll(config, enc, KeptAll(config, ans)), Snapshot().data)
    }

    /** With the links as in `s`: the target is idle or nothing refuses the full mode set; or the base change is not due or not refused. */
    ghost predicate Finishes(config: ModeSet, ans: Answers, s: Snap, modeChanged: bool, fbChanged: bool)
      requires Fitting(this, s)
    {
      if modeChanged then !Used(this, s, config.crtc) || Accepts(s.crtcOf, config.crtc, ans.attempt)
      else fbChanged ==> ans.modeSetBase == 0
    }

    /** When drm_crtc_helper_set_config succeeds for a set with a framebuffer. */
    ghost predicate Succeeds(config: ModeSet, ans: Answers)
      requires Valid() && config.mode.Some? && config.fb.Some?
      reads connectors, encoders, crtcs, config.crtc
    {
      && ans.memory && Routable(config, ChosenAll(config, ans), KeptAll(config, ans))
      && Finishes(config, ans, PassedOn(config, ans), FullModeSet(config, ans), NeedsBase(config, config.crtc.data))
    }

    /** Nothing that is asked refuses: allocation, masks, the callbacks of the mode set and of the base change. */
    ghost predicate Willing(ans: Answers) {
      && ans.memory && ans.modeSetBase == 0 && EveryPermitted()
      && ans.attempt.duplicated && ans.attempt.crtcFixup && ans.attempt.modeSet
      && |encoders| <= |ans.attempt.encoderFixup|
      && forall j :: 0 <= j < |encoders| ==> ans.attempt.encoderFixup[j]
    }

    /** Where a successful last part leads from `s`. */
    ghost function Outcome(config: ModeSet, ans: Answers, s: Snap, modeChanged: bool, fbChanged: bool): Snap
      requires Fitting(this, s) && config.mode.Some?
    {
      if modeChanged then Cleanup(this, ModeApplied(this, s, config, ans.attempt.adjusted))
      else if fbChanged then BaseApplied(this, s, config)
      else s
    }

    /** The whole state after a successful drm_crtc_helper_set_config for a set with a framebuffer. */
    ghost function Result(config: ModeSet, ans: Answers): Snap
      requires Valid() && config.mode.Some? && config.fb.Some?
      reads connectors, encoders, crtcs, config.crtc
    {
      Outcome(config, ans, PassedOn(config, ans), FullModeSet(config, ans), NeedsBase(config, config.crtc.data))
    }

    /** With the same links, CRTCs none of which was turned on or off are marked if they were. */
    lemma OutcomeMarks(before: Snap, after: Snap)
      requires Fitting(this, before) && Fitting(this, after) && after.enc == before.enc && after.crtcOf == before.crtcOf
      requires forall k :: 0 <= k < |crtcs| ==> after.data[k].enabled == before.data[k].enabled
      ensures Marked(this, before) ==> Marked(this, after)
    {
      forall k | 0 <= k < |crtcs| ensures Used(this, after, crtcs[k]) == Used(this, before, crtcs[k]) {
      }
    }

    /** A device that permits everything and callbacks that all agree make every request succeed that has its encoders. */
    lemma WillingSucceeds(config: ModeSet, ans: Answers)
      requires Callable(config, ans) && config.mode.Some? && config.fb.Some? && Willing(ans)
      ensures Succeeds(config, ans) == !Encoderless(config, ChosenAll(config, ans))
    {
      var enc, crtcOf := ChosenAll(config, ans), KeptAll(config, ans);
      forall j, m | 0 <= j < |enc| && 0 <= m < |encoders| && enc[j] == encoders[m] ensures Grants(config, enc, crtcOf, j, m) {
        assert encoders[m] in encoders;
        RoutedInside(config, enc, encoders[m], crtcOf[m], j + 1);
      }
    }

    lemma {:induction false} RoutedInside(config: ModeSet, enc: seq<Encoder?>, e: Encoder, was: Crtc?, n: nat)
      requires n <= |enc| == |connectors| && config.crtc in crtcs && (was == null || was in crtcs)
      ensures var r := RoutedTo(config, enc, e, was, n); r == null || r in crtcs
    {
      if n > 0 { RoutedInside(config, enc, e, was, n - 1); }
    }

    // ---------- backup and restore ----------

    method Save() returns (s: Snap)
      ensures s == Snapshot()
    {
      var enc: seq<Encoder?>, crtcOf: seq<Crtc?>, data := [], [], [];
      for i := 0 to |crtcs|
        invariant |data| == i && forall k :: 0 <= k < i ==> data[k] == crtcs[k].data
      {
        data := data + [crtcs[i].data];
      }
      for i := 0 to |encoders|
        invariant |crtcOf| == i && forall k :: 0 <= k < i ==> crtcOf[k] == encoders[k].crtc
      {
        crtcOf := crtcOf + [encoders[i].crtc];
      }
      for i := 0 to |connectors|
        invariant |enc| == i && forall k :: 0 <= k < i ==> enc[k] == connectors[k].encoder
      {
        enc := enc + [connectors[i].encoder];
      }
      s := Snap(enc, crtcOf, data);
    }

    method Restore(s: Snap)
      requires Valid() && Fitting(this, s)
      modifies connectors, encoders, crtcs
      ensures Snapshot() == s
    {
      RestoreCrtcs(s.data);
      RestoreEncoders(s.crtcOf);
      RestoreConnectors(s.enc);
    }

    method RestoreCrtcs(data: seq<CrtcData>)
      requires Valid() && |data| == |crtcs|
      modifies crtcs
      ensures Datas() == data
    {
      for i := 0 to |crtcs|
        invariant forall k :: 0 <= k < i ==> crtcs[k].data == data[k]
      {
        crtcs[i].data := data[i];
      }
    }

    method RestoreEncoders(crtcOf: seq<Crtc?>)
      requires (forall i, j :: 0 <= i < j < |encoders| ==> encoders[i] != encoders[j]) && |crtcOf| == |encoders|
      modifies encoders
      ensures CrtcOfs() == crtcOf
    {
      for i := 0 to |encoders|
        invariant forall k :: 0 <= k < i ==> encoders[k].crtc == crtcOf[k]
      {
        encoders[i].crtc := crtcOf[i];
      }
    }

    method RestoreConnectors(enc: seq<Encoder?>)
      requires (forall i, j :: 0 <= i < j < |connectors| ==> connectors[i] != connectors[j]) && |enc| == |connectors|
      modifies connectors
      ensures Encs() == enc
    {
      for i := 0 to |connectors|
        invariant forall k :: 0 <= k < i ==> connectors[k].encoder == enc[k]
      {
        connectors[i].encoder := enc[i];
      }
    }

    /** Which of a full mode set and a base change the request needs, before the passes look at the routing. */
    method CompareWithCurrent(config: ModeSet) returns (modeChanged: bool, fbChanged: bool)
      requires config.mode.Some? && config.fb.Some?
      ensures modeChanged == NeedsMode(config, config.crtc.data)
      ensures fbChanged == NeedsBase(config, config.crtc.data)
      ensures var d, fb, mode := config.crtc.data, config.fb.value, config.mode.value;
              && (modeChanged <==>
                    || d.fb == None || d.fb.value.pixelFormat != fb.pixelFormat
                    || mode.hdisplay != d.mode.hdisplay || mode.vdisplay != d.mode.vdisplay || mode.timing != d.mode.timing)
              && (fbChanged <==>
                    || (d.fb.Some? && d.fb.value != fb && d.fb.value.pixelFormat == fb.pixelFormat)
                    || config.x != d.x || config.y != d.y)
    {
      modeChanged, fbChanged := false, false;
      var current := config.crtc.data;
      if current.fb != config.fb {
        if current.fb == None {
          modeChanged := true;
        } else if config.fb.value.pixelFormat != current.fb.value.pixelFormat {
          modeChanged := true;
        } else {
          fbChanged := true;
        }
      }
      if config.x != current.x || config.y != current.y { fbChanged := true; }
      if !ModeEqual(config.mode.value, current.mode) { modeChanged := true; }
    }

    method TryMode(config: ModeSet, ans: Answers) returns (ok: bool)
      requires Valid() && config.crtc in crtcs && config.mode.Some?
      modifies config.crtc
      ensures ok <==> !CrtcInUse(config.crtc) || Accepts(Snapshot().crtcOf, config.crtc, ans.attempt)
      ensures ok ==> config.crtc.data == InstallMode(CrtcInUse(config.crtc), old(config.crtc.data), config, ans.attempt.adjusted)
    {
      var used := HelperCrtcInUse(config.crtc);
      config.crtc.data := config.crtc.data.(enabled := used);
      ok := true;
      if used {
        var oldFb := config.crtc.data.fb;
        config.crtc.data := config.crtc.data.(fb := config.fb);
        ok := SetMode(config.crtc, config.mode.value, config.x, config.y, ans.attempt);
        if !ok { config.crtc.data := config.crtc.data.(fb := oldFb); }
      }
    }

    /** The full mode set at the end of drm_crtc_helper_set_config. */
    method ApplyMode(config: ModeSet, ans: Answers) returns (ok: bool)
      requires Valid() && config.crtc in crtcs && config.mode.Some?
      modifies connectors, encoders, crtcs
      ensures Valid()
      ensures ok == Finishes(config, ans, old(Snapshot()), true, false)
      ensures ok ==> Snapshot() == Cleanup(this, ModeApplied(this, old(Snapshot()), config, ans.attempt.adjusted))
      ensures ok ==> forall c :: c in connectors ==> c.encoder == (if c.status == Disconnected then null else old(c.encoder))
      ensures ok ==> forall e :: e in encoders ==> e.crtc == (if EncoderInUse(e) then old(e.crtc) else null)
    {
      CrtcInUseIsUsed(config.crtc);
      ok := TryMode(config, ans);
      if !ok { return; }
      assert Snapshot() == ModeApplied(this, old(Snapshot()), config, ans.attempt.adjusted) by {
        assert Snapshot().enc == old(Snapshot()).enc;
        assert Snapshot().crtcOf == old(Snapshot()).crtcOf;
        assert Snapshot().data == ModeApplied(this, old(Snapshot()), config, ans.attempt.adjusted).data;
      }
      DisableUnusedFunctions();
    }

    /** The base change: position and fb only; the callback's error is passed on. */
    method ApplyBase(config: ModeSet, ans: Answers) returns (ret: int)
      requires Valid() && config.crtc in crtcs
      modifies config.crtc
      ensures ret == ans.modeSetBase
      ensures ret == 0 ==> config.crtc.data == old(config.crtc.data).(x := config.x, y := config.y, fb := config.fb)
    {
      var oldFb := config.crtc.data.fb;
      config.crtc.data := config.crtc.data.(x := config.x, y := config.y);
      if config.crtc.data.fb != config.fb { config.crtc.data := config.crtc.data.(fb := config.fb); }
      ret := ans.modeSetBase;
      if ret != 0 { config.crtc.data := config.crtc.data.(fb := oldFb); }
    }

    /** The whole state after a drm_crtc_helper_set_config that failed. */
    ghost function Undone(config: ModeSet, ans: Answers): Snap
      requires Valid() && config.mode.Some? && config.fb.Some?
      reads connectors, encoders, crtcs, config.crtc
    {
      if ans.memory && FullModeSet(config, ans) then SetAgain(this, Snapshot(), config.crtc, ans.restore) else Snapshot()
    }

    /** Put everything back and try to bring the old mode up again on the hardware. */
    method Undo(config: ModeSet, ans: Answers, saved: Snap, modeChanged: bool)
      requires Valid() && Fitting(this, saved) && config.crtc in crtcs
      requires forall i :: 0 <= i < |saved.enc| ==> saved.enc[i] == null || saved.enc[i] in encoders
      requires forall j :: 0 <= j < |saved.crtcOf| ==> saved.crtcOf[j] == null || saved.crtcOf[j] in crtcs
      modifies connectors, encoders, crtcs
      ensures Valid()
      ensures Snapshot() == if modeChanged then SetAgain(this, saved, config.crtc, ans.restore) else saved
    {
      Restore(saved);
      assert Valid();
      CrtcInUseIsUsed(config.crtc);
      if modeChanged {
        var d := config.crtc.data;
        var ok := SetMode(config.crtc, d.mode, d.x, d.y, ans.restore);
        assert Snapshot().data == SetAgain(this, saved, config.crtc, ans.restore).data;
        assert Snapshot().enc == saved.enc;
        assert Snapshot().crtcOf == saved.crtcOf;
      }
    }

    /** Every connected connector of the set drives the target, and no connector outside it does. */
    ghost predicate RoutesSet(config: ModeSet)
      reads connectors, encoders
      requires Valid()
    {
      && (forall c :: c in connectors && c in config.connectors && c.status != Disconnected ==> c.encoder != null && c.encoder.crtc == config.crtc)
      && (forall c :: c in connectors && c !in config.connectors && c.encoder != null ==> c.encoder.crtc != config.crtc)
    }

    ghost predicate TargetShows(config: ModeSet)
      reads connectors, encoders, config.crtc
      requires config.mode.Some?
    {
      CrtcInUse(config.crtc) ==>
        && config.crtc.data.fb == config.fb && config.crtc.data.x == config.x && config.crtc.data.y == config.y
        && ModeEqual(config.crtc.data.mode, config.mode.value)
    }

    /** What a successful drm_crtc_helper_set_config did to the CRTCs. */
    ghost predicate CrtcsFinished(config: ModeSet, before: Snap, after: Snap)
      requires Fitting(this, before) && Fitting(this, after) && config.mode.Some?
    {
      forall k :: 0 <= k < |crtcs| ==>
        if crtcs[k] == config.crtc then TargetMay(before.data[k], after.data[k], config) else KeptOrDark(before.data[k], after.data[k])
    }

    /** The links after the cleanup of `was`. */
    ghost predicate Tidied(was: Snap)
      requires Fitting(this, was)
      reads connectors, encoders
    {
      && (forall i :: 0 <= i < |connectors| ==> connectors[i].encoder == (if connectors[i].status == Disconnected then null else was.enc[i]))
      && (forall j :: 0 <= j < |encoders| ==> encoders[j].crtc == (if EncoderInUse(encoders[j]) then was.crtcOf[j] else null))
    }

    /** Every encoder that is last given to connector `l` is on the target exactly if `l` is in the set. */
    ghost predicate RoutedByLast(config: ModeSet, s: Snap)
      requires Fitting(this, s)
    {
      forall l, m :: 0 <= l < |s.enc| && 0 <= m < |s.crtcOf| && s.enc[l] == encoders[m] && LastOn(s.enc, l, l) ==>
        (connectors[l] in config.connectors <==> s.crtcOf[m] == config.crtc)
    }

    ghost predicate RoutedByAll(config: ModeSet, s: Snap)
      requires Fitting(this, s)
    {
      forall l, m :: 0 <= l < |s.enc| && 0 <= m < |s.crtcOf| && s.enc[l] == encoders[m] ==>
        (connectors[l] in config.connectors <==> s.crtcOf[m] == config.crtc)
    }

    method FinishMode(config: ModeSet, ans: Answers) returns (ok: bool)
      requires Valid() && config.crtc in crtcs && config.mode.Some?
      modifies connectors, encoders, crtcs
      ensures Valid()
      ensures ok == Finishes(config, ans, old(Snapshot()), true, false)
      ensures ok ==> Snapshot() == Outcome(config, ans, old(Snapshot()), true, false)
      ensures ok && old(AllPermitted()) ==> AllPermitted()
      ensures ok ==> TargetShows(config) && CrtcsFinished(config, old(Snapshot()), Snapshot()) && Tidied(old(Snapshot())) && Clean(this, Snapshot())
    {
      ok := ApplyMode(config, ans);
      if ok {
        AppliedThenCleaned(this, old(Snapshot()), config, ans.attempt.adjusted);
        CrtcInUseIsUsed(config.crtc);
        var k :| 0 <= k < |crtcs| && crtcs[k] == config.crtc;
        assert Snapshot().data[k] == config.crtc.data;
      }
    }

    /** The last part of drm_crtc_helper_set_config: full mode set, base change, or nothing. */
    method Finish(config: ModeSet, ans: Answers, modeChanged: bool, fbChanged: bool) returns (ret: int)
      requires Valid() && config.crtc in crtcs && config.mode.Some?
      requires !modeChanged ==> ModeEqual(config.mode.value, config.crtc.data.mode)
      requires !modeChanged && !fbChanged ==> Requested(config.crtc.data, config)
      modifies connectors, encoders, crtcs
      ensures Valid()
      ensures (ret == 0) == Finishes(config, ans, old(Snapshot()), modeChanged, fbChanged)
      ensures ret == 0 ==> Snapshot() == Outcome(config, ans, old(Snapshot()), modeChanged, fbChanged)
      ensures ret == 0 && old(AllPermitted()) ==> AllPermitted()
      ensures ret == 0 ==> TargetShows(config) && CrtcsFinished(config, old(Snapshot()), Snapshot())
      ensures ret == 0 && modeChanged ==> Clean(this, Snapshot()) && Tidied(old(Snapshot()))
      ensures !modeChanged ==> Snapshot().enc == old(Snapshot()).enc && Snapshot().crtcOf == old(Snapshot()).crtcOf
    {
      if modeChanged {
        var ok := FinishMode(config, ans);
        ret := if ok then 0 else EINVAL;
      } else {
        ret := 0;
        if fbChanged { ret := ApplyBase(config, ans); }
        assert Snapshot().enc == old(Snapshot()).enc;
        assert Snapshot().crtcOf == old(Snapshot()).crtcOf;
        assert ret == 0 ==> Snapshot().data == Outcome(config, ans, old(Snapshot()), false, fbChanged).data;
      }
    }

    /**
     drm_crtc_helper_set_config.  On any error all links, framebuffers, positions and modes are
     as on entry, and so is the rest of the target unless the restoring mode set changes it.  On
     success the graph is routed as asked exactly when the last users of the encoders agree.
     CRTCs that were enabled exactly when used are so again, whatever the outcome.

     Where the target shows nothing, another pixel format or another
     mode than is asked for, it is set up anew: it has what the callbacks made of the mode, and if
     they refuse that is an error.  Where format, mode and links are the same a base change is all
     there is.
     */
    method SetConfig(config: ModeSet, ans: Answers) returns (ret: int)
      requires Callable(config, ans)
      modifies connectors, encoders, crtcs
      ensures Valid()
      ensures config.fb.Some? ==> config.mode.Some? && ((ret == 0) == old(Succeeds(config, ans)))
      ensures config.fb.Some? ==> Snapshot() == if ret == 0 then old(Result(config, ans)) else old(Undone(config, ans))
      ensures ret != 0 ==> config.fb.Some? && RolledBack(this, old(Snapshot()), Snapshot(), config.crtc)
      ensures ret != 0 ==> Encs() == old(Encs()) && CrtcOfs() == old(CrtcOfs())
      ensures ret != 0 ==> forall k :: 0 <= k < |crtcs| ==>
                var before, after := old(Datas())[k], Datas()[k];
                && after.fb == before.fb && after.mode == before.mode && after.x == before.x && after.y == before.y
                && (crtcs[k] != config.crtc ==> after == before)
      ensures ret != 0 ==>
                (Snapshot() == old(Snapshot()) <==>
                  !ans.memory || !old(FullModeSet(config, ans)) || BroughtBack(this, old(Snapshot()), config.crtc, ans.restore))
      ensures Marked(this, old(Snapshot())) ==> Marked(this, Snapshot())
      ensures ret != 0 && Marked(this, old(Snapshot())) ==>
                (Snapshot() == old(Snapshot()) <==>
                  !ans.memory || !old(FullModeSet(config, ans)) || SameAgain(this, old(Snapshot()), config.crtc, ans.restore))
      ensures config.fb == None ==> ret == 0 && Snapshot() == Cleanup(this, Decouple(this, old(Snapshot()), config.crtc))
      ensures ret == 0 && config.fb.Some? ==> TargetShows(config) && AllPermitted()
      ensures ret == 0 && config.fb.Some? && CrtcInUse(config.crtc) ==>
                var d, mode := config.crtc.data, config.mode.value;
                && d.fb == config.fb && d.x == config.x && d.y == config.y
                && d.mode.hdisplay == mode.hdisplay && d.mode.vdisplay == mode.vdisplay && d.mode.timing == mode.timing
      ensures ret == 0 && config.fb.Some? ==>
                forall c :: c in connectors && c.encoder != null && c.encoder.crtc != null ==> Permits(c.encoder, c.encoder.crtc)
      ensures ret == 0 && config.fb.Some? ==> (RoutesSet(config) == LastUsersAgree(config, old(ChosenAll(config, ans))))
      ensures ret == 0 && config.fb.Some? ==> CrtcsFinished(config, old(Snapshot()), Snapshot())
      ensures ret == 0 && config.fb.Some? ==>
                if old(FullModeSet(config, ans)) then Clean(this, Snapshot())
                else Snapshot().enc == old(Snapshot()).enc && Snapshot().crtcOf == old(Snapshot()).crtcOf
      ensures ret == 0 && config.fb.Some? ==>
                var d, fb, mode := old(config.crtc.data), config.fb.value, config.mode.value;
                (|| d.fb == None || d.fb.value.pixelFormat != fb.pixelFormat
                 || mode.hdisplay != d.mode.hdisplay || mode.vdisplay != d.mode.vdisplay || mode.timing != d.mode.timing) ==>
                  if CrtcInUse(config.crtc)
                  then config.crtc.data == CrtcData(true, config.fb, mode, ans.attempt.adjusted, config.x, config.y)
                       && ans.attempt.duplicated && ans.attempt.crtcFixup && ans.attempt.modeSet
                  else !config.crtc.data.enabled && config.crtc.data.fb == None
      ensures config.fb.Some? && !(ans.attempt.duplicated && ans.attempt.crtcFixup && ans.attempt.modeSet) ==>
                var d, fb, mode := old(config.crtc.data), config.fb.value, config.mode.value;
                (|| d.fb == None || d.fb.value.pixelFormat != fb.pixelFormat
                 || mode.hdisplay != d.mode.hdisplay || mode.vdisplay != d.mode.vdisplay || mode.timing != d.mode.timing) ==>
                  forall l :: 0 <= l < |connectors| && connectors[l] in config.connectors && GivenLast(config, ans, old(Encs()), l) ==> ret != 0
      ensures config.fb.Some? && old(LinksKept(config, ans)) ==>
                var d, fb, mode := old(config.crtc.data), config.fb.value, config.mode.value;
                var same := d.fb == config.fb && d.x == config.x && d.y == config.y;
                (&& d.fb.Some? && d.fb.value.pixelFormat == fb.pixelFormat
                 && mode.hdisplay == d.mode.hdisplay && mode.vdisplay == d.mode.vdisplay && mode.timing == d.mode.timing
                 && (ans.hasModeSetBase || same)) ==>
                  && (ret == 0 ==> ans.memory && (same || ans.modeSetBase == 0))
                  && forall k :: 0 <= k < |crtcs| && crtcs[k] == config.crtc ==>
                       Snapshot() == if ret != 0 then old(Snapshot())
                                     else old(Snapshot()).(data := old(Snapshot()).data[k := d.(fb := config.fb, x := config.x, y := config.y)])
    {
      ghost var k :| 0 <= k < |crtcs| && crtcs[k] == config.crtc;
      AtEntry(config, ans, k);
      ret := Configure(config, ans);
      CrtcInUseIsUsed(config.crtc);
    }

    /** The same, by what the passes make of the links. */
    method Configure(config: ModeSet, ans: Answers) returns (ret: int)
      requires Callable(config, ans)
      modifies connectors, encoders, crtcs
      ensures Valid()
      ensures config.fb.Some? ==> config.mode.Some? && ((ret == 0) == old(Succeeds(config, ans)))
      ensures config.fb.Some? ==> Snapshot() == if ret == 0 then old(Result(config, ans)) else old(Undone(config, ans))
      ensures ret != 0 ==> config.fb.Some? && RolledBack(this, old(Snapshot()), Snapshot(), config.crtc)
      ensures ret != 0 ==>
                (Snapshot() == old(Snapshot()) <==>
                  !ans.memory || !old(FullModeSet(config, ans)) || BroughtBack(this, old(Snapshot()), config.crtc, ans.restore))
      ensures Marked(this, old(Snapshot())) ==> Marked(this, Snapshot())
      ensures ret != 0 && Marked(this, old(Snapshot())) ==>
                (Snapshot() == old(Snapshot()) <==>
                  !ans.memory || !old(FullModeSet(config, ans)) || SameAgain(this, old(Snapshot()), config.crtc, ans.restore))
      ensures config.fb == None ==> ret == 0 && Snapshot() == Cleanup(this, Decouple(this, old(Snapshot()), config.crtc))
      ensures ret == 0 && config.fb.Some? ==> TargetShows(config) && AllPermitted()
      ensures ret == 0 && config.fb.Some? ==> (RoutesSet(config) == LastUsersAgree(config, old(ChosenAll(config, ans))))
      ensures ret == 0 && config.fb.Some? ==> CrtcsFinished(config, old(Snapshot()), Snapshot())
      ensures ret == 0 && config.fb.Some? ==>
                if old(FullModeSet(config, ans)) then Clean(this, Snapshot())
                else Snapshot().enc == old(Snapshot()).enc && Snapshot().crtcOf == old(Snapshot()).crtcOf
    {
      if config.mode == None || config.fb == None {
        ret := HelperDisable(config.crtc);
        CleanupIsClean(this, Decouple(this, old(Snapshot()), config.crtc));
        return;
      }
      ret := Change(config, ans);
      SetAgainKeeps(this, old(Snapshot()), config.crtc, ans.restore);
      if ret == 0 && !old(FullModeSet(config, ans)) { OutcomeMarks(old(Snapshot()), Snapshot()); }
    }

    lemma AtEntry(config: ModeSet, ans: Answers, k: nat)
      requires Callable(config, ans) && k < |crtcs| && crtcs[k] == config.crtc
      ensures config.mode.Some? && config.fb.Some? && NeedsMode(config, config.crtc.data) && Succeeds(config, ans) ==>
                var r := Result(config, ans);
                if Used(this, r, config.crtc)
                then r.data[k] == CrtcData(true, config.fb, config.mode.value, ans.attempt.adjusted, config.x, config.y)
                     && ans.attempt.duplicated && ans.attempt.crtcFixup && ans.attempt.modeSet
                else !r.data[k].enabled && r.data[k].fb == None
      ensures config.mode.Some? && config.fb.Some? && NeedsMode(config, config.crtc.data)
              && !(ans.attempt.duplicated && ans.attempt.crtcFixup && ans.attempt.modeSet) ==>
                forall l :: 0 <= l < |connectors| && connectors[l] in config.connectors && GivenLast(config, ans, Encs(), l) ==> !Succeeds(config, ans)
      ensures config.mode.Some? && config.fb.Some? && LinksKept(config, ans) && !NeedsMode(config, config.crtc.data)
              && (ans.hasModeSetBase || !NeedsBase(config, config.crtc.data)) ==>
                && Undone(config, ans) == Snapshot()
                && Result(config, ans) == Snapshot().(data := Snapshot().data[k := config.crtc.data.(fb := config.fb, x := config.x, y := config.y)])
                && (Succeeds(config, ans) <==>
                      && ans.memory && (NeedsBase(config, config.crtc.data) ==> ans.modeSetBase == 0)
                      && (forall c :: c in config.connectors ==> c.encoder != null) && AllPermitted())
    {
      if config.mode.Some? && config.fb.Some? {
        if NeedsMode(config, config.crtc.data) {
          if Succeeds(config, ans) {
            ModeDue(config, ans, k);
            forall l | 0 <= l < |connectors| && connectors[l] in config.connectors && GivenLast(config, ans, Encs(), l)
              ensures ans.attempt.duplicated && ans.attempt.crtcFixup && ans.attempt.modeSet
            {
              RefusedFails(config, ans, l);
            }
          }
        } else if LinksKept(config, ans) && (ans.hasModeSetBase || !NeedsBase(config, config.crtc.data)) {
          BaseDue(config, ans, k);
        }
      }
    }

    /** What a full mode set leaves of the target. */
    lemma ModeDue(config: ModeSet, ans: Answers, k: nat)
      requires Callable(config, ans) && config.mode.Some? && config.fb.Some? && NeedsMode(config, config.crtc.data)
      requires k < |crtcs| && crtcs[k] == config.crtc && Succeeds(config, ans)
      ensures var r := Result(config, ans);
              if Used(this, r, config.crtc)
              then r.data[k] == CrtcData(true, config.fb, config.mode.value, ans.attempt.adjusted, config.x, config.y)
                   && ans.attempt.duplicated && ans.attempt.crtcFixup && ans.attempt.modeSet
              else !r.data[k].enabled && r.data[k].fb == None
    {
      AppliedThenCleaned(this, PassedOn(config, ans), config, ans.attempt.adjusted);
    }

    /** Connector `l` of the set is given an encoder that no connector after it has. */
    ghost predicate GivenLast(config: ModeSet, ans: Answers, enc: seq<Encoder?>, l: nat)
      requires l < |enc| == |connectors| && Asked(config, ans) && connectors[l] in config.connectors
    {
      ans.best[connectors[l]] != null
      && forall k :: l < k < |connectors| ==>
           ans.best[connectors[l]] != if connectors[k] in config.connectors then ans.best[connectors[k]] else enc[k]
    }

    /** The target is in use after the passes if some connector of the set is the last that is given its encoder; then a refusal counts. */
    lemma RefusedFails(config: ModeSet, ans: Answers, l: nat)
      requires Callable(config, ans) && config.mode.Some? && config.fb.Some? && NeedsMode(config, config.crtc.data)
      requires Succeeds(config, ans)
      requires l < |connectors| && connectors[l] in config.connectors && ans.best[connectors[l]] != null
      requires forall k :: l < k < |connectors| ==>
                 ans.best[connectors[l]] != if connectors[k] in config.connectors then ans.best[connectors[k]] else Encs()[k]
      ensures ans.attempt.duplicated && ans.attempt.crtcFixup && ans.attempt.modeSet
    {
      var enc, s := ChosenAll(config, ans), PassedOn(config, ans);
      var m :| 0 <= m < |encoders| && encoders[m] == enc[l];
      RoutedIs(config, enc, encoders[m], KeptAll(config, ans)[m], l, |connectors|);
      assert s.crtcOf[m] == config.crtc && encoders[m] in s.enc;
      assert Used(this, s, config.crtc);
    }

    /** Links kept, the same format and mode: the base change is all, or there is not even that. */
    lemma BaseDue(config: ModeSet, ans: Answers, k: nat)
      requires Callable(config, ans) && config.mode.Some? && config.fb.Some? && LinksKept(config, ans) && !NeedsMode(config, config.crtc.data)
      requires k < |crtcs| && crtcs[k] == config.crtc && (ans.hasModeSetBase || !NeedsBase(config, config.crtc.data))
      ensures Undone(config, ans) == Snapshot()
      ensures Result(config, ans) == Snapshot().(data := Snapshot().data[k := config.crtc.data.(fb := config.fb, x := config.x, y := config.y)])
      ensures Succeeds(config, ans) <==>
                && ans.memory && (NeedsBase(config, config.crtc.data) ==> ans.modeSetBase == 0)
                && (forall c :: c in config.connectors ==> c.encoder != null) && AllPermitted()
    {
      KeptLinks(config, ans);
      KeptGranted(config, ans);
      assert Result(config, ans).data == Snapshot().data[k := config.crtc.data.(fb := config.fb, x := config.x, y := config.y)];
    }

    lemma KeptGranted(config: ModeSet, ans: Answers)
      requires Callable(config, ans) && LinksKept(config, ans)
      ensures AllGranted(config, Snapshot().enc, Snapshot().crtcOf, |connectors|) == AllPermitted()
      ensures Encoderless(config, Snapshot().enc) == !(forall c :: c in config.connectors ==> c.encoder != null)
    {
      var s := Snapshot();
      forall j, m | 0 <= j < |connectors| && 0 <= m < |encoders| && s.enc[j] == encoders[m]
        ensures Grants(config, s.enc, s.crtcOf, j, m) <==> (encoders[m].crtc != null ==> Permits(encoders[m], encoders[m].crtc))
      {
        KeptStays(config, ans, m, j + 1);
      }
      if AllGranted(config, s.enc, s.crtcOf, |connectors|) {
        forall c | c in connectors && c.encoder != null && c.encoder.crtc != null ensures Permits(c.encoder, c.encoder.crtc) {
          var j :| 0 <= j < |connectors| && connectors[j] == c;
          var m :| 0 <= m < |encoders| && encoders[m] == c.encoder;
          assert s.enc[j] == encoders[m] && Grants(config, s.enc, s.crtcOf, j, m);
        }
      }
      if AllPermitted() {
        forall j, m | 0 <= j < |connectors| && 0 <= m < |encoders| && s.enc[j] == encoders[m] ensures Grants(config, s.enc, s.crtcOf, j, m) {
          assert connectors[j] in connectors;
        }
      }
      if Encoderless(config, s.enc) {
        var j :| 0 <= j < |connectors| && connectors[j] in config.connectors && s.enc[j] == null;
        assert connectors[j].encoder == null;
      }
      forall c | c in config.connectors && c.encoder == null ensures Encoderless(config, s.enc) {
        var j :| 0 <= j < |connectors| && connectors[j] == c;
        assert s.enc[j] == null;
      }
    }

    lemma EncoderlessFails(config: ModeSet, ans: Answers)
      requires Valid() && config.mode.Some? && config.fb.Some? && NeedsMode(config, config.crtc.data) && ans.memory
      requires Encoderless(config, ChosenAll(config, ans))
      ensures !Succeeds(config, ans) && Undone(config, ans) == SetAgain(this, Snapshot(), config.crtc, ans.restore)
    {
    }

    /** drm_crtc_helper_set_config for a set with a framebuffer. */
    method Change(config: ModeSet, ans: Answers) returns (ret: int)
      requires Valid() && Asked(config, ans) && config.mode.Some? && config.fb.Some?
      modifies connectors, encoders, crtcs
      ensures Valid()
      ensures (ret == 0) == old(Succeeds(config, ans))
      ensures Snapshot() == if ret == 0 then old(Result(config, ans)) else old(Undone(config, ans))
      ensures ret == 0 ==> TargetShows(config) && AllPermitted() && CrtcsFinished(config, old(Snapshot()), Snapshot())
      ensures ret == 0 ==> (RoutesSet(config) == LastUsersAgree(config, old(ChosenAll(config, ans))))
      ensures ret == 0 ==> if old(FullModeSet(config, ans)) then Clean(this, Snapshot())
                           else Snapshot().enc == old(Snapshot()).enc && Snapshot().crtcOf == old(Snapshot()).crtcOf
    {
      if !ans.memory { return ENOMEM; }
      var saved := Save();
      var modeChanged;
      ret, modeChanged := Attempt(config, ans);
      if ret != 0 { Undo(config, ans, saved, modeChanged); }
    }

    /** The two passes. */
    method Route(config: ModeSet, ans: Answers) returns (changed: bool, fail: bool)
      requires Valid() && Asked(config, ans)
      modifies connectors, encoders
      ensures Valid()
      ensures changed == old(Repatches(config, ans))
      ensures fail == !old(Routable(config, ChosenAll(config, ans), KeptAll(config, ans)))
      ensures !fail ==> Encs() == old(ChosenAll(config, ans)) && CrtcOfs() == RoutedAll(config, old(ChosenAll(config, ans)), old(KeptAll(config, ans)))
      ensures !fail ==> AllPermitted() && RoutedByLast(config, Snapshot()) && !Encoderless(config, Snapshot().enc)
      ensures !fail && !changed ==> RoutedByAll(config, Snapshot()) && Encs() == old(Encs()) && CrtcOfs() == old(CrtcOfs())
    {
      changed, fail := PassEncoders(config, ans);
      if !fail {
        var c, ok := PassCrtcs(config, ans);
        changed, fail := changed || c, !ok;
      }
    }

    /** The two passes and the last part; a non-zero result leaves the mess for `Undo`. */
    method Attempt(config: ModeSet, ans: Answers) returns (ret: int, modeChanged: bool)
      requires Valid() && Asked(config, ans) && config.mode.Some? && config.fb.Some? && ans.memory
      modifies connectors, encoders, crtcs
      ensures Valid()
      ensures modeChanged == old(FullModeSet(config, ans))
      ensures var d, mode := old(config.crtc.data), config.mode.value;
              (|| d.fb == None || d.fb.value.pixelFormat != config.fb.value.pixelFormat
               || mode.hdisplay != d.mode.hdisplay || mode.vdisplay != d.mode.vdisplay || mode.timing != d.mode.timing) ==>
                modeChanged
      ensures (ret == 0) == old(Succeeds(config, ans))
      ensures ret == 0 ==> Snapshot() == old(Result(config, ans))
      ensures ret == 0 ==> TargetShows(config) && AllPermitted() && CrtcsFinished(config, old(Snapshot()), Snapshot())
      ensures ret == 0 ==> (RoutesSet(config) == LastUsersAgree(config, old(ChosenAll(config, ans))))
      ensures ret == 0 ==> if modeChanged then Clean(this, Snapshot())
                           else Snapshot().enc == old(Snapshot()).enc && Snapshot().crtcOf == old(Snapshot()).crtcOf
    {
      var fbChanged, fail;
      modeChanged, fbChanged, fail := Prepare(config, ans);
      if fail { return EINVAL, modeChanged; }
      ret := FinishRouted(config, ans, modeChanged, fbChanged);
    }

    /** What drm_crtc_helper_set_config does before it touches the target. */
    method Prepare(config: ModeSet, ans: Answers) returns (modeChanged: bool, fbChanged: bool, fail: bool)
      requires Valid() && Asked(config, ans) && config.mode.Some? && config.fb.Some?
      modifies connectors, encoders
      ensures Valid()
      ensures modeChanged == old(FullModeSet(config, ans))
      ensures fbChanged == NeedsBase(config, old(config.crtc.data))
      ensures fail == !old(Routable(config, ChosenAll(config, ans), KeptAll(config, ans)))
      ensures !fail ==> Routed(config, modeChanged, fbChanged) && Snapshot() == old(PassedOn(config, ans))
      ensures !fail && !modeChanged ==> Snapshot() == old(Snapshot())
    {
      modeChanged, fbChanged := CompareWithCurrent(config);
      var routed;
      routed, fail := Route(config, ans);
      modeChanged := modeChanged || routed;
      if fail { return; }
      if fbChanged && !ans.hasModeSetBase { modeChanged := true; }
    }

    /** All is ready for the full mode set, the base change or neither, as the two flags say. */
    ghost predicate Routed(config: ModeSet, modeChanged: bool, fbChanged: bool)
      requires Valid() && config.mode.Some?
      reads connectors, encoders, crtcs, config.crtc
    {
      && AllPermitted() && !Encoderless(config, Snapshot().enc)
      && (if modeChanged then RoutedByLast(config, Snapshot())
          else RoutedByAll(config, Snapshot()) && ModeEqual(config.mode.value, config.crtc.data.mode))
      && (!modeChanged && !fbChanged ==> Requested(config.crtc.data, config))
    }

    method FinishRouted(config: ModeSet, ans: Answers, modeChanged: bool, fbChanged: bool) returns (ret: int)
      requires Valid() && config.crtc in crtcs && config.mode.Some? && Routed(config, modeChanged, fbChanged)
      modifies connectors, encoders, crtcs
      ensures Valid()
      ensures (ret == 0) == Finishes(config, ans, old(Snapshot()), modeChanged, fbChanged)
      ensures ret == 0 ==> Snapshot() == Outcome(config, ans, old(Snapshot()), modeChanged, fbChanged)
      ensures ret == 0 ==> TargetShows(config) && CrtcsFinished(config, old(Snapshot()), Snapshot()) && AllPermitted()
      ensures ret == 0 ==> (RoutesSet(config) == LastUsersAgree(config, old(Snapshot().enc)))
      ensures ret == 0 && modeChanged ==> Clean(this, Snapshot())
      ensures !modeChanged ==> Snapshot().enc == old(Snapshot()).enc && Snapshot().crtcOf == old(Snapshot()).crtcOf
    {
      ret := Finish(config, ans, modeChanged, fbChanged);
      if ret == 0 { FinalRouting(config, old(Snapshot()), modeChanged); }
    }

    /** What the links are in the end, whether or not the cleanup ran. */
    lemma FinalRouting(config: ModeSet, was: Snap, tidied: bool)
      requires Valid() && Fitting(this, was)
      requires if tidied then Tidied(was) && RoutedByLast(config, was)
               else Snapshot().enc == was.enc && Snapshot().crtcOf == was.crtcOf && RoutedByAll(config, was)
      requires forall i :: 0 <= i < |was.enc| ==> was.enc[i] == null || was.enc[i] in encoders
      requires !Encoderless(config, was.enc)
      ensures RoutesSet(config) == LastUsersAgree(config, was.enc)
    {
      if tidied { TidiedRouting(config, was); } else { KeptRouting(config); }
    }

    /** Without a full mode set nothing was rerouted, so all is right and no encoder is shared. */
    lemma KeptRouting(config: ModeSet)
      requires Valid() && RoutedByAll(config, Snapshot()) && !Encoderless(config, Snapshot().enc)
      ensures RoutesSet(config) && LastUsersAgree(config, Snapshot().enc)
    {
      var s := Snapshot();
      forall c | c in connectors && c.encoder != null ensures c in config.connectors <==> c.encoder.crtc == config.crtc {
        var i :| 0 <= i < |connectors| && connectors[i] == c;
        var m :| 0 <= m < |encoders| && encoders[m] == c.encoder;
        assert s.enc[i] == encoders[m];
      }
      forall c | c in connectors && c in config.connectors ensures c.encoder != null {
        var i :| 0 <= i < |connectors| && connectors[i] == c;
        assert s.enc[i] != null;
      }
      forall j, l | 0 <= j < |connectors| && 0 <= l < |connectors| && LastOn(s.enc, j, l)
        ensures connectors[j] in config.connectors <==> connectors[l] in config.connectors
      {
        assert connectors[j] in connectors && connectors[l] in connectors;
      }
    }

    /** The cleanup detaches disconnected connectors and frees idle encoders: what counts is what the others got. */
    lemma TidiedRouting(config: ModeSet, was: Snap)
      requires Valid() && Fitting(this, was) && Tidied(was) && RoutedByLast(config, was)
      requires forall i :: 0 <= i < |was.enc| ==> was.enc[i] == null || was.enc[i] in encoders
      requires !Encoderless(config, was.enc)
      ensures RoutesSet(config) == LastUsersAgree(config, was.enc)
    {
      if RoutesSet(config) {
        forall j, l | 0 <= j < |was.enc| && 0 <= l < |was.enc| && connectors[j].status != Disconnected && LastOn(was.enc, j, l)
          ensures connectors[j] in config.connectors <==> connectors[l] in config.connectors
        {
          LastUserRouted(config, was, j, l);
          assert connectors[j] in connectors;
        }
      }
      if LastUsersAgree(config, was.enc) {
        forall c | c in connectors && ((c in config.connectors && c.status != Disconnected) || c.encoder != null)
          ensures c.encoder != null && (c in config.connectors <==> c.encoder.crtc == config.crtc)
        {
          var j :| 0 <= j < |connectors| && connectors[j] == c;
          var l := LastIn(was.enc, j, |was.enc|);
          assert LastOn(was.enc, j, l);
          LastUserRouted(config, was, j, l);
        }
      }
    }

    /** A connected connector keeps its encoder, which is routed as its last user wants. */
    lemma LastUserRouted(config: ModeSet, was: Snap, j: int, l: int)
      requires Valid() && Fitting(this, was) && Tidied(was) && RoutedByLast(config, was)
      requires 0 <= j < |was.enc| && 0 <= l < |was.enc| && (was.enc[j] == null || was.enc[j] in encoders)
      requires connectors[j].status != Disconnected && LastOn(was.enc, j, l)
      ensures connectors[j].encoder != null && connectors[j].encoder in encoders
      ensures connectors[j].encoder.crtc == config.crtc <==> connectors[l] in config.connectors
    {
      assert connectors[j] in connectors;
      var m :| 0 <= m < |encoders| && encoders[m] == was.enc[j];
      assert was.enc[l] == encoders[m] && EncoderInUse(encoders[m]);
    }

    lemma InUseIsListed(e: Encoder)
      ensures EncoderInUse(e) == (e in Snapshot().enc)
    {
      var enc := Snapshot().enc;
      if e in enc {
        var i :| 0 <= i < |enc| && enc[i] == e;
        assert connectors[i] in connectors;
      }
      if EncoderInUse(e) {
        var c :| c in connectors && c.encoder == e;
        var i :| 0 <= i < |connectors| && connectors[i] == c;
        assert enc[i] == e;
      }
    }

    lemma CrtcInUseIsUsed(r: Crtc)
      ensures CrtcInUse(r) == Used(this, Snapshot(), r)
    {
      if CrtcInUse(r) {
        var e :| e in encoders && e.crtc == r && EncoderInUse(e);
        var j :| 0 <= j < |encoders| && encoders[j] == e;
        InUseIsListed(e);
        assert Snapshot().crtcOf[j] == r;
      }
      if Used(this, Snapshot(), r) {
        var j :| 0 <= j < |encoders| && Snapshot().crtcOf[j] == r && encoders[j] in Snapshot().enc;
        InUseIsListed(encoders[j]);
        assert encoders[j] in encoders;
      }
    }
  }

  /** Where no encoder is shared across the set's border, the last users agree. */
  lemma UnsharedAgree(dev: Device, config: ModeSet, enc: seq<Encoder?>)
    requires |enc| == |dev.connectors|
    requires forall i, j :: 0 <= i < |enc| && 0 <= j < |enc| && enc[i] == enc[j] != null ==>
               (dev.connectors[i] in config.connectors <==> dev.connectors[j] in config.connectors)
    ensures dev.LastUsersAgree(config, enc)
  {
  }

  /**
   One encoder for two connectors, of which a connected one is asked for.  All callbacks agree
   and the call succeeds, but the routing is right only if the connector asked for is the last
   in the list and nothing is plugged into the other.
   */
  method SharedEncoder(other: Status, askedLast: bool) returns (dev: Device, config: ModeSet, ret: int)
    ensures ret == 0 && config.fb.Some? && |config.connectors| == 1 && config.connectors[0].status == Connected
    ensures dev.Valid() && (dev.RoutesSet(config) <==> askedLast && other == Disconnected)
  {
    var ans, bystander;
    dev, config, ans, bystander := OneEncoder(other, askedLast);
    ghost var enc := dev.ChosenAll(config, ans);
    SharedAgree(dev, config, bystander, enc, askedLast);
    dev.WillingSucceeds(config, ans);
    ret := dev.SetConfig(config, ans);
  }

  method OneEncoder(other: Status, askedLast: bool) returns (dev: Device, config: ModeSet, ans: Answers, bystander: Connector)
    ensures fresh(dev.connectors) && fresh(dev.encoders) && fresh(dev.crtcs)
    ensures dev.Callable(config, ans) && dev.Willing(ans) && config.fb.Some? && bystander.status == other
    ensures |config.connectors| == 1 && config.connectors[0].status == Connected && config.connectors[0] != bystander
    ensures dev.connectors == if askedLast then [bystander, config.connectors[0]] else [config.connectors[0], bystander]
    ensures dev.ChosenAll(config, ans)[0] == dev.ChosenAll(config, ans)[1] != null
  {
    var mode := DisplayMode(640, 480, 0, 0);
    var crtc := new Crtc(CrtcData(false, None, mode, mode, 0, 0));
    var encoder := new Encoder(1);
    var asked := new Connector(Connected);
    bystander := new Connector(other);
    bystander.encoder := encoder;
    dev := new Device([crtc], [encoder], if askedLast then [bystander, asked] else [asked, bystander]);
    config := ModeSet(crtc, Some(mode), Some(Framebuffer(1, 0)), 0, 0, [asked]);
    var yes := ModeAnswers(true, [true], true, true, mode);
    ans := Answers(true, map[asked := encoder], true, 0, yes, yes);
    assert dev.Permits(encoder, crtc) by { assert dev.crtcs[0] == crtc && MaskHas(1, 0); }
  }

  lemma SharedAgree(dev: Device, config: ModeSet, bystander: Connector, enc: seq<Encoder?>, askedLast: bool)
    requires |enc| == |dev.connectors| == 2 && enc[0] == enc[1] != null && |config.connectors| == 1
    requires config.connectors[0].status == Connected && config.connectors[0] != bystander
    requires dev.connectors == if askedLast then [bystander, config.connectors[0]] else [config.connectors[0], bystander]
    ensures dev.LastUsersAgree(config, enc) <==> askedLast && bystander.status == Disconnected
    ensures !dev.Encoderless(config, enc)
  {
    assert LastOn(enc, 0, 1) && LastOn(enc, 1, 1);
  }

  /** Of a marked device with one CRTC, which is enabled, only that CRTC's `hwmode` is another. */
  ghost predicate OnlyHwmode(dev: Device, before: Snap, after: Snap) {
    && Fitting(dev, before) && Marked(dev, before) && |before.data| == |after.data| == 1 && before.data[0].enabled
    && after == before.(data := after.data)
    && after.data[0] == before.data[0].(hwmode := after.data[0].hwmode) != before.data[0]
  }

  /**
   An enabled CRTC that shows a framebuffer: setting it up for a connector without an encoder
   fails, and the restoring mode set is given another adjusted mode than the first one was.
   */
  method HwmodeDiffers() returns (dev: Device, ghost before: Snap, ret: int)
    ensures ret != 0 && OnlyHwmode(dev, before, dev.Snapshot())
  {
    var config, ans;
    dev, config, ans := FailingCall();
    before := dev.Snapshot();
    ret := dev.SetConfig(config, ans);
  }

  /** Such a call, before it is made: what it will undo leaves the one CRTC enabled, with another `hwmode`. */
  method FailingCall() returns (dev: Device, config: ModeSet, ans: Answers)
    ensures fresh(dev.connectors) && fresh(dev.encoders) && fresh(dev.crtcs)
    ensures dev.Callable(config, ans) && config.fb.Some? && !dev.Succeeds(config, ans)
    ensures OnlyHwmode(dev, dev.Snapshot(), dev.Undone(config, ans))
  {
    dev, config, ans := ShowingDevice();
    OneOfEach(dev, config, ans);
    dev.EncoderlessFails(config, ans);
    OneCrtcAgain(dev, dev.Snapshot(), config.crtc, ans.restore);
  }

  lemma OneCrtcAgain(dev: Device, s: Snap, crtc: Crtc, ans: ModeAnswers)
    requires Fitting(dev, s) && dev.crtcs == [crtc] && s.data[0].enabled && Used(dev, s, crtc)
    requires Accepts(s.crtcOf, crtc, ans) && ans.adjusted != s.data[0].hwmode
    ensures OnlyHwmode(dev, s, SetAgain(dev, s, crtc, ans))
  {
  }

  method ShowingDevice() returns (dev: Device, config: ModeSet, ans: Answers)
    ensures fresh(dev.connectors) && fresh(dev.encoders) && fresh(dev.crtcs)
    ensures dev.Callable(config, ans) && ans.memory && config.fb.Some? && dev.crtcs == [config.crtc]
    ensures NeedsMode(config, config.crtc.data) && config.crtc.data.enabled && ans.restore.adjusted != config.crtc.data.hwmode
    ensures |dev.connectors| == |dev.encoders| == 1 && dev.connectors[0].encoder == dev.encoders[0] && dev.encoders[0].crtc == config.crtc
    ensures config.connectors == dev.connectors && ans.best == map[dev.connectors[0] := null]
    ensures ans.restore == ModeAnswers(true, [true], true, true, ans.restore.adjusted)
  {
    var mode, other := DisplayMode(640, 480, 0, 0), DisplayMode(640, 480, 1, 0);
    var crtc := new Crtc(CrtcData(true, Some(Framebuffer(1, 0)), mode, mode, 0, 0));
    var encoder := new Encoder(1);
    var connector := new Connector(Connected);
    connector.encoder, encoder.crtc := encoder, crtc;
    dev := new Device([crtc], [encoder], [connector]);
    config := ModeSet(crtc, Some(other), Some(Framebuffer(1, 0)), 0, 0, [connector]);
    var no, yes := ModeAnswers(false, [], false, false, mode), ModeAnswers(true, [true], true, true, other);
    ans := Answers(true, map[connector := null], true, 0, no, yes);
  }

  lemma OneOfEach(dev: Device, config: ModeSet, ans: Answers)
    requires dev.Callable(config, ans) && |dev.connectors| == |dev.encoders| == 1 && dev.crtcs == [config.crtc]
    requires dev.connectors[0].encoder == dev.encoders[0] && dev.encoders[0].crtc == config.crtc
    requires config.connectors == dev.connectors && ans.best == map[dev.connectors[0] := null]
    requires ans.restore == ModeAnswers(true, [true], true, true, ans.restore.adjusted)
    ensures dev.Encoderless(config, dev.ChosenAll(config, ans)) && Used(dev, dev.Snapshot(), config.crtc)
    ensures Accepts(dev.Snapshot().crtcOf, config.crtc, ans.restore)
  {
    assert dev.connectors[0] in dev.connectors && dev.ChosenAll(config, ans)[0] == null;
    assert dev.Snapshot().enc[0] == dev.encoders[0];
  }

  /** Nothing between the copy of the mode and the CRTC's mode_set refuses, with the encoders on CRTCs as given. */
  ghost predicate Accepts(crtcOf: seq<Crtc?>, crtc: Crtc, ans: ModeAnswers) {
    && ans.duplicated && ans.crtcFixup && ans.modeSet
    && forall j :: 0 <= j < |crtcOf| && crtcOf[j] == crtc ==> j < |ans.encoderFixup| && ans.encoderFixup[j]
  }

  /** Connector `l` is the last on the encoder of connector `j`. */
  ghost predicate LastOn(enc: seq<Encoder?>, j: int, l: int)
    requires 0 <= j < |enc| && 0 <= l < |enc|
  {
    enc[j] != null && enc[l] == enc[j] && forall k :: l < k < |enc| ==> enc[k] != enc[j]
  }

  /** One of the first `n` connectors is given another encoder. */
  ghost predicate Differ(enc: seq<Encoder?>, chosen: seq<Encoder?>, n: nat)
    requires n <= |enc| == |chosen|
  {
    exists k :: 0 <= k < n && chosen[k] != enc[k]
  }

  /** One of the first `n` connectors was taken off the encoder. */
  ghost predicate Left(enc: seq<Encoder?>, chosen: seq<Encoder?>, e: Encoder, n: nat)
    requires n <= |enc| == |chosen|
  {
    exists k :: 0 <= k < n && enc[k] == e && chosen[k] != e
  }

  /** A connector's encoder after pass a, if it had `own` before. */
  function ChosenOver(config: ModeSet, ans: Answers, c: Connector, own: Encoder?): Encoder? {
    if c in config.connectors && c in ans.best then ans.best[c] else own
  }

  /** What a connector makes of its encoder's CRTC in pass b. */
  function Turn(config: ModeSet, c: Connector, before: Crtc?): Crtc? {
    if c in config.connectors then config.crtc else if before == config.crtc then null else before
  }

  ghost function LastIn(enc: seq<Encoder?>, j: int, n: int): (l: int)
    requires 0 <= j < n <= |enc| && enc[j] != null
    ensures j <= l < n && enc[l] == enc[j] && forall k :: l < k < n ==> enc[k] != enc[j]
  {
    if enc[n - 1] == enc[j] then n - 1 else LastIn(enc, j, n - 1)
  }

  /** The comparison with what the CRTC shows asks for a full mode set. */
  predicate NeedsMode(config: ModeSet, d: CrtcData)
    requires config.mode.Some? && config.fb.Some?
  {
    d.fb == None || d.fb.value.pixelFormat != config.fb.value.pixelFormat || !ModeEqual(config.mode.value, d.mode)
  }

  /** It asks for a change of base. */
  predicate NeedsBase(config: ModeSet, d: CrtcData)
    requires config.fb.Some?
  {
    || (d.fb.Some? && d.fb != config.fb && d.fb.value.pixelFormat == config.fb.value.pixelFormat)
    || config.x != d.x || config.y != d.y
  }

  /** The same framebuffer, position and mode. */
  predicate SameView(a: CrtcData, b: CrtcData) {
    a.fb == b.fb && a.x == b.x && a.y == b.y && a.mode == b.mode
  }

  ghost function InstallMode(used: bool, d: CrtcData, config: ModeSet, adjusted: DisplayMode): CrtcData
    requires config.mode.Some?
  {
    if used then CrtcData(true, config.fb, config.mode.value, adjusted, config.x, config.y) else d.(enabled := false)
  }

  /** The target shows the request if it is in use, and is marked idle otherwise. */
  ghost function ModeApplied(dev: Device, s: Snap, config: ModeSet, adjusted: DisplayMode): (r: Snap)
    requires Fitting(dev, s) && config.mode.Some?
    ensures Fitting(dev, r)
  {
    s.(data := seq(|s.data|, k requires 0 <= k < |s.data| =>
      if dev.crtcs[k] == config.crtc then InstallMode(Used(dev, s, config.crtc), s.data[k], config, adjusted) else s.data[k]))
  }

  /** The base change moves the target and gives it the framebuffer. */
  ghost function BaseApplied(dev: Device, s: Snap, config: ModeSet): (r: Snap)
    requires Fitting(dev, s)
    ensures Fitting(dev, r)
  {
    s.(data := seq(|s.data|, k requires 0 <= k < |s.data| =>
      if dev.crtcs[k] == config.crtc then s.data[k].(x := config.x, y := config.y, fb := config.fb) else s.data[k]))
  }

  /** Unchanged for anyone looking at the screen, or turned off. */
  predicate KeptOrDark(before: CrtcData, after: CrtcData) {
    SameView(after, before) || SameView(after, before.(fb := None))
  }

  predicate Requested(d: CrtcData, config: ModeSet)
    requires config.mode.Some?
  {
    d.fb == config.fb && d.x == config.x && d.y == config.y && ModeEqual(d.mode, config.mode.value)
  }

  /** The target is as it was or as requested, and in either case may have been turned off. */
  predicate TargetMay(before: CrtcData, after: CrtcData, config: ModeSet)
    requires config.mode.Some?
  {
    KeptOrDark(before, after) || Requested(after, config) || (after.fb == None && Requested(after.(fb := config.fb), config))
  }

  lemma AppliedThenCleaned(dev: Device, s: Snap, config: ModeSet, adjusted: DisplayMode)
    requires Fitting(dev, s) && config.mode.Some?
    ensures var r := Cleanup(dev, ModeApplied(dev, s, config, adjusted));
            && Clean(dev, r)
            && forall k :: 0 <= k < |dev.crtcs| ==>
                 if dev.crtcs[k] == config.crtc
                 then (if Used(dev, r, config.crtc) then r.data[k] == CrtcData(true, config.fb, config.mode.value, adjusted, config.x, config.y)
                       else !r.data[k].enabled && r.data[k].fb == None)
                      && TargetMay(s.data[k], r.data[k], config)
                 else r.data[k] == (if Used(dev, r, dev.crtcs[k]) then s.data[k].(enabled := true) else s.data[k].(enabled := false, fb := None))
                      && KeptOrDark(s.data[k], r.data[k])
    ensures Used(dev, Cleanup(dev, ModeApplied(dev, s, config, adjusted)), config.crtc) ==> Used(dev, s, config.crtc)
  {
    var m := ModeApplied(dev, s, config, adjusted);
    var r := Cleanup(dev, m);
    CleanupIsClean(dev, m);
    if Used(dev, r, config.crtc) {
      var j :| 0 <= j < |dev.encoders| && r.crtcOf[j] == config.crtc && dev.encoders[j] in r.enc;
      assert s.crtcOf[j] == config.crtc && dev.encoders[j] in s.enc;
    }
  }

  /** drm_crtc_helper_disable: connectors of encoders on `crtc` are detached; the cleanup does the rest. */
  ghost function Decouple(dev: Device, s: Snap, crtc: Crtc): (r: Snap)
    requires Fitting(dev, s)
    ensures Fitting(dev, r)
  {
    s.(enc := seq(|s.enc|, i requires 0 <= i < |s.enc| => if OnCrtc(dev, s, s.enc[i], crtc, |dev.encoders|) then null else s.enc[i]))
  }

  /** One of the first `n` encoders, on `crtc`. */
  ghost predicate OnCrtc(dev: Device, s: Snap, e: Encoder?, crtc: Crtc, n: nat)
    requires Fitting(dev, s) && n <= |dev.encoders|
  {
    exists j :: 0 <= j < n && dev.encoders[j] == e && s.crtcOf[j] == crtc
  }

  /** After drm_crtc_helper_disable nothing uses the CRTC, and it is off. */
  lemma DisableTurnsOff(dev: Device, s: Snap, crtc: Crtc, k: nat)
    requires Fitting(dev, s) && k < |dev.crtcs| && dev.crtcs[k] == crtc
    requires forall i, j :: 0 <= i < j < |dev.encoders| ==> dev.encoders[i] != dev.encoders[j]
    ensures var r := Cleanup(dev, Decouple(dev, s, crtc)); !Used(dev, r, crtc) && !r.data[k].enabled && r.data[k].fb == None
  {
    CleanupIsClean(dev, Decouple(dev, s, crtc));
  }

  // ---------- drm_helper_disable_unused_functions, on values ----------

  ghost predicate Fitting(dev: Device, s: Snap) {
    |s.enc| == |dev.connectors| && |s.crtcOf| == |dev.encoders| && |s.data| == |dev.crtcs|
  }

  /** Some encoder that a connector uses points to `r`. */
  ghost predicate Used(dev: Device, s: Snap, r: Crtc)
    requires Fitting(dev, s)
  {
    exists j :: 0 <= j < |dev.encoders| && s.crtcOf[j] == r && dev.encoders[j] in s.enc
  }

  ghost function DropDisconnected(dev: Device, s: Snap): (r: Snap)
    requires Fitting(dev, s)
    ensures Fitting(dev, r)
  {
    s.(enc := seq(|s.enc|, i requires 0 <= i < |s.enc| => if dev.connectors[i].status == Disconnected then null else s.enc[i]))
  }

  ghost function DropUnusedEncoders(dev: Device, s: Snap): (r: Snap)
    requires Fitting(dev, s)
    ensures Fitting(dev, r)
  {
    s.(crtcOf := seq(|s.crtcOf|, j requires 0 <= j < |s.crtcOf| => if dev.encoders[j] in s.enc then s.crtcOf[j] else null))
  }

  ghost function SwitchOne(used: bool, d: CrtcData): CrtcData {
    if used then d.(enabled := true) else d.(enabled := false, fb := None)
  }

  ghost function SwitchCrtcs(dev: Device, s: Snap): (r: Snap)
    requires Fitting(dev, s)
    ensures Fitting(dev, r)
  {
    s.(data := seq(|s.data|, k requires 0 <= k < |s.data| => SwitchOne(Used(dev, s, dev.crtcs[k]), s.data[k])))
  }

  ghost function Cleanup(dev: Device, s: Snap): (r: Snap)
    requires Fitting(dev, s)
    ensures Fitting(dev, r)
  {
    SwitchCrtcs(dev, DropUnusedEncoders(dev, DropDisconnected(dev, s)))
  }

  /** What the cleanup leaves: enabled exactly when used, dark otherwise, and no idle encoder holds a CRTC. */
  ghost predicate Clean(dev: Device, s: Snap)
    requires Fitting(dev, s)
  {
    && (forall i :: 0 <= i < |s.enc| && dev.connectors[i].status == Disconnected ==> s.enc[i] == null)
    && (forall j :: 0 <= j < |s.crtcOf| && s.crtcOf[j] != null ==> dev.encoders[j] in s.enc)
    && (forall k :: 0 <= k < |s.data| ==> (s.data[k].enabled == Used(dev, s, dev.crtcs[k])))
    && (forall k :: 0 <= k < |s.data| && !s.data[k].enabled ==> s.data[k].fb == None)
  }

  /** A CRTC is enabled exactly if an encoder in use points to it. */
  ghost predicate Marked(dev: Device, s: Snap)
    requires Fitting(dev, s)
  {
    forall k :: 0 <= k < |s.data| ==> (s.data[k].enabled == Used(dev, s, dev.crtcs[k]))
  }

  /** What setting the old mode again makes of the data put back. */
  function PutBack(used: bool, accepted: bool, d: CrtcData, adjusted: DisplayMode): CrtcData {
    if !used then d.(enabled := false) else if accepted then d.(enabled := true, hwmode := adjusted) else d.(enabled := true)
  }

  ghost function SetAgain(dev: Device, s: Snap, crtc: Crtc, ans: ModeAnswers): (r: Snap)
    requires Fitting(dev, s)
    ensures Fitting(dev, r)
  {
    s.(data := seq(|s.data|, k requires 0 <= k < |s.data| =>
      if dev.crtcs[k] == crtc then PutBack(Used(dev, s, crtc), Accepts(s.crtcOf, crtc, ans), s.data[k], ans.adjusted) else s.data[k]))
  }

  /** Every link, framebuffer, position and mode is as before, and so is all else of every CRTC but the target. */
  ghost predicate RolledBack(dev: Device, before: Snap, after: Snap, crtc: Crtc)
    requires Fitting(dev, before) && Fitting(dev, after)
  {
    && after.enc == before.enc && after.crtcOf == before.crtcOf
    && forall k :: 0 <= k < |dev.crtcs| ==>
         SameView(after.data[k], before.data[k]) && (dev.crtcs[k] != crtc ==> after.data[k] == before.data[k])
  }

  /** Setting the old mode again leaves the target's `enabled` and `hwmode` as they were. */
  ghost predicate BroughtBack(dev: Device, s: Snap, crtc: Crtc, ans: ModeAnswers)
    requires Fitting(dev, s)
  {
    forall k :: 0 <= k < |dev.crtcs| && dev.crtcs[k] == crtc ==>
      s.data[k].enabled == Used(dev, s, crtc) && (Used(dev, s, crtc) && Accepts(s.crtcOf, crtc, ans) ==> ans.adjusted == s.data[k].hwmode)
  }

  /** On a device whose CRTCs are marked: the target is idle, or the restoring mode set is refused, or it gives the same `hwmode`. */
  ghost predicate SameAgain(dev: Device, s: Snap, crtc: Crtc, ans: ModeAnswers)
    requires Fitting(dev, s)
  {
    !Used(dev, s, crtc) || !Accepts(s.crtcOf, crtc, ans) ||
    forall k :: 0 <= k < |dev.crtcs| && dev.crtcs[k] == crtc ==> ans.adjusted == s.data[k].hwmode
  }

  /** What setting the old mode again keeps, and when it changes nothing. */
  lemma SetAgainKeeps(dev: Device, s: Snap, crtc: Crtc, ans: ModeAnswers)
    requires Fitting(dev, s)
    ensures RolledBack(dev, s, SetAgain(dev, s, crtc, ans), crtc) && RolledBack(dev, s, s, crtc)
    ensures SetAgain(dev, s, crtc, ans) == s <==> BroughtBack(dev, s, crtc, ans)
    ensures Marked(dev, s) ==> Marked(dev, SetAgain(dev, s, crtc, ans))
    ensures Marked(dev, s) ==> (BroughtBack(dev, s, crtc, ans) == SameAgain(dev, s, crtc, ans))
    ensures forall k :: 0 <= k < |dev.crtcs| && dev.crtcs[k] == crtc ==>
              SetAgain(dev, s, crtc, ans).data[k] ==
              if !Used(dev, s, crtc) then s.data[k].(enabled := false)
              else if && ans.duplicated && ans.crtcFixup && ans.modeSet
                      && (forall j :: 0 <= j < |s.crtcOf| && s.crtcOf[j] == crtc ==> j < |ans.encoderFixup| && ans.encoderFixup[j])
              then s.data[k].(enabled := true, hwmode := ans.adjusted)
              else s.data[k].(enabled := true)
  {
    var r := SetAgain(dev, s, crtc, ans);
    forall k | 0 <= k < |s.data|
      ensures Used(dev, r, dev.crtcs[k]) == Used(dev, s, dev.crtcs[k])
      ensures dev.crtcs[k] == crtc ==> (r.data[k] == s.data[k] <==>
        s.data[k].enabled == Used(dev, s, crtc) && (Used(dev, s, crtc) && Accepts(s.crtcOf, crtc, ans) ==> ans.adjusted == s.data[k].hwmode))
    {
    }
    if BroughtBack(dev, s, crtc, ans) { assert r.data == s.data; }
  }

  /** A device without links whose CRTCs are off is marked, and the cleanup marks any. */
  lemma MarkedAtFirst(dev: Device, s: Snap)
    requires Fitting(dev, s)
    ensures (forall i :: 0 <= i < |s.enc| ==> s.enc[i] == null) && (forall k :: 0 <= k < |s.data| ==> !s.data[k].enabled) ==>
              (forall j :: 0 <= j < |dev.encoders| ==> dev.encoders[j] !in s.enc) && Marked(dev, s)
    ensures Marked(dev, Cleanup(dev, s))
  {
    CleanupIsClean(dev, s);
  }

  /** The cleanup reaches a clean state, and in a clean state it changes nothing. */
  lemma CleanupCleans(dev: Device, s: Snap)
    requires Fitting(dev, s)
    ensures Clean(dev, Cleanup(dev, s))
    ensures Clean(dev, s) <==> Cleanup(dev, s) == s
  {
    CleanupIsClean(dev, s);
    if Clean(dev, s) { CleanIsFixed(dev, s); }
  }

  lemma CleanupIsClean(dev: Device, s: Snap)
    requires Fitting(dev, s)
    ensures Clean(dev, Cleanup(dev, s))
  {
    var m := DropUnusedEncoders(dev, DropDisconnected(dev, s));
    var r := SwitchCrtcs(dev, m);
    forall k | 0 <= k < |r.data| ensures Used(dev, r, dev.crtcs[k]) == Used(dev, m, dev.crtcs[k]) {
    }
  }

  lemma CleanIsFixed(dev: Device, s: Snap)
    requires Fitting(dev, s) && Clean(dev, s)
    ensures Cleanup(dev, s) == s
  {
    assert DropDisconnected(dev, s).enc == s.enc;
    assert DropUnusedEncoders(dev, s).crtcOf == s.crtcOf;
    assert SwitchCrtcs(dev, s).data == s.data;
  }

  /** Running the cleanup twice is the same as running it once. */
  lemma CleanupTwice(dev: Device, s: Snap)
    requires Fitting(dev, s)
    ensures Cleanup(dev, Cleanup(dev, s)) == Cleanup(dev, s)
  {
    CleanupCleans(dev, s);
    CleanupCleans(dev, Cleanup(dev, s));
  }

  lemma Pow2Of32()
    ensures Pow2(32) == 0x1_0000_0000
  {
    assert Pow2(8) == 256;
    assert Pow2(16) == 0x1_0000;
    assert Pow2(24) == 0x100_0000;
  }

  lemma ShiftLemma(i: nat)
    requires i > 0
    ensures i < 32 ==> 2 * Pow2(i - 1) == Pow2(i) < 0x1_0000_0000
    ensures i == 32 ==> 2 * Pow2(i - 1) == 0x1_0000_0000
  {
    Pow2Of32();
    if i < 32 {
      PowMonotone(i, 32);
    }
  }
}
