/**
 drm_crtc.c: the requests that user space hands to the ioctls, and the tests that are made of
 them before anything is changed.  All fields are unsigned 32-bit numbers unless said otherwise.
 */
module FbRequests {
  import opened Options
  import opened CValues
  import opened FbMachine
  import opened FramebufferCheck

  // ---------- addfb, addfb2 ----------

  /** The sizes the device allows. */
  datatype Limits = Limits(minWidth: int, maxWidth: int, minHeight: int, maxHeight: int)

  /** What ->fb_create makes: the address and the id the object gets, and the format it records. */
  datatype Made = Made(f: Addr, id: nat, format: nat)

  // ---------- setplane ----------

  /** The source in 16.16 fixed point; `crtcX` and `crtcY` are signed. */
  datatype PlaneRequest = PlaneRequest(
    fbId: nat, srcX: nat, srcY: nat, srcW: nat, srcH: nat, crtcX: int, crtcY: int, crtcW: nat, crtcH: nat)
  {
    predicate Valid() {
      && srcX <= UINT_MAX && srcY <= UINT_MAX && srcW <= UINT_MAX && srcH <= UINT_MAX && crtcW <= UINT_MAX && crtcH <= UINT_MAX
      && INT_MIN <= crtcX <= INT_MAX && INT_MIN <= crtcY <= INT_MAX
    }
  }

  /** A size shifted into fixed point, in 32 bits. */
  function Fixed(size: nat): nat { size * 0x1_0000 % 0x1_0000_0000 }

  /** One axis of the source, as it is compared. */
  predicate SourceFits(at: nat, length: nat, size: nat) {
    length <= Fixed(size) && at <= Fixed(size) - length
  }

  /** One axis of the destination: the subtraction cannot overflow once the length fits. */
  predicate EndFits(at: int, length: nat) { length <= INT_MAX && at <= INT_MAX - length }

  /** The format is one of the plane's, the source lies in the framebuffer and the destination's ends fit an int. */
  predicate PlaneTest(formats: seq<nat>, r: PlaneRequest, geo: Geometry) {
    && geo.format in formats
    && SourceFits(r.srcX, r.srcW, geo.width) && SourceFits(r.srcY, r.srcH, geo.height)
    && EndFits(r.crtcX, r.crtcW) && EndFits(r.crtcY, r.crtcH)
  }

  /** What passes lies inside the framebuffer. */
  lemma SourceInside(at: nat, length: nat, size: nat)
    ensures SourceFits(at, length, size) ==> at + length <= size * 0x1_0000
  {
  }

  /** What lies inside passes for every place and length exactly if the size fits 16 bits: of larger framebuffers only a part can be shown. */
  lemma SourceExactIff(size: nat)
    ensures (forall at: nat, length: nat :: at + length <= size * 0x1_0000 ==> SourceFits(at, length, size)) <==> size < 0x1_0000
  {
    if size >= 0x1_0000 {
      assert Fixed(size) < size * 0x1_0000;
      assert !SourceFits(size * 0x1_0000, 0, size);
    }
  }

  // ---------- setcrtc ----------

  /**
   What setcrtc takes besides CRTC, framebuffer, position and mode: whether a mode object could be
   made, the two fields of the mode that are tested, how many connectors, whether their array could
   be allocated, and the ids in it; None is an id that cannot be read.
   */
  datatype CrtcRequest = CrtcRequest(modeMade: bool, clock: nat, vrefresh: nat, count: nat, memory: bool, ids: seq<Option<nat>>)

  /** Each id can be read and names a connector. */
  predicate Known(ids: seq<Option<nat>>, connectors: set<nat>) {
    forall i :: 0 <= i < |ids| ==> ids[i].Some? && ids[i].value in connectors
  }

  /** The tests of position, mode and connectors. */
  predicate CrtcTest(source: Source, x: nat, y: nat, r: CrtcRequest, connectors: set<nat>)
    requires |r.ids| == r.count
  {
    && x <= INT_MAX && y <= INT_MAX
    && (source.NoMode? <==> r.count == 0)
    && (!source.NoMode? ==> r.modeMade && r.clock <= INT_MAX && r.vrefresh <= INT_MAX)
    && (r.count > 0 ==> r.count <= |connectors| && r.memory && Known(r.ids, connectors))
  }

  method TestCrtc(source: Source, x: nat, y: nat, r: CrtcRequest, connectors: set<nat>) returns (ok: bool)
    requires |r.ids| == r.count
    ensures ok <==> CrtcTest(source, x, y, r, connectors)
  {
    if x > INT_MAX || y > INT_MAX { return false; }
    if !source.NoMode? {
      if !r.modeMade || r.clock > INT_MAX || r.vrefresh > INT_MAX { return false; }
    }
    if r.count == 0 && !source.NoMode? { return false; }
    if r.count > 0 && source.NoMode? { return false; }
    if r.count > 0 {
      if r.count > |connectors| || !r.memory { return false; }
      for i := 0 to r.count
        invariant forall j :: 0 <= j < i ==> r.ids[j].Some? && r.ids[j].value in connectors
      {
        if r.ids[i] == None || r.ids[i].value !in connectors { return false; }
      }
    }
    return true;
  }

  // ---------- page flip ----------

  /** `strange` is a flag the ioctl does not know, `event` the one that asks for an event. */
  datatype FlipRequest = FlipRequest(strange: bool, event: bool, reserved: nat)

  /** The part of an open file that page flips use. */
  class EventQueue {
    var space: nat
    constructor (space: nat)
      ensures this.space == space
    {
      this.space := space;
    }

    /** An event's room is taken, and given back when the event cannot be allocated. */
    method Reserve(size: nat, memory: bool) returns (ok: bool)
      modifies this
      ensures ok <==> old(space) >= size && memory
      ensures space == if ok then old(space) - size else old(space)
    {
      if space < size { return false; }
      space := space - size;
      if !memory {
        space := space + size;
        return false;
      }
      return true;
    }

    method GiveBack(size: nat)
      modifies this
      ensures space == old(space) + size
    {
      space := space + size;
    }
  }
}
