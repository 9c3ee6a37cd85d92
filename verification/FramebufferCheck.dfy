/**
 drm_crtc.c: what framebuffer_check lets through.  Formats are the names of the switch
 statements; `bigEndian` is the flag that only the first of those statements masks out.
 */
module FramebufferCheck {
  import opened Arith
  import opened CValues

  datatype Format =
    | C8 | RGB332 | BGR233
    | XRGB4444 | XBGR4444 | RGBX4444 | BGRX4444 | ARGB4444 | ABGR4444 | RGBA4444 | BGRA4444
    | XRGB1555 | XBGR1555 | RGBX5551 | BGRX5551 | ARGB1555 | ABGR1555 | RGBA5551 | BGRA5551
    | RGB565 | BGR565 | RGB888 | BGR888
    | XRGB8888 | XBGR8888 | RGBX8888 | BGRX8888 | ARGB8888 | ABGR8888 | RGBA8888 | BGRA8888
    | XRGB2101010 | XBGR2101010 | RGBX1010102 | BGRX1010102 | ARGB2101010 | ABGR2101010 | RGBA1010102 | BGRA1010102
    | YUYV | YVYU | UYVY | VYUY | AYUV
    | NV12 | NV21 | NV16 | NV61 | NV24 | NV42
    | YUV410 | YVU410 | YUV411 | YVU411 | YUV420 | YVU420 | YUV422 | YVU422 | YUV444 | YVU444
    | Unknown

  datatype PixelFormat = PixelFormat(format: Format, bigEndian: bool) {
    /** What a switch on the whole code sees: no case carries the flag. */
    function Case(): Format { if bigEndian then Unknown else format }
  }

  /** struct drm_mode_fb_cmd2: 32-bit fields. */
  datatype FbCmd = FbCmd(width: nat, height: nat, pixelFormat: PixelFormat, handles: seq<nat>, pitches: seq<nat>, offsets: seq<nat>) {
    predicate Valid() {
      && width <= UINT_MAX && height <= UINT_MAX && |handles| == |pitches| == |offsets| == 4
      && (forall i :: 0 <= i < 4 ==> pitches[i] <= UINT_MAX && offsets[i] <= UINT_MAX)
    }
  }

  function FormatCheck(p: PixelFormat): int { if p.format.Unknown? then EINVAL else 0 }

  function NumPlanes(p: PixelFormat): (n: nat)
    ensures 1 <= n <= 3
  {
    match p.Case()
    case YUV410 | YVU410 | YUV411 | YVU411 | YUV420 | YVU420 | YUV422 | YVU422 | YUV444 | YVU444 => 3
    case NV12 | NV21 | NV16 | NV61 | NV24 | NV42 => 2
    case _ => 1
  }

  /** drm_fb_get_bpp_depth, the bits per pixel. */
  function Bpp(f: Format): nat {
    match f
    case C8 | RGB332 | BGR233 => 8
    case XRGB1555 | XBGR1555 | RGBX5551 | BGRX5551 | ARGB1555 | ABGR1555 | RGBA5551 | BGRA5551 => 16
    case RGB565 | BGR565 => 16
    case RGB888 | BGR888 => 24
    case XRGB8888 | XBGR8888 | RGBX8888 | BGRX8888 => 32
    case XRGB2101010 | XBGR2101010 | RGBX1010102 | BGRX1010102 | ARGB2101010 | ABGR2101010 | RGBA1010102 | BGRA1010102 => 32
    case ARGB8888 | ABGR8888 | RGBA8888 | BGRA8888 => 32
    case _ => 0
  }

  function PlaneCpp(p: PixelFormat, plane: nat): nat {
    if plane >= NumPlanes(p) then 0
    else
      match p.Case()
      case YUYV | YVYU | UYVY | VYUY => 2
      case NV12 | NV21 | NV16 | NV61 | NV24 | NV42 => if plane != 0 then 2 else 1
      case YUV410 | YVU410 | YUV411 | YVU411 | YUV420 | YVU420 | YUV422 | YVU422 | YUV444 | YVU444 => 1
      case _ => Bpp(p.Case()) / 8
  }

  function HorzSub(p: PixelFormat): (n: nat)
    ensures n > 0
  {
    match p.Case()
    case YUV411 | YVU411 | YUV410 | YVU410 => 4
    case YUYV | YVYU | UYVY | VYUY | NV12 | NV21 | NV16 | NV61 | YUV422 | YVU422 | YUV420 | YVU420 => 2
    case _ => 1
  }

  function VertSub(p: PixelFormat): (n: nat)
    ensures n > 0
  {
    match p.Case()
    case YUV410 | YVU410 => 4
    case YUV420 | YVU420 | NV12 | NV21 => 2
    case _ => 1
  }

  /**
   The four tables agree with what the names say: planes, chroma samples across and down for one
   of luma, and bytes per sample.  The flag turns any format into one plane without a size.
   */
  lemma TablesAgree(p: PixelFormat, plane: nat)
    requires plane < 4
    ensures var f, planes, h, v, cpp := p.format, NumPlanes(p), HorzSub(p), VertSub(p), PlaneCpp(p, plane);
            && (p.bigEndian ==> planes == 1 && h == 1 && v == 1 && cpp == 0)
            && (!p.bigEndian ==>
                  && (f in {YUV410, YVU410} ==> planes == 3 && h == 4 && v == 4)
                  && (f in {YUV411, YVU411} ==> planes == 3 && h == 4 && v == 1)
                  && (f in {YUV420, YVU420} ==> planes == 3 && h == 2 && v == 2)
                  && (f in {YUV422, YVU422} ==> planes == 3 && h == 2 && v == 1)
                  && (f in {YUV444, YVU444} ==> planes == 3 && h == 1 && v == 1)
                  && (f in {NV12, NV21} ==> planes == 2 && h == 2 && v == 2)
                  && (f in {NV16, NV61} ==> planes == 2 && h == 2 && v == 1)
                  && (f in {NV24, NV42} ==> planes == 2 && h == 1 && v == 1)
                  && (f in {YUYV, YVYU, UYVY, VYUY} ==> planes == 1 && h == 2 && v == 1)
                  && (planes == 1 && f !in {YUYV, YVYU, UYVY, VYUY} ==> h == 1 && v == 1)
                  && (plane < planes && planes == 3 ==> cpp == 1)
                  && (plane < planes && planes == 2 ==> cpp == plane + 1)
                  && (plane < planes && planes == 1 ==>
                        cpp == if f in {C8, RGB332, BGR233} then 1
                               else if f in {RGB888, BGR888} then 3
                               else if f in {RGB565, BGR565, YUYV, YVYU, UYVY, VYUY} then 2
                               else if f in {XRGB1555, XBGR1555, RGBX5551, BGRX5551, ARGB1555, ABGR1555, RGBA5551, BGRA5551} then 2
                               else if Packed444(f) || f.AYUV? || f.Unknown? then 0 else 4)
                  && (planes <= plane ==> cpp == 0)
                  && (planes > 1 ==> f in {YUV410, YVU410, YUV411, YVU411, YUV420, YVU420, YUV422, YVU422, YUV444, YVU444,
                                           NV12, NV21, NV16, NV61, NV24, NV42}))
  {
  }

  function PlaneWidth(r: FbCmd, i: nat): nat { if i != 0 then r.width / HorzSub(r.pixelFormat) else r.width }
  function PlaneHeight(r: FbCmd, i: nat): nat { if i != 0 then r.height / VertSub(r.pixelFormat) else r.height }

  predicate Packed444(f: Format) {
    f in {XRGB4444, XBGR4444, RGBX4444, BGRX4444, ARGB4444, ABGR4444, RGBA4444, BGRA4444}
  }

  /** The accepted formats without a size: those of 4 bits a channel, AYUV, and any with the big-endian flag. */
  lemma NoSizeIff(p: PixelFormat, plane: nat)
    requires FormatCheck(p) == 0 && plane < NumPlanes(p)
    ensures PlaneCpp(p, plane) == 0 <==> p.bigEndian || Packed444(p.format) || p.format.AYUV?
  {
  }

  // ---------- what the planes of an accepted request look like ----------

  predicate PlaneOk(r: FbCmd, i: nat)
    requires r.Valid() && i < 4
  {
    && r.handles[i] != 0
    && PlaneWidth(r, i) * PlaneCpp(r.pixelFormat, i) <= r.pitches[i]
    && PlaneHeight(r, i) * r.pitches[i] + r.offsets[i] <= UINT_MAX
  }

  predicate Acceptable(r: FbCmd)
    requires r.Valid()
  {
    && !r.pixelFormat.format.Unknown?
    && r.width > 0 && r.width % HorzSub(r.pixelFormat) == 0
    && r.height > 0 && r.height % VertSub(r.pixelFormat) == 0
    && forall i :: 0 <= i < NumPlanes(r.pixelFormat) ==> PlaneOk(r, i)
  }

  /** Every plane has a buffer, rows long enough and an end below 2^32; the later planes are smaller by the sampling. */
  lemma AcceptableIs(r: FbCmd)
    requires r.Valid()
    ensures Acceptable(r) <==>
              var h, v := HorzSub(r.pixelFormat), VertSub(r.pixelFormat);
              && !r.pixelFormat.format.Unknown? && r.width > 0 && r.width % h == 0 && r.height > 0 && r.height % v == 0
              && forall i :: 0 <= i < NumPlanes(r.pixelFormat) ==>
                   && r.handles[i] != 0
                   && (if i == 0 then r.width else r.width / h) * PlaneCpp(r.pixelFormat, i) <= r.pitches[i]
                   && (if i == 0 then r.height else r.height / v) * r.pitches[i] + r.offsets[i] <= 0xffff_ffff
  {
    var h, v := HorzSub(r.pixelFormat), VertSub(r.pixelFormat);
    forall i | 0 <= i < NumPlanes(r.pixelFormat)
      ensures PlaneOk(r, i) <==>
                   && r.handles[i] != 0
                   && (if i == 0 then r.width else r.width / h) * PlaneCpp(r.pixelFormat, i) <= r.pitches[i]
                   && (if i == 0 then r.height else r.height / v) * r.pitches[i] + r.offsets[i] <= 0xffff_ffff
    {
    }
  }

  /** The first byte of sample (x, y) of plane i. */
  function SampleAt(r: FbCmd, i: nat, x: nat, y: nat): int
    requires r.Valid() && i < 4
  {
    r.offsets[i] + y * r.pitches[i] + x * PlaneCpp(r.pixelFormat, i)
  }

  predicate HasSample(r: FbCmd, i: nat, x: nat, y: nat) {
    i < NumPlanes(r.pixelFormat) && x < PlaneWidth(r, i) && y < PlaneHeight(r, i)
  }

  /** A row's samples end before the next row begins. */
  lemma RowEnds(r: FbCmd, i: nat, x: nat, y: nat)
    requires r.Valid() && Acceptable(r) && HasSample(r, i, x, y)
    ensures SampleAt(r, i, x, y) + PlaneCpp(r.pixelFormat, i) <= r.offsets[i] + y * r.pitches[i] + r.pitches[i]
  {
    var cpp := PlaneCpp(r.pixelFormat, i);
    assert PlaneOk(r, i);
    MulLe(x + 1, PlaneWidth(r, i), cpp);
    MulNext(x, cpp);
  }

  /** Every sample's bytes lie below 2^32. */
  lemma SamplesInReach(r: FbCmd, i: nat, x: nat, y: nat)
    requires r.Valid() && Acceptable(r) && HasSample(r, i, x, y)
    ensures 0 <= SampleAt(r, i, x, y) && SampleAt(r, i, x, y) + PlaneCpp(r.pixelFormat, i) <= UINT_MAX
  {
    assert PlaneOk(r, i);
    RowEnds(r, i, x, y);
    MulLe(y + 1, PlaneHeight(r, i), r.pitches[i]);
    MulNext(y, r.pitches[i]);
    MulLe(0, y, r.pitches[i]);
    MulLe(0, x, PlaneCpp(r.pixelFormat, i));
  }

  /** Distinct samples of a plane share no byte. */
  lemma SamplesApart(r: FbCmd, i: nat, x1: nat, y1: nat, x2: nat, y2: nat)
    requires r.Valid() && Acceptable(r) && HasSample(r, i, x1, y1) && HasSample(r, i, x2, y2) && (x1 != x2 || y1 != y2)
    ensures var cpp := PlaneCpp(r.pixelFormat, i);
            SampleAt(r, i, x1, y1) + cpp <= SampleAt(r, i, x2, y2) || SampleAt(r, i, x2, y2) + cpp <= SampleAt(r, i, x1, y1)
  {
    if y1 < y2 || (y1 == y2 && x1 < x2) {
      InOrder(r, i, x1, y1, x2, y2);
    } else {
      InOrder(r, i, x2, y2, x1, y1);
    }
  }

  lemma InOrder(r: FbCmd, i: nat, x1: nat, y1: nat, x2: nat, y2: nat)
    requires r.Valid() && Acceptable(r) && HasSample(r, i, x1, y1) && HasSample(r, i, x2, y2)
    requires y1 < y2 || (y1 == y2 && x1 < x2)
    ensures SampleAt(r, i, x1, y1) + PlaneCpp(r.pixelFormat, i) <= SampleAt(r, i, x2, y2)
  {
    var cpp := PlaneCpp(r.pixelFormat, i);
    if y1 < y2 {
      RowEnds(r, i, x1, y1);
      MulLe(y1 + 1, y2, r.pitches[i]);
      MulNext(y1, r.pitches[i]);
      MulLe(0, x2, cpp);
    } else {
      MulLe(x1 + 1, x2, cpp);
      MulNext(x1, cpp);
    }
  }

  /** Chroma planes divide the picture exactly. */
  lemma ChromaExact(r: FbCmd, i: nat)
    requires r.Valid() && Acceptable(r) && 0 < i < NumPlanes(r.pixelFormat)
    ensures PlaneWidth(r, i) * HorzSub(r.pixelFormat) == r.width && PlaneWidth(r, i) > 0
    ensures PlaneHeight(r, i) * VertSub(r.pixelFormat) == r.height && PlaneHeight(r, i) > 0
  {
  }

  /** With a format that has no size any pitch passes, zero too, and all samples of a row, or of all rows, lie at one byte. */
  lemma ZeroPitch(r: FbCmd, x: nat, y: nat)
    requires r.Valid() && FormatCheck(r.pixelFormat) == 0 && PlaneCpp(r.pixelFormat, 0) == 0
    requires r.width > 0 && r.height > 0 && r.handles[0] != 0 && r.pitches[0] == 0
    ensures Acceptable(r) && NumPlanes(r.pixelFormat) == 1
    ensures HasSample(r, 0, x, y) ==> SampleAt(r, 0, x, y) == r.offsets[0]
  {
    NoSizeIff(r.pixelFormat, 0);
  }

  /** For instance a picture of 640 by 480 pixels of 16 bits and a buffer of no bytes a row. */
  lemma ZeroPitchHappens(r: FbCmd)
    requires r == FbCmd(640, 480, PixelFormat(XRGB4444, false), [1, 0, 0, 0], [0, 0, 0, 0], [0, 0, 0, 0])
    ensures r.Valid() && Acceptable(r) && SampleAt(r, 0, 0, 0) == SampleAt(r, 0, 639, 479)
  {
    ZeroPitch(r, 0, 0);
    ZeroPitch(r, 639, 479);
  }

  // ---------- the check ----------

  predicate TooLarge(r: FbCmd, i: nat)
    requires r.Valid() && i < 4
  {
    PlaneWidth(r, i) * PlaneCpp(r.pixelFormat, i) > UINT_MAX || PlaneHeight(r, i) * r.pitches[i] + r.offsets[i] > UINT_MAX
  }

  /** Zero exactly for an acceptable request; out of range only for a row or a plane of 2^32 bytes or more. */
  method Check(r: FbCmd) returns (ret: int)
    requires r.Valid()
    ensures ret == 0 <==> Acceptable(r)
    ensures ret == 0 <==>
              var h, v := HorzSub(r.pixelFormat), VertSub(r.pixelFormat);
              && !r.pixelFormat.format.Unknown? && r.width > 0 && r.width % h == 0 && r.height > 0 && r.height % v == 0
              && forall i :: 0 <= i < NumPlanes(r.pixelFormat) ==>
                   && r.handles[i] != 0
                   && (if i == 0 then r.width else r.width / h) * PlaneCpp(r.pixelFormat, i) <= r.pitches[i]
                   && (if i == 0 then r.height else r.height / v) * r.pitches[i] + r.offsets[i] <= 0xffff_ffff
    ensures ret == 0 || ret == -22 || ret == -34
    ensures ret == -34 ==> exists i :: 0 <= i < NumPlanes(r.pixelFormat) && TooLarge(r, i)
  {
    AcceptableIs(r);
    ret := FormatCheck(r.pixelFormat);
    if ret != 0 { return; }
    var hsub, vsub, numPlanes := HorzSub(r.pixelFormat), VertSub(r.pixelFormat), NumPlanes(r.pixelFormat);
    if r.width == 0 || r.width % hsub != 0 { return EINVAL; }
    if r.height == 0 || r.height % vsub != 0 { return EINVAL; }
    for i := 0 to numPlanes
      invariant forall j :: 0 <= j < i ==> PlaneOk(r, j)
    {
      ret := CheckPlane(r, i, hsub, vsub);
      if ret != 0 { return; }
    }
    ret := 0;
  }

  /** One turn of the loop; the products of 32-bit numbers are taken in 64 bits, except the last. */
  method CheckPlane(r: FbCmd, i: nat, hsub: nat, vsub: nat) returns (ret: int)
    requires r.Valid() && i < 4 && hsub == HorzSub(r.pixelFormat) && vsub == VertSub(r.pixelFormat)
    ensures ret == 0 <==> PlaneOk(r, i)
    ensures ret == 0 || ret == EINVAL || ret == ERANGE
    ensures ret == ERANGE ==> TooLarge(r, i)
  {
    var width := r.width / (if i != 0 then hsub else 1);
    var height := r.height / (if i != 0 then vsub else 1);
    var cpp := PlaneCpp(r.pixelFormat, i);
    if r.handles[i] == 0 { return EINVAL; }
    if width * cpp > UINT_MAX { return ERANGE; }
    if height * r.pitches[i] + r.offsets[i] > UINT_MAX { return ERANGE; }
    if r.pitches[i] < width * cpp % 0x1_0000_0000 { return EINVAL; }
    return 0;
  }
}
