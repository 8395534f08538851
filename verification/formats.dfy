/** The eight pixel formats the viewer offers and the buffer geometry each
    one implies: how many bytes a row takes when the caller passes stride 0,
    and how many bytes a whole frame needs. */
module Formats {

  /** The formats registered with the viewer, in the order it lists them. */
  datatype Format = Raw10 | Nv12 | Nv21 | Nv16 | Nv61 | I420 | Yuyv | Yuv444

  /** Stride 0 asks for the format's default row length. */
  function StrideOr(stride: nat, default: nat): nat {
    if stride > 0 then stride else default
  }

  /** Bytes per row when the caller passes stride 0: 10-bit packed rows take
      5 bytes per 4 pixels (rounded down), YUYV rows 2 bytes per pixel, and
      the planar formats 1 byte per luma sample. */
  function DefaultStride(f: Format, width: nat): nat {
    match f
    case Raw10 => width * 5 / 4
    case Yuyv => width * 2
    case _ => width
  }

  /** The bytes a RAW10 row needs for its `width / 4` whole 5-byte groups. */
  function GroupBytes(width: nat): nat {
    5 * (width / 4)
  }

  /** The stride a decoder actually uses: the caller's stride when it is
      positive, else `width * 5 / 4` (rounded down) for RAW10, `2 * width`
      for YUYV and `width` for the planar formats. */
  function EffectiveStride(f: Format, width: nat, stride: nat): (es: nat)
    ensures stride > 0 ==> es == stride
    ensures stride == 0 && f == Raw10 ==> es == width * 5 / 4
    ensures stride == 0 && f == Yuyv ==> es == 2 * width
    ensures stride == 0 && f != Raw10 && f != Yuyv ==> es == width
  {
    StrideOr(stride, DefaultStride(f, width))
  }

  /** The 4:2:0 layout stacks `height * 3 / 2` rows (rounded down) against a
      size of `stride * height * 3 / 2` bytes (rounded down). The two agree
      exactly when the height is even or the stride is below 2; otherwise
      the rows fall short of the size by `stride / 2` bytes. */
  lemma {:induction false} HalfRowsFit(height: nat, stride: nat)
    ensures (height * 3 / 2) * stride <= stride * height * 3 / 2
    ensures (height * 3 / 2) * stride == stride * height * 3 / 2
            <==> height % 2 == 0 || stride < 2
  {
    var q := height / 2;
    if height % 2 == 0 {
      assert height == 2 * q;
      assert height * 3 / 2 == 3 * q;
      assert stride * height * 3 == 2 * (3 * q * stride);
      assert (3 * q) * stride == 3 * q * stride;
    } else {
      assert height == 2 * q + 1;
      assert height * 3 / 2 == 3 * q + 1;
      assert (3 * q + 1) * stride == 3 * q * stride + stride;
      assert stride * height * 3 == 2 * (3 * q * stride + stride) + stride;
      assert stride * height * 3 / 2 == 3 * q * stride + stride + stride / 2;
    }
  }

  /** The least buffer length a decoder accepts: one row per image row for
      RAW10 and YUYV, one and a half (rounded down) for 4:2:0, two for 4:2:2
      semi-planar and three for 4:4:4 planar. The size covers the rows of
      the array the decoder shapes, and equals them exactly unless a 4:2:0
      frame of odd height has a stride of 2 or more, where the reshape
      fails. */
  function ExpectedSize(f: Format, width: nat, height: nat, stride: nat): (size: nat)
    ensures ArrayRows(f, height) * EffectiveStride(f, width, stride) <= size
    ensures size == ArrayRows(f, height) * EffectiveStride(f, width, stride)
            <==> !IsYuv420(f) || height % 2 == 0 || EffectiveStride(f, width, stride) < 2
  {
    var es := EffectiveStride(f, width, stride);
    FrameSizeCoversRows(f, height, es);
    FrameSize(f, height, es)
  }

  /** The size each decoder computes from the height and its stride, with
      the factors in the order its source line writes them. */
  function FrameSize(f: Format, height: nat, es: nat): nat {
    match f
    case Raw10 => height * es
    case Yuyv => height * es
    case Nv12 => es * height * 3 / 2
    case Nv21 => es * height * 3 / 2
    case I420 => es * height * 3 / 2
    case Nv16 => es * height * 2
    case Nv61 => es * height * 2
    case Yuv444 => es * height * 3
  }

  lemma FrameSizeCoversRows(f: Format, height: nat, es: nat)
    ensures ArrayRows(f, height) * es <= FrameSize(f, height, es)
    ensures FrameSize(f, height, es) == ArrayRows(f, height) * es
            <==> !IsYuv420(f) || height % 2 == 0 || es < 2
  {
    if IsYuv420(f) {
      HalfRowsFit(height, es);
    } else if f == Nv16 || f == Nv61 {
      assert (height * 2) * es == es * height * 2;
    } else if f == Yuv444 {
      assert (height * 3) * es == es * height * 3;
    }
  }

  /** Rows of the array a successful decode produces: one per image row for
      RAW10 and YUYV, `height * 3 / 2` for 4:2:0, `2 * height` for 4:2:2
      semi-planar and `3 * height` for 4:4:4 planar. */
  function ArrayRows(f: Format, height: nat): nat {
    match f
    case Raw10 => height
    case Yuyv => height
    case Nv12 => height * 3 / 2
    case Nv21 => height * 3 / 2
    case I420 => height * 3 / 2
    case Nv16 => height * 2
    case Nv61 => height * 2
    case Yuv444 => height * 3
  }

  /** Whether a buffer that is long enough also fits the format's array
      layout: every RAW10 row must hold its 5-byte groups, every YUYV row
      its `2 * width` bytes, and the 4:2:0 size must split into whole rows,
      which fails only for an odd height with a stride of 2 or more. The
      4:2:2 and 4:4:4 layouts always fit. An image of height 0 has no row
      to fail on. */
  predicate Fits(f: Format, width: nat, height: nat, stride: nat) {
    var es := EffectiveStride(f, width, stride);
    match f
    case Raw10 => height == 0 || GroupBytes(width) <= es
    case Yuyv => height == 0 || 2 * width <= es
    case Nv12 => height % 2 == 0 || es < 2
    case Nv21 => height % 2 == 0 || es < 2
    case I420 => height % 2 == 0 || es < 2
    case _ => true
  }

  /** The name the viewer lists a format under: each key of the decoder
      table names exactly one format. */
  function Name(f: Format): (name: string)
    ensures name == "RAW10" <==> f == Raw10
    ensures name == "NV12" <==> f == Nv12
    ensures name == "NV21" <==> f == Nv21
    ensures name == "NV16" <==> f == Nv16
    ensures name == "NV61" <==> f == Nv61
    ensures name == "I420" <==> f == I420
    ensures name == "YUYV" <==> f == Yuyv
    ensures name == "YUV444" <==> f == Yuv444
  {
    match f
    case Raw10 => "RAW10"
    case Nv12 => "NV12"
    case Nv21 => "NV21"
    case Nv16 => "NV16"
    case Nv61 => "NV61"
    case I420 => "I420"
    case Yuyv => "YUYV"
    case Yuv444 => "YUV444"
  }

  /** The 4:2:0 formats, whose frames take one and a half rows per image row. */
  predicate IsYuv420(f: Format) {
    f == Nv12 || f == Nv21 || f == I420
  }

  /** With the default RAW10 stride every 5-byte group of a row lies inside
      the row: `width / 4` groups need `GroupBytes(width)` bytes, and
      `width * 5 / 4` is at least that. */
  lemma {:induction false} DefaultRaw10StrideHoldsGroups(width: nat)
    ensures GroupBytes(width) <= DefaultStride(Raw10, width)
  {
    var q, r := width / 4, width % 4;
    assert width == 4 * q + r;
    assert width * 5 == 4 * (5 * q) + 5 * r;
    assert width * 5 / 4 == 5 * q + 5 * r / 4;
  }
}
