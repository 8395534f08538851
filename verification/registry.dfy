/** The format registry and the viewer's decode step: the table from format
    names to decoders, the lookup by the name the user picked, and the
    dispatch to the decoder found, with an error for a name that has none. */
module Registry {
  import opened Wrappers
  import opened Frames
  import opened Formats
  import RawDecode
  import YuvDecode

  /** The registered formats, in the order the viewer offers them. */
  const Registered: seq<Format> := [Raw10, Nv12, Nv21, Nv16, Nv61, I420, Yuyv, Yuv444]

  /** Every format has an entry. */
  lemma AllRegistered(f: Format)
    ensures f in Registered
  {
  }

  /** Different formats are listed under different names. */
  lemma NameInjective(f: Format, g: Format)
    ensures Name(f) == Name(g) <==> f == g
  {
  }

  /** The first of `fs` listed under `name`, as a dictionary lookup finds
      the one entry with that key. */
  function Find(fs: seq<Format>, name: string): (r: Option<Format>)
    ensures r.Some? ==> r.value in fs && Name(r.value) == name
    ensures r.None? <==> forall f :: f in fs ==> Name(f) != name
  {
    if |fs| == 0 then None
    else if Name(fs[0]) == name then Some(fs[0])
    else Find(fs[1..], name)
  }

  /** `DECODING_FUNCTIONS.get(name)`. */
  function Lookup(name: string): (r: Option<Format>)
    ensures r.Some? ==> Name(r.value) == name
    ensures r.None? <==> forall f: Format :: Name(f) != name
  {
    var r := Find(Registered, name);
    if r.None? then
      forall f: Format ensures Name(f) != name {
        AllRegistered(f);
      }
      r
    else r
  }

  /** Looking up a format's own name finds that format. */
  lemma LookupName(f: Format)
    ensures Lookup(Name(f)) == Some(f)
  {
    var r := Lookup(Name(f));
    assert r.Some?;
    NameInjective(r.value, f);
  }

  /** The decoder registered for a format, applied to a buffer. */
  function Decode(f: Format, data: seq<Byte>, width: nat, height: nat, stride: nat)
    : (r: Result<Decoded, DecodeError>)
    ensures r.Err? ==> !r.error.NoDecoder?
  {
    match f
    case Raw10 => RawDecode.DecodeRaw10(data, width, height, stride)
    case Nv12 => YuvDecode.DecodeNv12(data, width, height, stride)
    case Nv21 => YuvDecode.DecodeNv21(data, width, height, stride)
    case Nv16 => YuvDecode.DecodeNv16(data, width, height, stride)
    case Nv61 => YuvDecode.DecodeNv61(data, width, height, stride)
    case I420 => YuvDecode.DecodeI420(data, width, height, stride)
    case Yuyv => YuvDecode.DecodeYuyv(data, width, height, stride)
    case Yuv444 => YuvDecode.DecodeYuv444(data, width, height, stride)
  }

  /** The viewer's decode step for the format the user picked: the decoder
      registered under that name, or an error naming the format when there
      is none. */
  function Render(name: string, data: seq<Byte>, width: nat, height: nat, stride: nat)
    : (r: Result<Decoded, DecodeError>)
    ensures r.Err? && r.error.NoDecoder? <==> forall f: Format :: Name(f) != name
    ensures r.Err? && r.error.NoDecoder? ==> r.error.name == name
  {
    match Lookup(name)
    case None => Err(NoDecoder(name))
    case Some(f) => Decode(f, data, width, height, stride)
  }

  /** Picking a format by its name runs that format's decoder. */
  lemma RenderFormat(f: Format, data: seq<Byte>, width: nat, height: nat, stride: nat)
    ensures Render(Name(f), data, width, height, stride) == Decode(f, data, width, height, stride)
  {
    LookupName(f);
  }

  /** Every decoder refuses exactly the buffers shorter than the format's
      expected size, and reports that size and the buffer's length. */
  lemma SizeCheck(f: Format, data: seq<Byte>, width: nat, height: nat, stride: nat)
    ensures var r := Decode(f, data, width, height, stride);
            r.Err? && r.error.SizeMismatch? <==> |data| < ExpectedSize(f, width, height, stride)
    ensures var r := Decode(f, data, width, height, stride);
            r.Err? && r.error.SizeMismatch? ==>
              r.error == SizeMismatch(ExpectedSize(f, width, height, stride), |data|)
  {
    if f == Yuyv {
      assert width * 2 == 2 * width;
    }
  }

  /** A decode succeeds exactly when the buffer is long enough and the
      geometry fits the format's array layout. */
  lemma DecodeSucceeds(f: Format, data: seq<Byte>, width: nat, height: nat, stride: nat)
    ensures Decode(f, data, width, height, stride).Ok?
            <==> ExpectedSize(f, width, height, stride) <= |data| && Fits(f, width, height, stride)
  {
    SizeCheck(f, data, width, height, stride);
  }

  /** With stride 0 every layout fits except a 4:2:0 image of odd height at
      least 2 pixels wide: a buffer of the expected size then decodes. */
  lemma DefaultStrideFits(f: Format, width: nat, height: nat)
    ensures Fits(f, width, height, 0) <==> !(IsYuv420(f) && height % 2 == 1 && width >= 2)
  {
    if f == Raw10 {
      DefaultRaw10StrideHoldsGroups(width);
    }
  }

  /** Every decoder reads only the first `ExpectedSize` bytes of the
      buffer: two buffers that agree on them decode alike. */
  lemma DecodeIgnoresBytesPastFrame(f: Format, d1: seq<Byte>, d2: seq<Byte>,
                                    width: nat, height: nat, stride: nat)
    requires var size := ExpectedSize(f, width, height, stride);
             size <= |d1| && size <= |d2| && d1[..size] == d2[..size]
    ensures Decode(f, d1, width, height, stride) == Decode(f, d2, width, height, stride)
  {
    var es := EffectiveStride(f, width, stride);
    match f
    case Raw10 =>
      RawDecode.Raw10IgnoresBytesPastFrame(d1, d2, width, height, stride);
    case Nv12 =>
      YuvDecode.DecodeYuvIgnoresBytesPastFrame(d1, d2, width, height, stride, Yuv2RgbNv12);
    case Nv21 =>
      YuvDecode.DecodeYuvIgnoresBytesPastFrame(d1, d2, width, height, stride, Yuv2RgbNv21);
    case I420 =>
      YuvDecode.DecodeYuvIgnoresBytesPastFrame(d1, d2, width, height, stride, Yuv2RgbI420);
    case Yuyv =>
      assert width * 2 == 2 * width;
      YuvDecode.DecodeYuvIgnoresBytesPastFrame(d1, d2, width, height, stride, Yuv2RgbYuy2);
    case Nv16 =>
      YuvDecode.PlanarIgnoresBytesPastFrame(d1, d2, width, height * 2, es, es * height * 2, Yuv2RgbNv16);
    case Nv61 =>
      YuvDecode.PlanarIgnoresBytesPastFrame(d1, d2, width, height * 2, es, es * height * 2, Yuv2RgbNv61);
    case Yuv444 =>
      YuvDecode.PlanarIgnoresBytesPastFrame(d1, d2, width, height * 3, es, es * height * 3, Yuv2RgbI444);
  }

  /** The number of rows of a decoded array. */
  function ArrayHeight(d: Decoded): nat {
    match d
    case Gray(m) => |m|
    case Planar(_, m) => |m|
    case Packed(_, s) => |s|
  }

  /** A successful decode has the row count the format's layout prescribes. */
  lemma DecodeShape(f: Format, data: seq<Byte>, width: nat, height: nat, stride: nat)
    requires Decode(f, data, width, height, stride).Ok?
    ensures ArrayHeight(Decode(f, data, width, height, stride).value) == ArrayRows(f, height)
  {
    var r := Decode(f, data, width, height, stride);
    if f == Raw10 {
      assert IsGrid(r.value.pixels, height, width);
    }
  }

  /** A result with its conversion code replaced. */
  function Retag(r: Result<Decoded, DecodeError>, code: Conversion): Result<Decoded, DecodeError> {
    if r.Ok? && r.value.Planar? then Ok(Planar(code, r.value.rows)) else r
  }

  /** NV12, NV21 and I420 share one layout: on any input they fail alike or
      hand the same array to the conversion, differing only in its code. */
  lemma Yuv420SameLayout(data: seq<Byte>, width: nat, height: nat, stride: nat)
    ensures YuvDecode.DecodeNv21(data, width, height, stride)
            == Retag(YuvDecode.DecodeNv12(data, width, height, stride), Yuv2RgbNv21)
    ensures YuvDecode.DecodeI420(data, width, height, stride)
            == Retag(YuvDecode.DecodeNv12(data, width, height, stride), Yuv2RgbI420)
  {
  }

  /** NV16 and NV61 share one layout in the same way. */
  lemma Yuv422SameLayout(data: seq<Byte>, width: nat, height: nat, stride: nat)
    ensures YuvDecode.DecodeNv61(data, width, height, stride)
            == Retag(YuvDecode.DecodeNv16(data, width, height, stride), Yuv2RgbNv61)
  {
  }
}
