/** The YUV decoders. Each one checks the buffer length, lays the buffer out
    as the array OpenCV expects for its format and hands that array to the
    colour conversion. The conversion is outside the model, so a successful
    decode is the array and the conversion code it would be called with.

    Three layouts occur: packed YUYV rows of 2 bytes per pixel, viewed as a
    `(height, width, 2)` array; 4:2:0 planes stacked into `height * 3 / 2`
    rows; and 4:2:2 semi-planar or 4:4:4 planes stacked into `2 * height` or
    `3 * height` rows. Every planar row is cropped to the image width. */
module YuvDecode {
  import opened Wrappers
  import opened Frames
  import Formats

  // ---------------------------------------------------------------------
  // Packed YUYV
  // ---------------------------------------------------------------------

  /** The `(height, width, 2)` array of a YUYV frame whose rows, `stride`
      bytes apart, each hold at least `2 * width` bytes: pixel `c` of row `r`
      is the byte pair at offset `2 * c` of that row. */
  function YuyvSamples(data: seq<Byte>, width: nat, height: nat, stride: nat)
    : (s: seq<seq<seq<Byte>>>)
    requires height * stride <= |data| && (height > 0 ==> 2 * width <= stride)
    ensures |s| == height
    ensures forall r :: 0 <= r < height ==> IsGrid(s[r], width, 2)
  {
    var rows := Rows(data, height, stride, 2 * width);
    seq(height, r requires 0 <= r < height => Pairs(rows[r], width))
  }

  /** Sample `j` of pixel `c` in row `r` of a YUYV frame is byte `2 * c + j`
      of row `r`, the `stride` bytes at offset `r * stride`. */
  lemma YuyvSample(data: seq<Byte>, width: nat, height: nat, stride: nat, r: nat, c: nat, j: nat)
    requires height * stride <= |data| && 2 * width <= stride
    requires r < height && c < width && j < 2
    ensures r * stride + stride <= |data|
    ensures var row := data[r * stride .. r * stride + stride];
            YuyvSamples(data, width, height, stride)[r][c][j] == row[2 * c + j]
  {
    RowInside(r, height, stride);
    var rows := Rows(data, height, stride, 2 * width);
    assert rows[r] == data[r * stride .. r * stride + 2 * width];
  }

  /** The packed path: a short buffer is refused, and so is a row too
      narrow for two bytes per pixel, whose cropped rows cannot be reshaped
      to `(height, width, 2)`. */
  function PackedFrame(data: seq<Byte>, width: nat, height: nat, stride: nat, code: Conversion)
    : (r: Result<Decoded, DecodeError>)
    ensures r.Err? && r.error.SizeMismatch? <==> |data| < height * stride
    ensures r.Err? && r.error.SizeMismatch? ==> r.error == SizeMismatch(height * stride, |data|)
    ensures r.Err? && r.error.ShapeMismatch? <==>
              height * stride <= |data| && height > 0 && stride < 2 * width
    ensures r.Err? && r.error.ShapeMismatch? ==>
              r.error == ShapeMismatch(height * Min(2 * width, stride), [height, width, 2])
    ensures r.Err? ==> r.error.SizeMismatch? || r.error.ShapeMismatch?
    ensures r.Ok? ==> r.value == Packed(code, YuyvSamples(data, width, height, stride))
  {
    if |data| < height * stride then Err(SizeMismatch(height * stride, |data|))
    else if height > 0 && stride < 2 * width then
      Err(ShapeMismatch(height * Min(2 * width, stride), [height, width, 2]))
    else Ok(Packed(code, YuyvSamples(data, width, height, stride)))
  }

  // ---------------------------------------------------------------------
  // Planar and semi-planar layouts
  // ---------------------------------------------------------------------

  /** The planar path shared by the 4:2:0, 4:2:2 and 4:4:4 decoders: take
      the first `size` bytes, reshape them to `rows` rows of `stride` bytes
      and crop every row to `width` bytes. A short buffer is refused; a size
      that is not `rows * stride` cannot be reshaped. */
  function PlanarFrame(data: seq<Byte>, width: nat, rows: nat, stride: nat, size: nat,
                       code: Conversion): (r: Result<Decoded, DecodeError>)
    ensures r.Err? && r.error.SizeMismatch? <==> |data| < size
    ensures r.Err? && r.error.SizeMismatch? ==> r.error == SizeMismatch(size, |data|)
    ensures r.Err? && r.error.ShapeMismatch? <==> size <= |data| && rows * stride != size
    ensures r.Err? && r.error.ShapeMismatch? ==> r.error == ShapeMismatch(size, [rows, stride])
    ensures r.Err? ==> r.error.SizeMismatch? || r.error.ShapeMismatch?
    ensures r.Ok? ==> r.value.Planar? && r.value.code == code
                      && IsGrid(r.value.rows, rows, Min(width, stride))
  {
    if |data| < size then Err(SizeMismatch(size, |data|))
    else if rows * stride != size then Err(ShapeMismatch(size, [rows, stride]))
    else Ok(Planar(code, Rows(data, rows, stride, width)))
  }

  /** Every entry of a planar result is the buffer byte at its row's offset
      plus its column: row `r` starts at `r * stride`, and only the first
      `width` bytes of a row are kept. */
  lemma PlanarEntry(data: seq<Byte>, width: nat, rows: nat, stride: nat, size: nat,
                    code: Conversion, r: nat, c: nat)
    requires PlanarFrame(data, width, rows, stride, size, code).Ok?
    requires r < rows && c < width && c < stride
    ensures r * stride + stride <= |data|
    ensures var row := data[r * stride .. r * stride + stride];
            PlanarFrame(data, width, rows, stride, size, code).value.rows[r][c] == row[c]
  {
    RowInside(r, rows, stride);
    var m := Rows(data, rows, stride, width);
    assert m[r] == data[r * stride .. r * stride + Min(width, stride)];
  }

  /** `PlanarFrame` reads nothing past its first `size` bytes. */
  lemma PlanarIgnoresBytesPastFrame(d1: seq<Byte>, d2: seq<Byte>, width: nat, rows: nat,
                                    stride: nat, size: nat, code: Conversion)
    requires size <= |d1| && size <= |d2| && d1[..size] == d2[..size]
    ensures PlanarFrame(d1, width, rows, stride, size, code)
            == PlanarFrame(d2, width, rows, stride, size, code)
  {
    if rows * stride == size {
      RowsReadOnlyFrame(d1, d2, rows, stride, width);
    }
  }

  // ---------------------------------------------------------------------
  // The decoders
  // ---------------------------------------------------------------------

  /** `decode_yuv`: the packed YUYV path for the YUY2 conversion code and
      the 4:2:0 path for every other code. Stride 0 selects `2 * width` for
      YUYV and `width` otherwise. */
  function DecodeYuv(data: seq<Byte>, width: nat, height: nat, stride: nat, code: Conversion)
    : (r: Result<Decoded, DecodeError>)
    // YUYV: one row of `stride` bytes per image row, at least `2 * width` of them used.
    ensures code == Yuv2RgbYuy2 ==>
              var es := Formats.StrideOr(stride, 2 * width);
              (r.Err? && r.error.SizeMismatch? <==> |data| < height * es) &&
              (r.Err? && r.error.SizeMismatch? ==> r.error == SizeMismatch(height * es, |data|)) &&
              (r.Err? && r.error.ShapeMismatch? <==>
                 height * es <= |data| && height > 0 && es < 2 * width) &&
              (r.Err? && r.error.ShapeMismatch? ==>
                 r.error == ShapeMismatch(height * Min(2 * width, es), [height, width, 2])) &&
              (r.Err? ==> r.error.SizeMismatch? || r.error.ShapeMismatch?) &&
              (r.Ok? ==> r.value == Packed(code, YuyvSamples(data, width, height, es)))
    // 4:2:0: one and a half rows of `stride` bytes per image row.
    ensures code != Yuv2RgbYuy2 ==>
              var es := Formats.StrideOr(stride, width);
              var size := es * height * 3 / 2;
              (r.Err? && r.error.SizeMismatch? <==> |data| < size) &&
              (r.Err? && r.error.ShapeMismatch? <==>
                 size <= |data| && height % 2 == 1 && es >= 2) &&
              r == PlanarFrame(data, width, height * 3 / 2, es, size, code)
  {
    if code == Yuv2RgbYuy2 then
      PackedFrame(data, width, height, Formats.StrideOr(stride, 2 * width), code)
    else
      var es := Formats.StrideOr(stride, width);
      Formats.HalfRowsFit(height, es);
      PlanarFrame(data, width, height * 3 / 2, es, es * height * 3 / 2, code)
  }

  /** `decode_yuv` reads only the first `height * stride` bytes (YUYV) or
      `stride * height * 3 / 2` bytes (4:2:0): bytes after them never change
      the result. */
  lemma DecodeYuvIgnoresBytesPastFrame(d1: seq<Byte>, d2: seq<Byte>, width: nat, height: nat,
                                       stride: nat, code: Conversion)
    requires var size := if code == Yuv2RgbYuy2
                         then height * Formats.StrideOr(stride, 2 * width)
                         else Formats.StrideOr(stride, width) * height * 3 / 2;
             size <= |d1| && size <= |d2| && d1[..size] == d2[..size]
    ensures DecodeYuv(d1, width, height, stride, code) == DecodeYuv(d2, width, height, stride, code)
  {
    if code == Yuv2RgbYuy2 {
      var es := Formats.StrideOr(stride, 2 * width);
      if height == 0 || 2 * width <= es {
        RowsReadOnlyFrame(d1, d2, height, es, 2 * width);
      }
    } else {
      var es := Formats.StrideOr(stride, width);
      PlanarIgnoresBytesPastFrame(d1, d2, width, height * 3 / 2, es, es * height * 3 / 2, code);
    }
  }

  /** `decode_nv12`: the 4:2:0 path with the NV12 conversion. */
  function DecodeNv12(data: seq<Byte>, width: nat, height: nat, stride: nat)
    : (r: Result<Decoded, DecodeError>)
    ensures r == DecodeYuv(data, width, height, stride, Yuv2RgbNv12)
    ensures r.Ok? ==> r.value.Planar? && r.value.code == Yuv2RgbNv12
  {
    DecodeYuv(data, width, height, stride, Yuv2RgbNv12)
  }

  /** `decode_nv21`: the 4:2:0 path with the NV21 conversion. */
  function DecodeNv21(data: seq<Byte>, width: nat, height: nat, stride: nat)
    : (r: Result<Decoded, DecodeError>)
    ensures r == DecodeYuv(data, width, height, stride, Yuv2RgbNv21)
    ensures r.Ok? ==> r.value.Planar? && r.value.code == Yuv2RgbNv21
  {
    DecodeYuv(data, width, height, stride, Yuv2RgbNv21)
  }

  /** `decode_i420`: the 4:2:0 path with the I420 conversion. */
  function DecodeI420(data: seq<Byte>, width: nat, height: nat, stride: nat)
    : (r: Result<Decoded, DecodeError>)
    ensures r == DecodeYuv(data, width, height, stride, Yuv2RgbI420)
    ensures r.Ok? ==> r.value.Planar? && r.value.code == Yuv2RgbI420
  {
    DecodeYuv(data, width, height, stride, Yuv2RgbI420)
  }

  /** `decode_yuyv`: the packed path with the YUY2 conversion. */
  function DecodeYuyv(data: seq<Byte>, width: nat, height: nat, stride: nat)
    : (r: Result<Decoded, DecodeError>)
    ensures r == DecodeYuv(data, width, height, stride, Yuv2RgbYuy2)
    ensures r.Ok? ==> r.value.Packed? && r.value.code == Yuv2RgbYuy2
                      && |r.value.samples| == height
  {
    DecodeYuv(data, width, height, stride, Yuv2RgbYuy2)
  }

  /** `decode_yuv422_sp`: a full-height luma plane over a full-height
      interleaved chroma plane, `2 * height` rows of `stride` bytes (stride 0
      selects `width`). The reshape always fits, so the only failure is a
      short buffer. */
  function DecodeYuv422Sp(data: seq<Byte>, width: nat, height: nat, stride: nat, code: Conversion)
    : (r: Result<Decoded, DecodeError>)
    ensures var es := Formats.StrideOr(stride, width);
            (r.Err? <==> |data| < es * height * 2) &&
            (r.Err? ==> r.error == SizeMismatch(es * height * 2, |data|))
    ensures var es := Formats.StrideOr(stride, width);
            r == PlanarFrame(data, width, height * 2, es, es * height * 2, code)
  {
    var es := Formats.StrideOr(stride, width);
    assert (height * 2) * es == es * height * 2;
    PlanarFrame(data, width, height * 2, es, es * height * 2, code)
  }

  /** `decode_nv16`: the 4:2:2 semi-planar path with the NV16 conversion. */
  function DecodeNv16(data: seq<Byte>, width: nat, height: nat, stride: nat)
    : (r: Result<Decoded, DecodeError>)
    ensures r == DecodeYuv422Sp(data, width, height, stride, Yuv2RgbNv16)
    ensures r.Ok? ==> r.value.Planar? && r.value.code == Yuv2RgbNv16
  {
    DecodeYuv422Sp(data, width, height, stride, Yuv2RgbNv16)
  }

  /** `decode_nv61`: the 4:2:2 semi-planar path with the NV61 conversion. */
  function DecodeNv61(data: seq<Byte>, width: nat, height: nat, stride: nat)
    : (r: Result<Decoded, DecodeError>)
    ensures r == DecodeYuv422Sp(data, width, height, stride, Yuv2RgbNv61)
    ensures r.Ok? ==> r.value.Planar? && r.value.code == Yuv2RgbNv61
  {
    DecodeYuv422Sp(data, width, height, stride, Yuv2RgbNv61)
  }

  /** `decode_yuv444`: three full planes, `3 * height` rows of `stride` bytes
      (stride 0 selects `width`), converted with the I444 code. The reshape
      always fits, so the only failure is a short buffer. */
  function DecodeYuv444(data: seq<Byte>, width: nat, height: nat, stride: nat)
    : (r: Result<Decoded, DecodeError>)
    ensures var es := Formats.StrideOr(stride, width);
            (r.Err? <==> |data| < es * height * 3) &&
            (r.Err? ==> r.error == SizeMismatch(es * height * 3, |data|))
    ensures r.Ok? ==> r.value.Planar? && r.value.code == Yuv2RgbI444
    ensures var es := Formats.StrideOr(stride, width);
            r == PlanarFrame(data, width, height * 3, es, es * height * 3, Yuv2RgbI444)
  {
    var es := Formats.StrideOr(stride, width);
    assert (height * 3) * es == es * height * 3;
    PlanarFrame(data, width, height * 3, es, es * height * 3, Yuv2RgbI444)
  }
}
