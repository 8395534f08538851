/** Byte buffers, 2-D byte arrays and the values a decoder hands back.

    The decoders build NumPy arrays from the uploaded bytes: they take a
    prefix of the buffer, reshape it into rows of `stride` bytes and crop
    every row to the image width. Those three array operations are modelled
    here once and shared by every decoder. */
module Frames {

  /** One byte of the uploaded buffer (a NumPy `uint8`). */
  type Byte = bv8

  /** A row-major 2-D array of bytes (a rank-2 `uint8` array). */
  type Matrix = seq<seq<Byte>>

  /** The OpenCV colour-conversion codes the YUV decoders pass on. */
  datatype Conversion =
    | Yuv2RgbNv12
    | Yuv2RgbNv21
    | Yuv2RgbI420
    | Yuv2RgbYuy2
    | Yuv2RgbNv16
    | Yuv2RgbNv61
    | Yuv2RgbI444

  /** What a successful decode produces. The colour conversion itself is an
      opaque library call, so a YUV decode is represented by the exact array
      handed to that call together with the conversion code. */
  datatype Decoded =
      /** An 8-bit intensity image, shown as it is (RAW10). */
    | Gray(pixels: Matrix)
      /** A rank-2 planar or semi-planar array and its conversion code. */
    | Planar(code: Conversion, rows: Matrix)
      /** A rank-3 (height, width, 2) packed array and its conversion code. */
    | Packed(code: Conversion, samples: seq<seq<seq<Byte>>>)

  /** Why a decode produced no image. */
  datatype DecodeError =
      /** The buffer is shorter than the geometry needs. */
    | SizeMismatch(expected: nat, actual: nat)
      /** A RAW10 row is too short for its 5-byte groups (the group read fails). */
    | StrideTooSmall(needed: nat, stride: nat)
      /** An array of `size` bytes cannot be reshaped to `shape`. */
    | ShapeMismatch(size: nat, shape: seq<nat>)
      /** The format name has no decoder. */
    | NoDecoder(name: string)

  function Min(a: nat, b: nat): nat { if a <= b then a else b }

  /** `m` has `rows` rows of `cols` entries each. */
  ghost predicate IsGrid<T>(m: seq<seq<T>>, rows: nat, cols: nat) {
    |m| == rows && forall r :: 0 <= r < |m| ==> |m[r]| == cols
  }

  /** Row `r` of a layout of `rows` rows, `cols` apart, lies inside it. */
  lemma {:induction false} RowInside(r: nat, rows: nat, cols: nat)
    requires r < rows
    ensures 0 <= r * cols && r * cols + cols <= rows * cols
    decreases rows - r
  {
    if r + 1 < rows {
      RowInside(r + 1, rows, cols);
    }
  }

  /** Every row of a layout of `rows` rows, `stride` apart, fits in `size`. */
  lemma RowsInside(rows: nat, stride: nat, size: nat)
    requires rows * stride <= size
    ensures forall r :: 0 <= r < rows ==> r * stride + stride <= size
  {
    forall r | 0 <= r < rows
      ensures r * stride + stride <= size
    {
      RowInside(r, rows, stride);
    }
  }

  /** `data[:rows * stride].reshape(rows, stride)[:, :width]`: the buffer cut
      into `rows` rows of `stride` bytes, each row cut to its first `width`
      bytes. As with NumPy slicing, a `width` beyond the row keeps the whole
      row, so every row has `Min(width, stride)` bytes. Row `r` starts at
      offset `r * stride`; nothing past `rows * stride` is read. */
  function Rows(data: seq<Byte>, rows: nat, stride: nat, width: nat): (m: Matrix)
    requires rows * stride <= |data|
    ensures |m| == rows
    ensures forall r :: 0 <= r < rows ==>
              r * stride + Min(width, stride) <= |data| &&
              m[r] == data[r * stride .. r * stride + Min(width, stride)]
  {
    RowsInside(rows, stride, |data|);
    seq(rows, r requires 0 <= r < rows => data[r * stride .. r * stride + Min(width, stride)])
  }

  /** `Rows` reads nothing past the first `rows * stride` bytes: two
      buffers that agree there give the same rows. */
  lemma RowsReadOnlyFrame(d1: seq<Byte>, d2: seq<Byte>, rows: nat, stride: nat, width: nat)
    requires rows * stride <= |d1| && rows * stride <= |d2|
    requires d1[..rows * stride] == d2[..rows * stride]
    ensures Rows(d1, rows, stride, width) == Rows(d2, rows, stride, width)
  {
    var m1, m2 := Rows(d1, rows, stride, width), Rows(d2, rows, stride, width);
    RowsInside(rows, stride, rows * stride);
    forall r | 0 <= r < rows
      ensures m1[r] == m2[r]
    {
      var lo := r * stride;
      var hi := lo + Min(width, stride);
      assert d1[lo..hi] == d1[..rows * stride][lo..hi];
      assert d2[lo..hi] == d2[..rows * stride][lo..hi];
    }
  }

  /** A rank-2 `(n, 2 * k)`-shaped row viewed as `(k, 2)`: `k` pairs of
      consecutive bytes. */
  function Pairs(row: seq<Byte>, k: nat): (p: seq<seq<Byte>>)
    requires |row| == 2 * k
    ensures IsGrid(p, k, 2)
    ensures forall c, j :: 0 <= c < k && 0 <= j < 2 ==> p[c][j] == row[2 * c + j]
  {
    seq(k, c requires 0 <= c < k => row[2 * c .. 2 * c + 2])
  }
}
