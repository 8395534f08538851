/** The RAW10 decoder: every 5 bytes of a row carry four 10-bit pixels. As
    the decoder reads them, byte `k` (0..3) of a group gives bits 0..7 of
    pixel `k` and bits `2k` and `2k + 1` of byte 4 give its bits 8 and 9.
    The 10-bit values are shifted right by 2 to give an 8-bit intensity
    image. */
module RawDecode {
  import opened Wrappers
  import opened Frames
  import Formats

  /** Bits `2k` and `2k + 1` of the shared fifth byte, which become bits 8
      and 9 of pixel `k` of a group. */
  function HighBits(b4: Byte, k: nat): (bits: bv16)
    requires k < 4
    ensures bits < 4
  {
    if k == 0 then (b4 as bv16) & 3
    else if k == 1 then ((b4 as bv16) >> 2) & 3
    else if k == 2 then ((b4 as bv16) >> 4) & 3
    else ((b4 as bv16) >> 6) & 3
  }

  /** Pixel `k` of a group from its own byte `bk` and the shared byte `b4`,
      with the mask and shift the decoder writes for that pixel, evaluated
      wide enough that no bit is lost: `bk` in bits 0..7 and bits `2k` and
      `2k + 1` of `b4` in bits 8 and 9. */
  function Pixel10(bk: Byte, b4: Byte, k: nat): (v: bv16)
    requires k < 4
    ensures v == (bk as bv16) | (HighBits(b4, k) << 8)
    ensures v < 1024
  {
    var b, x := bk as bv16, b4 as bv16;
    if k == 0 then b | ((x & 0x03) << 8)
    else if k == 1 then b | ((x & 0x0C) << 6)
    else if k == 2 then b | ((x & 0x30) << 4)
    else b | ((x & 0xC0) << 2)
  }

  /** A pixel splits back into its own byte, as the low 8 bits, and the two
      bits from the shared byte, as bits 8 and 9. */
  lemma Pixel10Parts(bk: Byte, b4: Byte, k: nat)
    requires k < 4
    ensures Pixel10(bk, b4, k) & 0xFF == bk as bv16
    ensures Pixel10(bk, b4, k) >> 8 == HighBits(b4, k)
  {
  }

  /** Pixel `k` of a group as the decoder's lines compute it on 8-bit NumPy
      scalars: the masked byte is shifted within 8 bits, so the two bits
      from `b4` are shifted out before they are combined. */
  function Pixel10AsWritten(bk: Byte, b4: Byte, k: nat): (v: Byte)
    requires k < 4
    ensures v as bv16 == Pixel10(bk, b4, k) & 0xFF
  {
    if k == 0 then bk | ((b4 & 0x03) << 8)
    else if k == 1 then bk | ((b4 & 0x0C) << 6)
    else if k == 2 then bk | ((b4 & 0x30) << 4)
    else bk | ((b4 & 0xC0) << 2)
  }

  /** In 8-bit arithmetic the high bits never reach the pixel: the as-written
      value is `bk` itself, whatever `b4` holds, which is the intended value
      with bits 8 and 9 dropped. */
  lemma AsWrittenDropsHighBits(bk: Byte, b4: Byte, k: nat)
    requires k < 4
    ensures Pixel10AsWritten(bk, b4, k) == bk
    ensures Pixel10AsWritten(bk, b4, k) as bv16 == Pixel10(bk, b4, k) & 0xFF
  {
  }

  /** The group `00 01 02 03 FF` tells the two readings apart: the intended
      pixels are 0x300..0x303 and normalise to 0xC0, the 8-bit ones
      normalise to 0x00. */
  lemma AsWrittenLosesHighBits()
    ensures Pixel10(0x00, 0xFF, 0) == 0x300 && Pixel10(0x03, 0xFF, 3) == 0x303
    ensures Pixel10(0x00, 0xFF, 0) >> 2 == 0xC0 && Pixel10(0x03, 0xFF, 3) >> 2 == 0xC0
    ensures Pixel10AsWritten(0x00, 0xFF, 0) >> 2 == 0x00
    ensures Pixel10AsWritten(0x03, 0xFF, 3) >> 2 == 0x00
  {
  }

  /** The 8-bit intensity of a pixel: bits 2..7 of its own byte below the
      two bits it takes from the shared byte. */
  lemma NormalizedPixel(bk: Byte, b4: Byte, k: nat)
    requires k < 4
    ensures ((Pixel10(bk, b4, k) >> 2) as Byte) == (bk >> 2) | ((HighBits(b4, k) as Byte) << 6)
  {
  }

  /** The 5 bytes that hold four 10-bit values in the layout the decoder
      reads: the low 8 bits of each value, then one byte of their bits 8
      and 9, two bits per value from the least significant end. */
  function PackGroup(px: seq<bv16>): (group: seq<Byte>)
    requires |px| == 4 && forall k :: 0 <= k < 4 ==> px[k] < 1024
    ensures |group| == 5
  {
    var top := (px[0] >> 8) | ((px[1] >> 8) << 2) | ((px[2] >> 8) << 4) | ((px[3] >> 8) << 6);
    [(px[0] & 0xFF) as Byte, (px[1] & 0xFF) as Byte, (px[2] & 0xFF) as Byte,
     (px[3] & 0xFF) as Byte, top as Byte]
  }

  /** The four pixels of the group starting at byte `base` of a row: pixel
      `k` keeps byte `k` as its low 8 bits and takes bits 8 and 9 from the
      shared fifth byte. */
  function UnpackGroup(row: seq<Byte>, base: nat): (px: seq<bv16>)
    requires base + 5 <= |row|
    ensures |px| == 4
    ensures forall k :: 0 <= k < 4 ==>
              px[k] < 1024 && px[k] & 0xFF == row[base + k] as bv16
              && px[k] >> 8 == HighBits(row[base + 4], k)
  {
    var px := [Pixel10(row[base], row[base + 4], 0), Pixel10(row[base + 1], row[base + 4], 1),
               Pixel10(row[base + 2], row[base + 4], 2), Pixel10(row[base + 3], row[base + 4], 3)];
    assert forall k :: 0 <= k < 4 ==> px[k] == Pixel10(row[base + k], row[base + 4], k);
    forall k | 0 <= k < 4
      ensures px[k] & 0xFF == row[base + k] as bv16 && px[k] >> 8 == HighBits(row[base + 4], k)
    {
      Pixel10Parts(row[base + k], row[base + 4], k);
    }
    px
  }

  /** Unpacking inverts packing: any four 10-bit values survive the trip. */
  lemma UnpackPackGroup(px: seq<bv16>)
    requires |px| == 4 && forall k :: 0 <= k < 4 ==> px[k] < 1024
    ensures UnpackGroup(PackGroup(px), 0) == px
  {
  }

  /** Packing inverts unpacking: every 5-byte group is the packing of the
      four pixels read from it, so no two groups decode alike. */
  lemma PackUnpackGroup(row: seq<Byte>, base: nat)
    requires base + 5 <= |row|
    ensures PackGroup(UnpackGroup(row, base)) == row[base .. base + 5]
  {
  }

  /** The first `n` groups of a row, unpacked in order. */
  function UnpackGroups(row: seq<Byte>, n: nat): (px: seq<bv16>)
    requires 5 * n <= |row|
    ensures |px| == 4 * n
    ensures forall i :: 0 <= i < |px| ==> px[i] < 1024
  {
    if n == 0 then [] else UnpackGroups(row, n - 1) + UnpackGroup(row, 5 * (n - 1))
  }

  /** Pixel `k` of group `g` of the unpacked groups comes from byte `k` and
      byte 4 of that group. */
  lemma {:induction false} UnpackGroupsPixel(row: seq<Byte>, n: nat, g: nat, k: nat)
    requires 5 * n <= |row| && g < n && k < 4
    ensures UnpackGroups(row, n)[4 * g + k] == Pixel10(row[5 * g + k], row[5 * g + 4], k)
  {
    if g < n - 1 {
      UnpackGroupsPixel(row, n - 1, g, k);
    }
  }

  /** One image row: the `width / 4` whole groups, then zeros for the
      `width % 4` pixels no whole group covers. */
  function UnpackRow(row: seq<Byte>, width: nat): (px: seq<bv16>)
    requires Formats.GroupBytes(width) <= |row|
    ensures |px| == width
    ensures forall c :: 0 <= c < width ==> px[c] < 1024
    ensures forall c :: 4 * (width / 4) <= c < width ==> px[c] == 0
  {
    UnpackGroups(row, width / 4) + seq(width % 4, _ => 0)
  }

  /** A 10-bit value reduced to its high 8 bits: the value divided by 4,
      which always fits a byte, so the cast to 8 bits loses nothing and only
      the two lowest bits are gone. */
  function To8Bit(v: bv16): (b: Byte)
    requires v < 1024
    ensures b as bv16 == v / 4
    ensures (b as bv16) * 4 + v % 4 == v
  {
    (v >> 2) as Byte
  }

  /** 10-bit values shifted down to 8 bits. */
  function Normalize(px: seq<bv16>): (out: seq<Byte>)
    requires forall i :: 0 <= i < |px| ==> px[i] < 1024
    ensures |out| == |px|
  {
    seq(|px|, i requires 0 <= i < |px| => To8Bit(px[i]))
  }

  /** The image of a frame whose rows, `stride` bytes apart, all hold their
      groups: row `i` is the buffer's row `i` unpacked and reduced to 8 bits. */
  function Raw10Image(data: seq<Byte>, width: nat, height: nat, stride: nat): (img: Matrix)
    requires height * stride <= |data| && (height > 0 ==> Formats.GroupBytes(width) <= stride)
    ensures IsGrid(img, height, width)
    ensures forall i, c :: 0 <= i < height && 4 * (width / 4) <= c < width ==> img[i][c] == 0
  {
    var packed := Rows(data, height, stride, stride);
    seq(height, i requires 0 <= i < height => Normalize(UnpackRow(packed[i], width)))
  }

  /** RAW10 frame decode. Stride 0 selects `width * 5 / 4`. A buffer shorter
      than `height * stride` is refused before any byte is read; a row too
      short for its groups fails on its first out-of-row group; otherwise the
      result is a `height` by `width` intensity image. */
  function DecodeRaw10(data: seq<Byte>, width: nat, height: nat, stride: nat)
    : (r: Result<Decoded, DecodeError>)
    ensures var es := Formats.StrideOr(stride, width * 5 / 4);
            r.Err? && r.error.SizeMismatch? <==> |data| < height * es
    ensures var es := Formats.StrideOr(stride, width * 5 / 4);
            r.Err? && r.error.SizeMismatch? ==> r.error == SizeMismatch(height * es, |data|)
    ensures var es := Formats.StrideOr(stride, width * 5 / 4);
            r.Err? && r.error.StrideTooSmall? <==>
              height * es <= |data| && height > 0 && es < Formats.GroupBytes(width)
    ensures r.Err? ==> r.error.SizeMismatch? || r.error.StrideTooSmall?
    ensures r.Ok? ==> r.value == Gray(Raw10Image(data, width, height,
                                                 Formats.StrideOr(stride, width * 5 / 4)))
  {
    var es := Formats.StrideOr(stride, width * 5 / 4);
    var expected := height * es;
    if |data| < expected then Err(SizeMismatch(expected, |data|))
    else if height > 0 && es < Formats.GroupBytes(width) then Err(StrideTooSmall(Formats.GroupBytes(width), es))
    else Ok(Gray(Raw10Image(data, width, height, es)))
  }

  /** Pixel `k` of group `g` of a decoded row: the 10-bit value of that
      group's byte `k` and byte 4, reduced to 8 bits. */
  lemma RowPixel(row: seq<Byte>, width: nat, g: nat, k: nat)
    requires Formats.GroupBytes(width) <= |row| && g < width / 4 && k < 4
    ensures Normalize(UnpackRow(row, width))[4 * g + k]
            == To8Bit(Pixel10(row[5 * g + k], row[5 * g + 4], k))
  {
    UnpackGroupsPixel(row, width / 4, g, k);
    assert UnpackRow(row, width)[4 * g + k] == UnpackGroups(row, width / 4)[4 * g + k];
  }

  /** Every pixel of a frame image that a whole group covers, read straight
      from the buffer: row `i` is the `stride` bytes at offset `i * stride`,
      and pixel `k` of group `g` is the 10-bit value made of byte `5 * g + k`
      of that row and two bits of byte `5 * g + 4`, shifted right by 2. */
  lemma Raw10Pixel(data: seq<Byte>, width: nat, height: nat, stride: nat, i: nat, g: nat, k: nat)
    requires height * stride <= |data| && Formats.GroupBytes(width) <= stride
    requires i < height && g < width / 4 && k < 4
    ensures i * stride + stride <= |data|
    ensures var row := data[i * stride .. i * stride + stride];
            5 * g + 4 < |row| &&
            Raw10Image(data, width, height, stride)[i][4 * g + k]
              == To8Bit(Pixel10(row[5 * g + k], row[5 * g + 4], k))
  {
    Raw10Row(data, width, height, stride, i);
    RowInside(i, height, stride);
    var row := data[i * stride .. i * stride + stride];
    RowPixel(row, width, g, k);
  }

  /** Row `i` of a decoded image is the unpacked and normalised row `i` of
      the buffer, the `stride` bytes at offset `i * stride`. */
  lemma Raw10Row(data: seq<Byte>, width: nat, height: nat, stride: nat, i: nat)
    requires height * stride <= |data| && (height > 0 ==> Formats.GroupBytes(width) <= stride)
    requires i < height
    ensures i * stride + stride <= |data|
    ensures Raw10Image(data, width, height, stride)[i]
            == Normalize(UnpackRow(data[i * stride .. i * stride + stride], width))
  {
    RowInside(i, height, stride);
  }

  /** Bytes after the first `height * stride` never change the decode. */
  lemma Raw10IgnoresBytesPastFrame(d1: seq<Byte>, d2: seq<Byte>, width: nat, height: nat, stride: nat)
    requires var es := Formats.StrideOr(stride, width * 5 / 4);
             height * es <= |d1| && height * es <= |d2| && d1[..height * es] == d2[..height * es]
    ensures DecodeRaw10(d1, width, height, stride) == DecodeRaw10(d2, width, height, stride)
  {
    var es := Formats.StrideOr(stride, width * 5 / 4);
    RowsReadOnlyFrame(d1, d2, height, es, es);
  }
}
