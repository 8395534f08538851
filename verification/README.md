# Camera data lake: raw image decoders and JSON auto-correction

This project is a Dafny model of two pure cores of the camera data lake tools.

**The image viewer's raw buffer decoders** (`camera_data_lake/TabImageViewer.py`).
Each decoder takes the bytes of an uploaded file plus a width, a height and a
stride, and does four things:

- picks an effective stride, where 0 means the format's default;
- refuses a buffer that is shorter than the format needs;
- cuts the buffer into rows and crops every row to the image width;
- for RAW10 only, unpacks 5-byte groups into four 10-bit pixels and reduces
  them to 8 bits. The YUV formats instead hand their cropped array to
  OpenCV's colour conversion.

Eight formats are registered under their names: RAW10, NV12, NV21, NV16,
NV61, I420, YUYV and YUV444. The viewer looks up the name the user picked
and runs that decoder. A name with no decoder is an error.

**`correct_json`** (`camera_data_lake/json_utils.py`). It turns hand-written
JSON into text the parser is more likely to accept, in this order:

1. tabs become four spaces;
2. single quotes become double quotes;
3. `/* ... */` comments are deleted;
4. commas before `}` and `]` are dropped;
5. bare object keys are quoted.

The text is then handed to the JSON parser. It is returned whether or not
the parser accepts it.

Modules:

- `Wrappers`: `Option` and `Result`.
- `Frames`: bytes, byte matrices, decode results and errors, and the shared
  row layout (`Rows`).
- `Formats`: the format datatype and its stride, size and row-count table.
- `RawDecode`: `decode_raw10`.
- `YuvDecode`: `decode_yuv` and its wrappers, `decode_yuv422_sp` and its
  wrappers, and `decode_yuv444`.
- `Registry`: `DECODING_FUNCTIONS` and the lookup and dispatch in `render`,
  with the properties shared by all formats.
- `JsonFix`: `correct_json` and its nested rewrites.

How the model treats what the code leaves to its libraries:

- **Errors.** The decoders print an error and return `None`. Here they
  return `Err` with a `DecodeError`. A Python or NumPy failure becomes an
  error too:
  - when the row ends before a group's fifth byte, the slice at line 25
    comes back short and unpacking it into `b0..b4` raises `ValueError`.
    The model returns `StrideTooSmall`;
  - a reshape that cannot be done is `ShapeMismatch`.
- **Colour conversion.** `cv2.cvtColor` is an opaque library call. A
  successful YUV decode is therefore the exact array handed to it, together
  with its conversion code.
- **Cropping.** NumPy slicing `[:, :width]` keeps at most the whole row. A
  row of a planar result therefore has `Min(width, stride)` bytes.
- **The 4:2:0 size.** The size is `int(stride * height * 3 / 2)`. It is
  modelled as the integer floor `stride * height * 3 / 2`. The reshape to
  `height * 3 // 2` rows cannot be done when the height is odd and the
  stride is 2 or more. The model returns `ShapeMismatch` in that case
  (`HalfRowsFit`, `DefaultStrideFits`).
- **The JSON rewrites.** The regular-expression rewrites are left-to-right
  scanners. Each one tries the pattern at every position. It replaces a
  match and resumes after it, or copies one character.
- **Whitespace and the look-behind.** `\s` is the set of code points that
  Python's `str.isspace` accepts. The key pattern's look-behind reads the
  text before the match in the original string.
- **The parser.** `json.loads` is a parameter, `parses`.

Only these eight formats exist in the code. In a RAW10 group, the bit
pairs of byte 4 become bits 8 and 9 of the four pixels (lines 27-30).

## Model

| member | source | states |
|---|---|---|
| Frames.Rows | camera_data_lake/TabImageViewer.py:55-57 | The reshape to `rows` rows of `stride` bytes, each cropped to `width`. Row `r` is the bytes from offset `r * stride` onward, `Min(width, stride)` of them, and all of them lie inside the buffer. |
| Frames.RowsReadOnlyFrame | camera_data_lake/TabImageViewer.py:46-48 | Two buffers that agree on their first `rows * stride` bytes give the same rows. |
| Frames.Pairs | camera_data_lake/TabImageViewer.py:48 | Reshaping a row of `2 * k` bytes to `(k, 2)` puts byte `2c + j` of the row at entry `[c][j]`. |
| Formats.EffectiveStride | camera_data_lake/TabImageViewer.py:7-94 | A positive stride is used as given. Stride 0 selects `width * 5 / 4` for RAW10 (line 7), `2 * width` for YUYV (line 41) and `width` for the planar formats (lines 37, 75 and 94). |
| Formats.ExpectedSize | camera_data_lake/TabImageViewer.py:9-95 | The size each decoder checks the buffer against (lines 9, 42, 51, 76 and 95) is at least the bytes of the array it reshapes to. It equals them exactly unless a 4:2:0 frame has an odd height and a stride of 2 or more. |
| Formats.FrameSizeCoversRows | camera_data_lake/TabImageViewer.py:9-99 | Per format, the computed size is at least rows times stride for the rows of the reshape (lines 18, 46, 55, 82 and 99). The two are equal exactly outside the odd-height 4:2:0 case. |
| Formats.HalfRowsFit | camera_data_lake/TabImageViewer.py:51-55 | `(height * 3 / 2) * stride` is at most `stride * height * 3 / 2`. The two are equal exactly when the height is even or the stride is below 2. |
| Formats.Name | camera_data_lake/TabImageViewer.py:107-114 | Each of the eight dictionary keys names exactly one format, and every format has one of them. |
| Formats.DefaultRaw10StrideHoldsGroups | camera_data_lake/TabImageViewer.py:6-7 | The default RAW10 stride `width * 5 / 4` holds the `5 * (width / 4)` bytes of a row's groups. |
| RawDecode.HighBits | camera_data_lake/TabImageViewer.py:27-30 | The two bits a pixel takes from the shared fifth byte are less than 4. |
| RawDecode.Pixel10 | camera_data_lake/TabImageViewer.py:27-30 | Each of the four mask/shift pairs (0x03/8, 0x0C/6, 0x30/4, 0xC0/2) puts bits `2k` and `2k + 1` of byte 4 into bits 8 and 9 above byte `k`. The value is below 1024. |
| RawDecode.Pixel10Parts | camera_data_lake/TabImageViewer.py:27-30 | A pixel splits back into its own byte, as the low 8 bits, and the two bits from byte 4, as bits 8 and 9. |
| RawDecode.Pixel10AsWritten | camera_data_lake/TabImageViewer.py:27-30 | The four lines evaluated on 8-bit NumPy scalars. The value is the intended 10-bit pixel cut to its low 8 bits. |
| RawDecode.AsWrittenDropsHighBits | camera_data_lake/TabImageViewer.py:25-30 | Evaluated on 8-bit scalars, the pixel is byte `k` itself whatever byte 4 holds. That is the intended 10-bit value with bits 8 and 9 cut off. |
| RawDecode.AsWrittenLosesHighBits | camera_data_lake/TabImageViewer.py:25-33 | For the group `00 01 02 03 FF` the intended pixels are 0x300 and 0x303 and normalise to 0xC0. The 8-bit evaluation normalises them to 0x00. |
| RawDecode.NormalizedPixel | camera_data_lake/TabImageViewer.py:27-33 | The 8-bit output of a pixel is bits 2..7 of its own byte below the two bits it takes from byte 4. |
| RawDecode.UnpackGroup | camera_data_lake/TabImageViewer.py:24-30 | The group at `base` gives four pixels below 1024. Pixel `k` has byte `base + k` as its low 8 bits and its two bits from byte `base + 4` as bits 8 and 9. |
| RawDecode.PackGroup | camera_data_lake/TabImageViewer.py:23-30 | Four 10-bit values pack into exactly 5 bytes, in the layout the decoder reads. |
| RawDecode.UnpackPackGroup | camera_data_lake/TabImageViewer.py:23-30 | Unpacking a packed group gives back any four values below 1024. |
| RawDecode.PackUnpackGroup | camera_data_lake/TabImageViewer.py:23-30 | Packing the four pixels read from a group gives back its 5 bytes. No two groups decode alike. |
| RawDecode.UnpackGroups | camera_data_lake/TabImageViewer.py:23-30 | `n` groups unpack to `4n` values, each below 1024. |
| RawDecode.UnpackGroupsPixel | camera_data_lake/TabImageViewer.py:23-30 | Value `4g + k` comes from byte `5g + k` and byte `5g + 4` of the row. |
| RawDecode.UnpackRow | camera_data_lake/TabImageViewer.py:19-30 | A row has `width` values, each below 1024. The `width % 4` trailing pixels that no whole group covers stay 0. |
| RawDecode.To8Bit | camera_data_lake/TabImageViewer.py:33 | `>> 2` is division by 4. A 10-bit value then fits a byte, so the cast to `uint8` loses nothing. Times 4, plus the two dropped low bits, the output gives back the input. |
| RawDecode.Normalize | camera_data_lake/TabImageViewer.py:33 | Reducing to 8 bits keeps the number of pixels. |
| RawDecode.Raw10Image | camera_data_lake/TabImageViewer.py:18-33 | The image is `height` by `width`, and the pixels past the last whole group are 0 in every row. |
| RawDecode.DecodeRaw10 | camera_data_lake/TabImageViewer.py:5-34 | Stride 0 selects `width * 5 / 4`. A buffer shorter than `height * stride` is refused with that size and the buffer's length, and no byte is read. A non-empty image whose rows cannot hold their groups fails. Otherwise the result is the intensity image. |
| RawDecode.RowPixel | camera_data_lake/TabImageViewer.py:23-33 | Output pixel `4g + k` of a row is the 10-bit value of byte `5g + k` and byte `5g + 4`, shifted right by 2. |
| RawDecode.Raw10Row | camera_data_lake/TabImageViewer.py:18-22 | Image row `i` is the buffer's `stride` bytes at offset `i * stride`, unpacked and normalised. Those bytes lie inside the buffer. |
| RawDecode.Raw10Pixel | camera_data_lake/TabImageViewer.py:18-33 | Every pixel a whole group covers is read straight from the buffer. It is built from bytes `i * stride + 5g + k` and `i * stride + 5g + 4`, and both are in bounds. |
| RawDecode.Raw10IgnoresBytesPastFrame | camera_data_lake/TabImageViewer.py:9-18 | Bytes after the first `height * stride` never change the decode. |
| YuvDecode.YuyvSamples | camera_data_lake/TabImageViewer.py:46-48 | The packed array has shape `(height, width, 2)`. |
| YuvDecode.YuyvSample | camera_data_lake/TabImageViewer.py:46-48 | Sample `j` of pixel `c` in row `r` is byte `2c + j` of the `stride` bytes at offset `r * stride`. |
| YuvDecode.PackedFrame | camera_data_lake/TabImageViewer.py:42-48 | A buffer shorter than `height * stride` is refused with both sizes. A non-empty image whose rows hold fewer than `2 * width` bytes cannot be reshaped to `(height, width, 2)`. Otherwise the result is the sample array. |
| YuvDecode.PlanarFrame | camera_data_lake/TabImageViewer.py:51-58 | A short buffer is refused with both sizes. A size that is not `rows * stride` is a reshape error. Otherwise the result is a `rows` by `Min(width, stride)` array with the given conversion code. |
| YuvDecode.PlanarEntry | camera_data_lake/TabImageViewer.py:55-57 | Entry `[r][c]` of a planar result is byte `r * stride + c` of the buffer, for `c` below the width and the stride. |
| YuvDecode.PlanarIgnoresBytesPastFrame | camera_data_lake/TabImageViewer.py:51-55 | Bytes after the first `size` never change a planar decode. |
| YuvDecode.DecodeYuv | camera_data_lake/TabImageViewer.py:36-59 | For YUY2, stride 0 selects `2 * width`. A buffer shorter than `height * stride` is refused. Rows narrower than `2 * width` fail the reshape. Otherwise the result is the packed array. For the other codes, stride 0 selects `width`. A buffer shorter than `stride * height * 3 / 2` is refused. An odd height with a stride of 2 or more fails the reshape. Otherwise the result is the `height * 3 / 2`-row planar array. |
| YuvDecode.DecodeYuvIgnoresBytesPastFrame | camera_data_lake/TabImageViewer.py:42-55 | Bytes after the size the path needs never change the result. |
| YuvDecode.DecodeNv12 | camera_data_lake/TabImageViewer.py:61-62 | The 4:2:0 path. A success carries the NV12 code. |
| YuvDecode.DecodeNv21 | camera_data_lake/TabImageViewer.py:64-65 | The 4:2:0 path. A success carries the NV21 code. |
| YuvDecode.DecodeI420 | camera_data_lake/TabImageViewer.py:67-68 | The 4:2:0 path. A success carries the I420 code. |
| YuvDecode.DecodeYuyv | camera_data_lake/TabImageViewer.py:70-72 | The packed path with the YUY2 code. A success has `height` rows. |
| YuvDecode.DecodeYuv422Sp | camera_data_lake/TabImageViewer.py:74-85 | Stride 0 selects `width`. The decode fails exactly when the buffer is shorter than `stride * height * 2`, reporting both sizes. Otherwise the result is the `2 * height`-row planar array. |
| YuvDecode.DecodeNv16 | camera_data_lake/TabImageViewer.py:87-88 | The 4:2:2 path. A success carries the NV16 code. |
| YuvDecode.DecodeNv61 | camera_data_lake/TabImageViewer.py:90-91 | The 4:2:2 path. A success carries the NV61 code. |
| YuvDecode.DecodeYuv444 | camera_data_lake/TabImageViewer.py:93-103 | Stride 0 selects `width`. The decode fails exactly when the buffer is shorter than `stride * height * 3`, reporting both sizes. Otherwise the result is the `3 * height`-row planar array with the I444 code. |
| Registry.AllRegistered | camera_data_lake/TabImageViewer.py:106-115 | Every format has an entry in the table. |
| Registry.NameInjective | camera_data_lake/TabImageViewer.py:106-115 | Two formats have the same name exactly when they are the same format. |
| Registry.Find | camera_data_lake/TabImageViewer.py:138 | A hit is an entry listed under that name. A miss happens exactly when no entry has the name. |
| Registry.Lookup | camera_data_lake/TabImageViewer.py:106-115 | `DECODING_FUNCTIONS.get(name)` (line 138) finds a format with that name, and misses exactly when no format has it. The table is closed. |
| Registry.LookupName | camera_data_lake/TabImageViewer.py:106-115 | Looking up a format's own name finds that format. |
| Registry.Decode | camera_data_lake/TabImageViewer.py:106-115 | A registered decoder never reports a missing decoder. |
| Registry.Render | camera_data_lake/TabImageViewer.py:138-146 | The "no decoder" error happens exactly when no format has the picked name, and it carries that name. |
| Registry.RenderFormat | camera_data_lake/TabImageViewer.py:138-142 | Picking a format by its name runs that format's decoder on the same arguments. |
| Registry.SizeCheck | camera_data_lake/TabImageViewer.py:5-103 | Every decoder refuses exactly the buffers shorter than the format's expected size, and reports that size and the buffer's length. |
| Registry.DecodeSucceeds | camera_data_lake/TabImageViewer.py:5-103 | A decode succeeds exactly when the buffer is long enough and the geometry fits the format's layout. |
| Registry.DefaultStrideFits | camera_data_lake/TabImageViewer.py:5-103 | With stride 0 every layout fits except a 4:2:0 image of odd height and width at least 2. |
| Registry.DecodeIgnoresBytesPastFrame | camera_data_lake/TabImageViewer.py:5-103 | Two buffers that agree on the format's expected size decode alike. |
| Registry.DecodeShape | camera_data_lake/TabImageViewer.py:5-103 | A successful decode has `height`, `height * 3 / 2`, `2 * height` or `3 * height` rows, as the format prescribes. |
| Registry.Yuv420SameLayout | camera_data_lake/TabImageViewer.py:61-68 | NV12, NV21 and I420 fail alike or produce the same array, differing only in the conversion code. |
| Registry.Yuv422SameLayout | camera_data_lake/TabImageViewer.py:87-91 | NV16 and NV61 fail alike or produce the same array, differing only in the conversion code. |
| JsonFix.ReplaceChar | camera_data_lake/json_utils.py:41-44 | Text without the character is unchanged. If the replacement does not contain the character, none is left. |
| JsonFix.ReplaceCharLength | camera_data_lake/json_utils.py:41 | Each replaced character grows the text by the replacement's length minus one. |
| JsonFix.ReplaceCharKeeps | camera_data_lake/json_utils.py:41 | A character that is neither the replaced one nor in the replacement occurs as often as before. |
| JsonFix.ReplaceCharAppend | camera_data_lake/json_utils.py:41-44 | The replacement of a concatenation is the concatenation of the replacements. |
| JsonFix.ReplaceCharPointwise | camera_data_lake/json_utils.py:44 | A one-character replacement keeps every position. It changes exactly the positions that held the replaced character. |
| JsonFix.TabsToSpaces | camera_data_lake/json_utils.py:41 | No tab remains. The text grows by 3 per tab. Every character other than tab and space occurs as often as before. |
| JsonFix.QuotesToDouble | camera_data_lake/json_utils.py:44 | No single quote remains and the length is kept. Position `i` holds `"` where the input held `'`, and the input character elsewhere. |
| JsonFix.FindCloser | camera_data_lake/json_utils.py:50 | The lazy `.*?` ends at the first `*/` at or after the position. There is no such `*/` exactly when the search fails. |
| JsonFix.StripComments | camera_data_lake/json_utils.py:49-51 | Comment removal never lengthens the text or adds a character. |
| JsonFix.StripPrefix | camera_data_lake/json_utils.py:49-51 | Text in which no comment starts is copied, and the rest is processed on its own. |
| JsonFix.StripNoOpener | camera_data_lake/json_utils.py:49-51 | Text with no `/*` is unchanged. |
| JsonFix.StripComment | camera_data_lake/json_utils.py:49-51 | A comment is deleted through the first `*/` after its `/*`, across lines, and no further. |
| JsonFix.StripNoCloser | camera_data_lake/json_utils.py:49-51 | Text with no `*/` is unchanged, openers included. |
| JsonFix.StripUnclosed | camera_data_lake/json_utils.py:49-51 | An unterminated comment is kept. |
| JsonFix.SpaceEnd | camera_data_lake/json_utils.py:56-58 | `\s*` takes the whole run of whitespace from the position, and stops at a non-space or at the end. |
| JsonFix.DropTrailingCommas | camera_data_lake/json_utils.py:56-58 | Dropping commas never lengthens the text or adds a character. |
| JsonFix.DropPrefix | camera_data_lake/json_utils.py:56-58 | Text without a comma is copied, and the rest is processed on its own. |
| JsonFix.DropNoComma | camera_data_lake/json_utils.py:56-58 | Text without a comma is unchanged. |
| JsonFix.DropComma | camera_data_lake/json_utils.py:56-58 | A comma, any whitespace and the closing bracket become the bracket alone. |
| JsonFix.DropKeptComma | camera_data_lake/json_utils.py:56-58 | A comma that is not followed by whitespace and then the bracket is kept, and the scan goes on after it. |
| JsonFix.DropNoTrailing | camera_data_lake/json_utils.py:56-58 | Text in which no comma is followed by whitespace and then the bracket, such as `[1,2]`, comes back unchanged. Together with `DropComma` and `DropPrefix`, this fixes which commas go and which stay. |
| JsonFix.Solid | camera_data_lake/json_utils.py:56-58 | The text's non-comma, non-space characters, in order. |
| JsonFix.DropKeepsSolid | camera_data_lake/json_utils.py:56-58 | Dropping trailing commas removes only commas and whitespace. Every other character survives in order. |
| JsonFix.RunEnd | camera_data_lake/json_utils.py:66 | `[^\s"'{},\[\]:]+` takes the whole run of key characters from the position. |
| JsonFix.KeyAtIsLongest | camera_data_lake/json_utils.py:65-67 | A match takes the longest key run and all the whitespace after it. Backtracking finds no other match. |
| JsonFix.KeyMatch | camera_data_lake/json_utils.py:65-67 | A reported match satisfies the pattern: the look-behind holds, then a non-empty key, optional whitespace and a colon. Any match the pattern admits at the position is the one reported. |
| JsonFix.NoKeyAt | camera_data_lake/json_utils.py:66 | A position whose character cannot start a key does not match. |
| JsonFix.NoKeyBefore | camera_data_lake/json_utils.py:65-68 | Before a double quote with no colon in between, nothing matches and the scan copies the character. |
| JsonFix.QuoteStep | camera_data_lake/json_utils.py:68 | One scan step advances past the position and adds only double quotes and colons. |
| JsonFix.QuoteKeysFrom | camera_data_lake/json_utils.py:62-69 | The key-quoting pass adds only double quotes and colons. |
| JsonFix.CopyStep | camera_data_lake/json_utils.py:68 | Where the pattern does not match, the character is copied. |
| JsonFix.QuoteKeys | camera_data_lake/json_utils.py:62-69 | Key quoting as written adds only double quotes and colons. |
| JsonFix.QuoteBareKey | camera_data_lake/json_utils.py:62-69 | A bare key becomes `"key":`, and the whitespace before its colon is dropped. |
| JsonFix.CopyRun | camera_data_lake/json_utils.py:68 | A stretch where nothing matches is copied as it is. |
| JsonFix.QuoteNoColon | camera_data_lake/json_utils.py:62-69 | Text without a colon is unchanged. |
| JsonFix.QuoteInsideLiteral | camera_data_lake/json_utils.py:62-69 | A literal body with no colon is copied up to its closing quote. |
| JsonFix.QuotedKeyKept | camera_data_lake/json_utils.py:62-69 | A key already written as `"k":` is unchanged when `k` holds no colon. |
| JsonFix.ColonInsideString | camera_data_lake/json_utils.py:62-69 | As written, the string value `"ab:"` becomes `"a"b":"`. |
| JsonFix.OpenLiteral | camera_data_lake/json_utils.py:65-68 | Neither a double quote nor the character after it starts a match, so the scan copies both. |
| JsonFix.KeyInLiteral | camera_data_lake/json_utils.py:65-68 | A key character that follows neither a backslash nor a double quote, and is followed by a colon, is quoted as a key, also inside a string literal. |
| JsonFix.LiteralEnd | camera_data_lake/json_utils.py:64 | A literal ends after its first unescaped double quote, or at the end of the text. |
| JsonFix.LiteralEndPlain | camera_data_lake/json_utils.py:64 | A literal body with no quote or backslash ends just after the next double quote. |
| JsonFix.QuoteKeysOutsideFrom | camera_data_lake/json_utils.py:62-69 | The corrected pass adds only double quotes and colons. |
| JsonFix.QuoteKeysOutside | camera_data_lake/json_utils.py:62-69 | Key quoting as its comment describes it adds only double quotes and colons. |
| JsonFix.LiteralKept | camera_data_lake/json_utils.py:63-64 | A string literal without quotes or backslashes inside is copied unchanged, colons included. |
| JsonFix.QuoteBareKeyOutside | camera_data_lake/json_utils.py:63-68 | Outside literals, a bare key is still quoted and the whitespace before its colon dropped. |
| JsonFix.OutsideAgrees | camera_data_lake/json_utils.py:62-69 | On text without double quotes, the corrected pass and the pass as written give the same text. |
| JsonFix.NoColonNoMatch | camera_data_lake/json_utils.py:67 | Where no colon follows, the pattern does not match. |
| JsonFix.OutsideCopyStep | camera_data_lake/json_utils.py:68 | Outside a literal, where the pattern does not match, the corrected pass copies the character. |
| JsonFix.OutsideNoColon | camera_data_lake/json_utils.py:62-69 | With the corrected pass, text without a colon is unchanged. |
| JsonFix.ColonInsideStringKept | camera_data_lake/json_utils.py:63-64 | The corrected pass leaves the value `"ab:"` unchanged. |
| JsonFix.Preprocess | camera_data_lake/json_utils.py:47-59 | Comment and comma removal never lengthens the text or adds a character. |
| JsonFix.Correct | camera_data_lake/json_utils.py:41-74 | The intended pipeline, which quotes keys outside string literals only, leaves no tab and no single quote. |
| JsonFix.CorrectAsWritten | camera_data_lake/json_utils.py:41-74 | The pipeline as written also leaves no tab and no single quote. |
| JsonFix.CorrectAgrees | camera_data_lake/json_utils.py:41-74 | On input without quotes, the corrected pipeline and the pipeline as written give the same text. |
| JsonFix.CorrectJson | camera_data_lake/json_utils.py:34-90 | The returned text is the output of the rewrites as written, whether or not the parser accepts it. The parse flag is the parser's verdict on that text. The text holds no tab and no single quote. On input without quotes it equals the intended `Correct` text. |
| JsonFix.CorrectPlainText | camera_data_lake/json_utils.py:41-74 | Text with no tab, single quote, comma, colon or comment opener comes back unchanged, from the pipeline as written and from the intended one. |

## Left out

- The Streamlit interface is not modelled: widgets, the uploader, the spinner, `st.error`, `st.success` and the displayed image. The error messages become `DecodeError` values. The `render` method is modelled from the lookup onward (lines 138-146). The widgets before it only supply the name, the buffer and the numbers.
- `cv2.cvtColor` is an opaque library call. The YUV decoders return the array handed to it and the conversion code instead of the RGB image.
- The model assumes that every conversion code the decoders name exists in the installed OpenCV. `cv2.COLOR_YUV2RGB_NV16`, `_NV61` and `_I444` (lines 88, 91 and 102) are evaluated as arguments before the size check. If a build lacks them, those decoders raise `AttributeError` on every call, and the model does not show that.
- `json.loads` is a parameter of `CorrectJson`. Exceptions other than `JSONDecodeError` are not modelled.
- Width, height and stride are natural numbers. The form's minimum values are 1, 1 and 0.
- `DecodeYuv`: the 4:2:0 size at line 51 is `int(stride * height * 3 / 2)`, a float division truncated to an integer. The model uses the exact integer floor. The two agree while the size is below 2^52 bytes. From 2^52 bytes on, `m + 0.5` is not a float, and rounding half to even can turn it into `m + 1`. The code then asks for one byte more than the model, and refuses a buffer of exactly `m` bytes that the model accepts.
- `IsSpace`: `\s` is modelled by Python's whitespace code points. A `bytes` pattern would use a smaller set.
- The single-quote, comment and trailing-comma rewrites act inside string literals in both pipelines, as the code does. The intended pipeline `Correct` differs from the code only in its key-quoting step.
- The other tabs and helpers of the repository are not part of this model: file and folder I/O, chat clients, vector stores, Excel access and diagram rendering.

## Findings

| source | as written | input that shows it | evidently intended | confidence | as-written member | corrected member |
|---|---|---|---|---|---|---|
| camera_data_lake/TabImageViewer.py:27-30 | `b0..b4` come from a `uint8` array. Under NumPy 2 (NEP 50 promotion), `(b4 & 0x03) << 8` and the other shifts are done on 8-bit scalars. Bits 8 and 9 are shifted out, and every pixel is just its own byte. | The RAW10 group `00 01 02 03 FF` at width 4. It yields `00 00 00 00` instead of `C0 C0 C0 C0`. | The 10-bit value `bk \| (((b4 >> 2k) & 3) << 8)`, as the "10-bit (0-1023)" comment at line 32 says. | medium, not executed (NumPy 2 only: NumPy 1.x promotes these scalar operations to `int64` and decodes correctly) | RawDecode.AsWrittenLosesHighBits | RawDecode.Pixel10 |
| camera_data_lake/json_utils.py:62-69 | The key pattern's look-behind checks only the character just before the match. Inside a string value, a run of key characters that does not start right after the opening quote, followed by a colon, is taken for a key. | The value `"ab:"` becomes `"a"b":"`. Likewise `"http://x"` becomes `"h"ttp"://x"`, which is no longer valid JSON. | String literals are left as they are, as the comment at line 64 says. | high, not executed | JsonFix.ColonInsideString | JsonFix.QuoteKeysOutside |

For the first row, `Pixel10AsWritten` models the 8-bit evaluation. `AsWrittenDropsHighBits` proves that it always returns byte `k` unchanged. The decoder itself uses `Pixel10`, which is also what the code computes under NumPy 1.x. `UnpackPackGroup` and `PackUnpackGroup` prove that `Pixel10` makes group unpacking a bijection, and `NormalizedPixel` gives its 8-bit output.

For the second row, `QuoteKeys` and `CorrectAsWritten` model the code as written, and `CorrectJson` returns their text. The intended pipeline `Correct` uses `QuoteKeysOutside` instead. That pass copies each string literal through its closing quote and otherwise scans as written. These lemmas relate the two passes:

- `LiteralKept` and `ColonInsideStringKept` show that the corrected pass leaves literals alone.
- `QuoteBareKeyOutside` shows that it still quotes bare keys.
- `OutsideAgrees` and `CorrectAgrees` show that it agrees with the code on text without double quotes.
