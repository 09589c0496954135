# Windows bitmap display example (gcmm `bitmap.c`), modelled in Dafny

`source/bitmap.c` is a libogc example. It takes a Windows bitmap file that is
already in memory and draws it on the next of two framebuffers of a
big-endian console. `ShowBMP` checks the file's header. If the header is
accepted, it converts the picture two pixels at a time into packed
Y1·Cb·Y2·Cr words with `CvtRGB`. It then copies those words, bottom file row
first, into the area it computes as centred, which comes out one row low (see
"Findings"), and returns 1. A rejected
header makes it return 0.

The model has five modules, one file each:

- `ByteOrder` (`byte_order.dfy`) models `FLIP32` and `FLIP16` on `bv32`/`bv16`,
  together with two ways of reading a field of the file. One is what the
  big-endian host reads through a pointer (`HostLoad32`/`HostLoad16`). The
  other is the little-endian decode that the bitmap format means
  (`LoadLE32`/`LoadLE16`).
- `Colour` (`colour.dfy`) models `CvtRGB`. The conversion is full-range YCbCr
  with the BT.601 luma weights and the chroma offset of 128 of JFIF (ITU-T T.871),
  done in scaled integer arithmetic. C's truncating `/` is written
  out as `CDiv`, and `>> 1` on the non-negative chroma sums as `Halve`. Packed words are
  unsigned 32-bit integers (`Word`). `Pack` is the `<<`/`|` packing, written
  as a positional sum because the four byte fields do not overlap.
- `BmpHeader` (`bmp_header.dfy`) models the packed `WINBITMAP` layout: its
  field offsets and the decoding and encoding of the 34 header bytes.
  `CheckHeader` makes the five early-return checks in the source's order on
  the raw bytes, using FLIP of the host's reads.
- `Layout` (`layout.dfy`) models the picture's geometry. The width is rounded
  up to an even number, and the left and top margins centre the picture.
  The `u32` offset computation is modelled as written, and so is the row map.
- `ShowBitmap` (`show_bmp.dfy`) models the copy loop (`Blit`) and `ShowBMP`
  itself, in two versions. `ShowBmpAsWritten` uses the row offsets as the
  source computes them. File row r then lands one row below the centred
  area, and a picture as tall as the framebuffer writes past its end (see
  "Findings"). `ShowBmp` uses the corrected offsets and puts the picture
  exactly on the centred area. The two framebuffers and the `whichfb`
  toggle are a `Display` value that is passed in and returned. The video
  mode contributes only `xfbHeight`. `Blit` is the outer row loop and
  `CopyRow` one pass of its inner loop. `Blit` takes the pair conversion as
  a parameter, and both versions of ShowBMP pass `CvtRgb`. `DrawAsWritten`
  is the part of `ShowBmpAsWritten` after the checks, stated for the width,
  height and pixel data that `ReadPicture` reads from the header.

Each statement in the table below is a contract the verifier proves.

## Model

| member | source | states |
|---|---|---|
| ByteOrder.Flip32 | source/bitmap.c:31-40 | byte i of the result is byte 3−i of the argument, for each of the four bytes |
| ByteOrder.Flip32Involution | source/bitmap.c:31-40 | FLIP32 applied twice gives the argument back |
| ByteOrder.Flip16 | source/bitmap.c:42-44 | the two bytes of the argument change places |
| ByteOrder.Flip16Involution | source/bitmap.c:42-44 | FLIP16 applied twice gives the argument back |
| ByteOrder.HostLoad16 | source/bitmap.c:108-116 | a `u16` field read through the struct pointer on the big-endian host has the field's first byte as its high byte |
| ByteOrder.HostLoad32 | source/bitmap.c:112-120 | a `u32` field read through the struct pointer on the big-endian host has the field's first byte as its most significant byte |
| ByteOrder.LoadLE32 | source/bitmap.c:73-84 | the little-endian field value has the byte at offset o+i as its byte i |
| ByteOrder.LoadLE16 | source/bitmap.c:73-84 | the little-endian value of a `u16` field has the byte at offset o as its low byte and the one at o+1 as its high byte |
| ByteOrder.FlipHostLoad32 | source/bitmap.c:112-120 | FLIP32 of the host's read of a `u32` field equals the little-endian decode of its four bytes |
| ByteOrder.FlipHostLoad16 | source/bitmap.c:108-116 | FLIP16 of the host's read of a `u16` field equals the little-endian decode of its two bytes |
| Colour.CDiv | source/bitmap.c:54-60 | C's division truncates toward zero: for a non-negative numerator the quotient is the floor, and for a negative one the ceiling |
| Colour.LumaNumerator | source/bitmap.c:54-58 | the luma weights sum to 1000: the numerator lies in 0..255000, and for a grey pixel it is 1000 times the level |
| Colour.BlueNumerator | source/bitmap.c:55-59 | the Cb numerator is at least 50000 for every RGB input, so it is never negative, and it is at most 25550000 |
| Colour.RedNumerator | source/bitmap.c:56-60 | the Cr numerator is at least 50000 for every RGB input, so it is never negative, and it is at most 25550000 |
| Colour.Luma | source/bitmap.c:54-58 | y1 and y2 lie in 0..255, and a grey pixel (r=g=b=v) has luma v |
| Colour.Cb | source/bitmap.c:55-59 | cb1 and cb2 lie in 0..255, and a grey pixel has Cb 128 |
| Colour.Cr | source/bitmap.c:56-60 | cr1 and cr2 lie in 0..255, and a grey pixel has Cr 128 |
| Colour.Halve | source/bitmap.c:62-63 | `>> 1` on the non-negative sums cb1+cb2 and cr1+cr2 is division by 2 rounding down |
| Colour.Average | source/bitmap.c:62-63 | the averaged cb and cr lie between the two samples, so they are in 0..255, and they equal the samples when the samples agree |
| Colour.ToYCbCr | source/bitmap.c:54-60 | each pixel's three components fit in one byte, and grey v maps to (v, 128, 128) |
| Colour.Pack | source/bitmap.c:65 | the four shifted fields do not overlap: unpacking the word gives y1, cb, y2, cr back from its bytes, high to low |
| Colour.PackUnpack | source/bitmap.c:65 | every 32-bit word is the packing of its own four bytes |
| Colour.PackPair | source/bitmap.c:62-65 | the packed pair holds the two lumas and the averaged chroma |
| Colour.CvtRgb | source/bitmap.c:51-66 | the bytes of the result, high to low, are y1, the mean of cb1 and cb2, y2, and the mean of cr1 and cr2 |
| Colour.GreyPair | source/bitmap.c:54-63 | a grey pair (v1, v2) converts to the bytes v1, 128, v2, 128 |
| Colour.EqualPair | source/bitmap.c:62-63 | two identical pixels give cb = cb1 and cr = cr1 |
| BmpHeader.DecodeHeader | source/bitmap.c:73-84 | each of the 34 header bytes is the byte at the same place in the packed struct of the decoded fields (fields at offsets 0, 2, 6, 10, 14, 18, 22, 26, 28, 30, little-endian) |
| BmpHeader.DecodeLaidOut | source/bitmap.c:73-84 | bytes that lay out a struct's fields at the packed offsets decode to that struct |
| BmpHeader.DecodeEncode | source/bitmap.c:73-84 | decoding an encoded header gives back every field |
| BmpHeader.EncodeDecode | source/bitmap.c:73-84 | encoding a decoded header gives back the file's first 34 bytes |
| BmpHeader.HasMagic | source/bitmap.c:104 | the `memcmp` test passes exactly when the file's first two bytes are the character codes of "BM" |
| BmpHeader.MagicIsLittleEndianBM | source/bitmap.c:103-105 | the file starts with "BM" exactly when its little-endian magic field is 0x4D42 |
| BmpHeader.CheckHeader | source/bitmap.c:103-124 | a header is accepted exactly when it has magic "BM", 1 plane, compression 0 and 24 bits per pixel, and width ≤ 640 and height ≤ xfbHeight (fields decoded little-endian); a rejection names a check that fails, and every earlier check passes |
| BmpHeader.CheckEncoded | source/bitmap.c:103-124 | a file starting with an encoded struct is accepted exactly when the struct's fields are acceptable |
| Layout.FbWidth | source/bitmap.c:129-131 | fbwidth is even and width ≤ fbwidth ≤ width+1, which makes it the smallest even number ≥ width; it stays ≤ 640 |
| Layout.LeftMargin | source/bitmap.c:137-138 | the left margin plus the fbwidth/2 words written fit in a 320-word row, and the right margin is the left one or one word more |
| Layout.TopMargin | source/bitmap.c:140-141 | the subtraction xfbHeight − height does not underflow after the size check; the top margin plus the height fit in the framebuffer, and the bottom margin is the top one or one row more |
| Layout.AsWrittenRow | source/bitmap.c:140-154 | the source's row for file row r (fboffset starts top+height rows down and goes up one row per file row) is one row below the row it belongs in |
| Layout.AsWrittenStart | source/bitmap.c:137-142 | the `u32` fboffset computation fits in 32 bits, and once width ≤ 640 and height ≤ xfbHeight ≤ 0xFFFF no step wraps: fboffset is the left margin plus 320 words times the row of file row 0 |
| Layout.AsWrittenRowsInside | source/bitmap.c:140-154 | with the source's row map, file row r goes to framebuffer row top+height−r; every such row is inside the framebuffer exactly when height < xfbHeight |
| Layout.AsWrittenFirstRowPastEnd | source/bitmap.c:140-142 | with the source's row map, file row 0 goes at most to row xfbHeight, and to row xfbHeight (one past the last row) exactly when height == xfbHeight |
| Layout.AsWrittenSkipsTopRow | source/bitmap.c:140-154 | with the source's row map, the rows written are top+1 … top+height, so row `top` is never written |
| Layout.FullHeightPictureOverruns | source/bitmap.c:137-149 | a 640×480 picture on a 480-row framebuffer starts writing at word 320·480, which is one past the end of the buffer |
| Layout.IntendedRowsInside | source/bitmap.c:140-154 | the corrected row map sends file rows one-to-one, bottom row first, onto rows top … top+height−1, all inside the framebuffer |
| ShowBitmap.RowStartMonotone | source/bitmap.c:147-156 | later file rows start later in the pixel data |
| ShowBitmap.RowStartIsProduct | source/bitmap.c:147-156 | file row r starts after exactly r·3·fbwidth bytes, with no row padding |
| ShowBitmap.PairOffset | source/bitmap.c:149-151 | the six bytes of word c of file row r lie inside that row, and so inside the pixel data |
| ShowBitmap.Blit | source/bitmap.c:147-156 | the copy writes every word of the region with its pixel pair and leaves every other word unchanged; it consumes exactly height·3·fbwidth bytes |
| ShowBitmap.CopyRow | source/bitmap.c:148-154 | one pass of the inner loop writes exactly the words of file row `rows`, each with its pixel pair, on top of the rows already written, and moves on by 3·fbwidth bytes to the next file row |
| ShowBitmap.WrittenStep | source/bitmap.c:149-150 | the store at `fboffset + cols` hits row firstRow−rows, column left+cols, and adds exactly that one word to the words written so far |
| ShowBitmap.BlitPlacement | source/bitmap.c:148-151 | word c of file row r lands at framebuffer row firstRow−r, word left+c, and is the conversion of pixels 2c and 2c+1, each stored B,G,R |
| ShowBitmap.ReadPicture | source/bitmap.c:119-127 | after the checks, FLIP32 of the host's reads gives the little-endian width, height and pixel-data offset of the header |
| ShowBitmap.BlitAsWritten | source/bitmap.c:147-156 | the copy on a framebuffer of xfbHeight rows whose region may start on row xfbHeight: every word inside the framebuffer is painted or left alone as the copy does; words past the end are written exactly when the region is not empty and starts on row xfbHeight |
| ShowBitmap.DropFirstRowAgrees | source/bitmap.c:147-154 | the rows after file row 0, read from the bytes after row 0 and placed one framebuffer row higher, write the same words with the same pixel pairs |
| ShowBitmap.AsWrittenRegion | source/bitmap.c:137-142 | the region the source fills is the centred region moved one row down |
| ShowBitmap.DrawAsWritten | source/bitmap.c:128-156 | after the checks: whichfb toggles once, the other framebuffer is unchanged, the selected one is painted with the region the source computes, and `overrun` holds exactly when the picture is non-empty and as tall as the framebuffer, in which case a written word lies past the end and otherwise every written word lies inside |
| ShowBitmap.ShowBmpAsWritten | source/bitmap.c:94-164 | returns 1 exactly when the header is acceptable. On 0 the display is unchanged. On 1, whichfb toggles once, the other framebuffer is unchanged, and in the selected framebuffer file row r is painted on row top+height−r. `overrun` holds exactly when the picture is non-empty and as tall as the framebuffer; then a word the copy writes lies past the buffer's end, and otherwise every written word lies inside |
| ShowBitmap.ShowBmp | source/bitmap.c:94-164 | the corrected ShowBMP: returns 1 exactly when the header is acceptable and 0 otherwise. On 0 the display is unchanged. On 1, whichfb toggles once, the other framebuffer is unchanged, and the selected framebuffer holds the picture exactly on the centred rows top … top+height−1 over its old contents |

## Findings

| source | as written | input that shows it | evidently intended | confidence | as-written member | corrected member |
|---|---|---|---|---|---|---|
| source/bitmap.c:141-142 | `fboffset` starts at left + (top + height)·320, so file row r is written to framebuffer row top + height − r. The rows written are top+1 … top+height, and row `top` is never written. | A 640×480 picture with xfbHeight = 480 (the NTSC mode the header comment names). Its first word goes to index 153600 = 320·480, one past the end of the framebuffer. | Start at left + (top + height − 1)·320, so that the picture fills rows top … top+height−1. | high (follows from the offset arithmetic alone); not executed | ShowBitmap.ShowBmpAsWritten | ShowBitmap.ShowBmp |

`ShowBitmap.ShowBmpAsWritten` models the source's offsets. Its `overrun`
result is true exactly in the case shown above, and
`Layout.FullHeightPictureOverruns` gives the concrete start offset.
`Layout.AsWrittenFirstRowPastEnd` shows that file row 0 goes past the last row
exactly when height == xfbHeight. `Layout.AsWrittenRowsInside` shows that the source's map stays inside
the framebuffer exactly when height < xfbHeight. `Layout.AsWrittenSkipsTopRow`
shows that it moves every picture one row down. `ShowBitmap.ShowBmp` uses the
corrected map `Layout.IntendedRow`, and `Layout.IntendedRowsInside` proves
that it fills exactly the centred rows.

## Left out

- `ClearScreen` is left out. It only calls `ShowBMP` on a global `bitmapfile` that is not part of this model.
- The commented-out video calls `VIDEO_SetNextFramebuffer`, `VIDEO_Flush` and `VIDEO_WaitVSync` are left out, and so are the libogc and `bitmap.h` headers. They are display I/O and declarations, not logic.
- The globals `vmode`, `xfb` and `whichfb` are not modelled as globals. `xfbHeight` is a parameter. The framebuffers and the toggle are a `Display` value that both versions of ShowBMP take and return.
- `whichfb` is a one-bit value. The source's `int` only ever holds 0 or 1 under `^= 1`, and any other value would index outside `xfb[2]`.
- Colour.CvtRgb: the packing is on unsigned 32-bit words. In C, `y1 << 24` on a signed `int` overflows when y1 ≥ 128, which is undefined behaviour.
- Raw pointer aliasing and the packed-struct cast are not modelled. The header is a byte sequence read at explicit offsets.
- The source never checks the length of the file. `ShowBmp` and `ShowBmpAsWritten` instead require that the 34 header bytes are present and, for an accepted header, that `height` rows of `3·fbwidth` bytes follow the pixel-data offset (`PixelsPresent`).
- The framebuffer size is not modelled as the source allocates it. `ShowBmp` and `ShowBmpAsWritten` require both framebuffers to hold 320·xfbHeight words, the size of a framebuffer for the mode.
- BMP row padding to 4 bytes, negative (top-down) heights and other BMP variants are not handled, as in the source. The copy reads an unpadded `3·fbwidth` bytes per row. For an odd width, each row therefore also reads one pixel past the picture's row.
- `bfSize`, `bfReserved` and `biImageHdrSize` are decoded but never used, as in the source.
- ShowBitmap.ShowBmp: places file row r on row top+height−1−r, the corrected map, not on the source's row top+height−r. The source's placement is stated by `ShowBmpAsWritten`.
- ShowBitmap.ShowBmpAsWritten: the words the source writes past the end of the framebuffer are not modelled. They are file row 0 of a picture as tall as the framebuffer, and in C they land in whatever memory follows the buffer. The model states every word inside the framebuffer and reports the overrun.
- ShowBitmap.PairWord has no contract of its own. The order of its B,G,R bytes is stated through `BlitPlacement`.
