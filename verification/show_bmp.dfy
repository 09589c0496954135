/**
 ShowBMP (source/bitmap.c:86-164): check the header, then copy the picture,
 converted pair by pair with CvtRGB, into the next framebuffer.

 The framebuffers and the toggle selecting between them are passed in and
 returned as a `Display` value; the video mode contributes only its
 `xfbHeight`.
 */
module ShowBitmap {
  import opened ByteOrder
  import opened Colour
  import opened BmpHeader
  import opened Layout

  /**
   The rectangle one blit fills: `height` file rows of `fbwidth` pixels,
   starting `left` words into each framebuffer row; file row `r` goes to
   framebuffer row `firstRow - r`.
   */
  datatype Region = Region(fbwidth: nat, height: nat, left: nat, firstRow: int)

  /** Source bytes one file row takes: three per pixel, with no row padding. */
  function Stride(g: Region): nat
  {
    3 * g.fbwidth
  }

  /**
   Whether framebuffer word `i` has been written once `rows` whole file rows
   and the first `cols` words of the next have been copied.
   */
  predicate Written(g: Region, i: int, rows: nat, cols: nat)
  {
    var row, col := i / RowWords, i % RowWords;
    && g.left <= col
    && (|| (g.firstRow - rows < row <= g.firstRow && col < g.left + g.fbwidth / 2)
        || (row == g.firstRow - rows && col < g.left + cols))
  }

  /** Whether framebuffer word `i` lies in the picture once the blit is done. */
  predicate InPicture(g: Region, i: int)
  {
    Written(g, i, g.height, 0)
  }

  /**
   A conversion of two pixels, given as R1, G1, B1, R2, G2, B2, into one
   framebuffer word. The copy loop is stated for any such conversion; ShowBMP
   uses CvtRGB.
   */
  type PairConversion = (bv8, bv8, bv8, bv8, bv8, bv8) -> Word

  /** The word `convert` makes of the two B,G,R pixels starting at byte `k`. */
  function PairWord(convert: PairConversion, bgr: seq<bv8>, k: nat): Word
    requires k + 6 <= |bgr|
  {
    convert(bgr[k + 2], bgr[k + 1], bgr[k], bgr[k + 5], bgr[k + 4], bgr[k + 3])
  }

  /**
   Byte offset in the pixel data at which file row `r` of a picture
   `fbwidth` pixels wide starts: the rows follow each other with no padding.
   */
  function RowStart(fbwidth: nat, r: nat): nat
  {
    if r == 0 then 0 else RowStart(fbwidth, r - 1) + 3 * fbwidth
  }

  /** Later rows start further on. */
  lemma {:induction false} RowStartMonotone(fbwidth: nat, r1: nat, r2: nat)
    requires r1 <= r2
    ensures RowStart(fbwidth, r1) <= RowStart(fbwidth, r2)
    decreases r2
  {
    if r1 < r2 {
      RowStartMonotone(fbwidth, r1, r2 - 1);
    }
  }

  /** Row `r` starts after exactly `r` rows of `3 * fbwidth` bytes. */
  lemma {:induction false} RowStartIsProduct(fbwidth: nat, r: nat)
    ensures RowStart(fbwidth, r) == r * (3 * fbwidth)
  {
    if r > 0 {
      RowStartIsProduct(fbwidth, r - 1);
      assert r * (3 * fbwidth) == (r - 1) * (3 * fbwidth) + 3 * fbwidth;
    }
  }

  /**
   A region without its file row 0: the remaining rows, read from the bytes
   after row 0 and placed from one framebuffer row higher.
   */
  function DropFirstRow(g: Region): Region
    requires 0 < g.height
  {
    Region(g.fbwidth, g.height - 1, g.left, g.firstRow - 1)
  }

  /** The pixel data of a region without its row 0 is what follows row 0. */
  lemma DropFirstRowData(g: Region, bgr: seq<bv8>)
    requires 0 < g.height && RowStart(g.fbwidth, g.height) <= |bgr|
    ensures Stride(g) <= |bgr|
    ensures RowStart(g.fbwidth, g.height - 1) + Stride(g) == RowStart(g.fbwidth, g.height)
  {
    RowStartMonotone(g.fbwidth, 1, g.height);
  }

  /**
   Below framebuffer row `firstRow`, a region without its row 0 fills the
   same words with the same pixel pairs as the whole region.
   */
  lemma DropFirstRowAgrees(convert: PairConversion, g: Region, bgr: seq<bv8>, i: int)
    requires 0 < g.height && RowStart(g.fbwidth, g.height) <= |bgr|
    requires i / RowWords < g.firstRow
    ensures Stride(g) <= |bgr| && RowStart(g.fbwidth, g.height - 1) <= |bgr| - Stride(g)
    ensures InPicture(g, i) <==> InPicture(DropFirstRow(g), i)
    ensures InPicture(g, i) ==>
              PictureWord(convert, g, bgr, i) == PictureWord(convert, DropFirstRow(g), bgr[Stride(g)..], i)
  {
    DropFirstRowData(g, bgr);
    var rest := DropFirstRow(g);
    if InPicture(g, i) {
      var r, c := g.firstRow - i / RowWords, i % RowWords - g.left;
      assert PairOffset(rest, r - 1, c) + Stride(g) == PairOffset(g, r, c);
    }
  }

  /** Byte offset of the pixel pair that word `c` of file row `r` is made of. */
  function PairOffset(g: Region, r: nat, c: nat): (k: nat)
    requires r < g.height && c < g.fbwidth / 2
    ensures RowStart(g.fbwidth, r) <= k && k + 6 <= RowStart(g.fbwidth, r + 1) <= RowStart(g.fbwidth, g.height)
  {
    RowStartMonotone(g.fbwidth, r + 1, g.height);
    RowStart(g.fbwidth, r) + 6 * c
  }

  /** The word the picture puts at framebuffer index `i`. */
  function PictureWord(convert: PairConversion, g: Region, bgr: seq<bv8>, i: int): Word
    requires InPicture(g, i)
    requires RowStart(g.fbwidth, g.height) <= |bgr|
  {
    var r, c := g.firstRow - i / RowWords, i % RowWords - g.left;
    PairWord(convert, bgr, PairOffset(g, r, c))
  }

  /**
   `after` is `before` with the picture painted in: every word of the region
   holds its pixel pair, converted by `convert`, and every other word is as
   it was.
   */
  predicate Painted(convert: PairConversion, g: Region, bgr: seq<bv8>, before: seq<Word>, after: seq<Word>)
    requires RowStart(g.fbwidth, g.height) <= |bgr|
  {
    && |after| == |before|
    && forall i | 0 <= i < |after| :: after[i] == (if InPicture(g, i) then PictureWord(convert, g, bgr, i) else before[i])
  }

  lemma RowAndColumn(row: int, col: int)
    requires 0 <= col < RowWords
    ensures (row * RowWords + col) / RowWords == row
    ensures (row * RowWords + col) % RowWords == col
  {
  }

  /**
   The copy loop of ShowBMP. File row after file row, word after word, it
   writes CvtRGB of the next two B,G,R pixels and moves on six bytes; after a
   row it moves `fboffset` up one framebuffer row. Every word of the region
   gets the pair of pixels at its place in the file, every other word is left
   alone, and exactly `3 * fbwidth` bytes are read per row.
   */
  method Blit(convert: PairConversion, fb: seq<Word>, bgr: seq<bv8>, g: Region) returns (out: seq<Word>, consumed: nat)
    requires g.fbwidth % 2 == 0 && g.left + g.fbwidth / 2 <= RowWords
    requires RowStart(g.fbwidth, g.height) <= |bgr|
    requires g.height == 0 || (g.height - 1 <= g.firstRow && (g.firstRow + 1) * RowWords <= |fb|)
    ensures Painted(convert, g, bgr, fb, out)
    ensures consumed == RowStart(g.fbwidth, g.height)
  {
    out := fb;
    consumed := 0;
    var fboffset := g.firstRow * RowWords + g.left;
    var rows := 0;
    while rows < g.height
      invariant rows <= g.height
      invariant |out| == |fb|
      invariant fboffset == (g.firstRow - rows) * RowWords + g.left
      invariant consumed == RowStart(g.fbwidth, rows)
      invariant forall i | 0 <= i < |out| ::
                  out[i] == (if Written(g, i, rows, 0) then PictureWord(convert, g, bgr, i) else fb[i])
    {
      out, consumed := CopyRow(convert, fb, out, bgr, g, rows, fboffset, consumed);
      fboffset := fboffset - RowWords;
      rows := rows + 1;
    }
  }

  /**
   One pass of the copy loop's inner loop: file row `rows`, read from byte
   `consumed`, goes word by word onto the framebuffer row starting at
   `fboffset`. Afterwards one more whole file row has been written, and
   `consumed` has moved on to the next file row.
   */
  method CopyRow(convert: PairConversion, fb: seq<Word>, out0: seq<Word>, bgr: seq<bv8>, g: Region,
                 rows: nat, fboffset: int, consumed0: nat)
    returns (out: seq<Word>, consumed: nat)
    requires g.fbwidth % 2 == 0 && g.left + g.fbwidth / 2 <= RowWords
    requires RowStart(g.fbwidth, g.height) <= |bgr|
    requires rows < g.height && g.height - 1 <= g.firstRow && (g.firstRow + 1) * RowWords <= |fb|
    requires fboffset == (g.firstRow - rows) * RowWords + g.left
    requires consumed0 == RowStart(g.fbwidth, rows)
    requires |out0| == |fb|
    requires forall i | 0 <= i < |out0| ::
               out0[i] == (if Written(g, i, rows, 0) then PictureWord(convert, g, bgr, i) else fb[i])
    ensures |out| == |fb|
    ensures consumed == RowStart(g.fbwidth, rows + 1)
    ensures forall i | 0 <= i < |out| ::
              out[i] == (if Written(g, i, rows + 1, 0) then PictureWord(convert, g, bgr, i) else fb[i])
  {
    RowStartMonotone(g.fbwidth, rows + 1, g.height);
    out := out0;
    consumed := consumed0;
    var cols := 0;
    while cols < g.fbwidth / 2
      invariant cols <= g.fbwidth / 2
      invariant |out| == |fb|
      invariant consumed == RowStart(g.fbwidth, rows) + 6 * cols
      invariant forall i | 0 <= i < |out| ::
                  out[i] == (if Written(g, i, rows, cols) then PictureWord(convert, g, bgr, i) else fb[i])
    {
      var k := consumed;
      var idx := fboffset + cols;
      WrittenStep(g, rows, cols);
      assert PairOffset(g, rows, cols) == k;
      var word := convert(bgr[k + 2], bgr[k + 1], bgr[k], bgr[k + 5], bgr[k + 4], bgr[k + 3]);
      assert word == PictureWord(convert, g, bgr, idx);
      out := out[idx := word];
      consumed := consumed + 6;
      cols := cols + 1;
    }
  }

  /**
   Copying word `cols` of file row `rows` writes exactly one more word: the
   one at row `firstRow - rows`, column `left + cols`.
   */
  lemma WrittenStep(g: Region, rows: nat, cols: nat)
    requires cols < g.fbwidth / 2 && g.left + g.fbwidth / 2 <= RowWords
    ensures var idx := (g.firstRow - rows) * RowWords + (g.left + cols);
            && idx / RowWords == g.firstRow - rows && idx % RowWords == g.left + cols
            && Written(g, idx, rows, cols + 1) && !Written(g, idx, rows, cols)
            && forall i | i != idx :: Written(g, i, rows, cols + 1) == Written(g, i, rows, cols)
  {
    var idx := (g.firstRow - rows) * RowWords + (g.left + cols);
    RowAndColumn(g.firstRow - rows, g.left + cols);
    forall i | i != idx
      ensures Written(g, i, rows, cols + 1) == Written(g, i, rows, cols)
    {
      assert i == (i / RowWords) * RowWords + i % RowWords;
    }
  }

  /** Where the blit puts each pixel pair: word `c` of file row `r` lands at row `firstRow - r`, word `left + c`. */
  lemma BlitPlacement(convert: PairConversion, g: Region, bgr: seq<bv8>, r: nat, c: nat)
    requires r < g.height && c < g.fbwidth / 2 && g.left + g.fbwidth / 2 <= RowWords
    requires RowStart(g.fbwidth, g.height) <= |bgr|
    ensures var i := (g.firstRow - r) * RowWords + (g.left + c);
            InPicture(g, i) && PictureWord(convert, g, bgr, i) == PairWord(convert, bgr, PairOffset(g, r, c))
  {
    var i := (g.firstRow - r) * RowWords + (g.left + c);
    RowAndColumn(g.firstRow - r, g.left + c);
    assert i / RowWords == g.firstRow - r && i % RowWords == g.left + c;
    assert InPicture(g, i);
  }

  /** The two framebuffers and the toggle that says which one is next to be shown. */
  datatype Display = Display(xfb0: seq<Word>, xfb1: seq<Word>, whichfb: bv1)
  {
    function Buffer(k: bv1): seq<Word>
    {
      if k == 0 then xfb0 else xfb1
    }

    /** The display with framebuffer `k` replaced by `fb`, and `k` selected. */
    function Select(k: bv1, fb: seq<Word>): (d: Display)
      ensures d.whichfb == k && d.Buffer(k) == fb && d.Buffer(k ^ 1) == Buffer(k ^ 1)
    {
      if k == 0 then Display(fb, xfb1, k) else Display(xfb0, fb, k)
    }
  }

  /** Both framebuffers hold `xfbHeight` rows of 320 words. */
  predicate FramebuffersSized(d: Display, xfbHeight: nat)
  {
    |d.xfb0| == RowWords * xfbHeight && |d.xfb1| == RowWords * xfbHeight
  }

  /** The region an acceptable header's picture fills: centred, with its bottom file row at the bottom of the centred area. */
  function PictureRegion(h: WinBitmap, xfbHeight: nat): (g: Region)
    requires Acceptable(h, xfbHeight)
  {
    var height := h.height as int;
    var fbwidth := FbWidth(h.width as int);
    var top := TopMargin(height, xfbHeight);
    Region(fbwidth, height, LeftMargin(fbwidth), IntendedRow(top, height, 0))
  }

  /**
   The region ShowBMP fills as written for a `width` x `height` picture: the
   centred area, one row lower than it belongs.
   */
  function AsWrittenPlacement(width: nat, height: nat, xfbHeight: nat): Region
    requires width <= ScreenWidth && height <= xfbHeight
  {
    var fbwidth := FbWidth(width);
    var top := TopMargin(height, xfbHeight);
    Region(fbwidth, height, LeftMargin(fbwidth), AsWrittenRow(top, height, 0))
  }

  /** The region ShowBMP fills as written for an accepted header: the centred picture, placed one row lower than it belongs. */
  function AsWrittenRegion(h: WinBitmap, xfbHeight: nat): (g: Region)
    requires Acceptable(h, xfbHeight)
    ensures var intended := PictureRegion(h, xfbHeight);
            g == intended.(firstRow := intended.firstRow + 1)
  {
    var width, height := h.width as int, h.height as int;
    assert width <= ScreenWidth;
    var top := TopMargin(height, xfbHeight);
    assert AsWrittenRow(top, height, 0) == IntendedRow(top, height, 0) + 1;
    AsWrittenPlacement(width, height, xfbHeight)
  }

  /**
   An acceptable file holds, after its pixel-data offset, the `height` rows
   of `3 * fbwidth` bytes the copy reads (`RowStartIsProduct`).
   */
  predicate PixelsPresent(file: seq<bv8>, xfbHeight: nat)
    requires HeaderSize <= |file|
  {
    var h := DecodeHeader(file);
    Acceptable(h, xfbHeight) ==>
      h.dataOffset as int + RowStart(FbWidth(h.width as int), h.height as int) <= |file|
  }

  /**
   The fields ShowBMP reads once the header is accepted: the width and
   height by FLIP32 of what the host reads, and the pixel data from the
   FLIP32'd `bfOffset` on. They are the little-endian fields of the header.
   */
  method ReadPicture(file: seq<bv8>, xfbHeight: nat) returns (width: nat, height: nat, bgr: seq<bv8>)
    requires HeaderSize <= |file|
    requires PixelsPresent(file, xfbHeight) && Acceptable(DecodeHeader(file), xfbHeight)
    ensures var h := DecodeHeader(file);
            width == h.width as int && height == h.height as int && bgr == file[h.dataOffset as int..]
    ensures width <= ScreenWidth && height <= xfbHeight
    ensures RowStart(FbWidth(width), height) <= |bgr|
  {
    FlipHostLoad32(file, WidthAt);
    FlipHostLoad32(file, HeightAt);
    FlipHostLoad32(file, DataOffsetAt);
    width := Flip32(HostLoad32(file, WidthAt)) as int;
    height := Flip32(HostLoad32(file, HeightAt)) as int;
    bgr := file[Flip32(HostLoad32(file, DataOffsetAt)) as int..];
  }

  /**
   ShowBMP. It returns 1 exactly when the header is acceptable. A rejected
   file leaves the display as it was; an accepted one toggles `whichfb` once,
   leaves the other framebuffer alone, and paints the picture into the newly
   selected framebuffer over its old contents.
   */
  method ShowBmp(file: seq<bv8>, d: Display, xfbHeight: nat) returns (status: Word, d': Display)
    requires HeaderSize <= |file|
    requires FramebuffersSized(d, xfbHeight)
    requires PixelsPresent(file, xfbHeight)
    ensures status == 1 <==> Acceptable(DecodeHeader(file), xfbHeight)
    ensures status == 0 || status == 1
    ensures status == 0 ==> d' == d
    ensures status == 1 ==> d'.whichfb == d.whichfb ^ 1 && d'.Buffer(d.whichfb) == d.Buffer(d.whichfb)
    ensures status == 1 ==> FramebuffersSized(d', xfbHeight)
    ensures status == 1 ==>
              var h := DecodeHeader(file);
              var g, bgr := PictureRegion(h, xfbHeight), file[h.dataOffset as int..];
              Painted(CvtRgb, g, bgr, d.Buffer(d'.whichfb), d'.Buffer(d'.whichfb))
  {
    if CheckHeader(file, xfbHeight).Rejected? {
      return 0, d;
    }
    var width, height, bgr := ReadPicture(file, xfbHeight);
    var fbwidth := FbWidth(width);
    var left := LeftMargin(fbwidth);
    var top := TopMargin(height, xfbHeight);
    IntendedRowsInside(height, xfbHeight);
    var g := Region(fbwidth, height, left, IntendedRow(top, height, 0));
    assert g == PictureRegion(DecodeHeader(file), xfbHeight);
    var next := d.whichfb ^ 1;
    var fb, _ := Blit(CvtRgb, d.Buffer(next), bgr, g);
    d' := d.Select(next, fb);
    status := 1;
  }

  /**
   What `overrun` says about a region placed on a framebuffer of `xfbHeight`
   rows: when set, the region covers the word just past the framebuffer's
   end; when clear, every word of the region lies inside the framebuffer.
   */
  ghost predicate OverrunReported(g: Region, xfbHeight: nat, overrun: bool)
  {
    && (overrun ==> InPicture(g, RowWords * xfbHeight + g.left))
    && (!overrun ==> forall i | InPicture(g, i) :: 0 <= i < RowWords * xfbHeight)
  }

  /**
   The copy loop on a framebuffer of `xfbHeight` rows when the region may
   reach one row past its end, as it does with the source's row offsets:
   `firstRow` is at most `xfbHeight`. Every word inside the framebuffer gets
   what the copy writes there; `overrun` says that the copy also writes
   words past the end, which happens exactly when the region is not empty
   and starts on row `xfbHeight`.
   */
  method BlitAsWritten(convert: PairConversion, fb: seq<Word>, bgr: seq<bv8>, g: Region, xfbHeight: nat)
    returns (out: seq<Word>, overrun: bool)
    requires g.fbwidth % 2 == 0 && g.left + g.fbwidth / 2 <= RowWords
    requires RowStart(g.fbwidth, g.height) <= |bgr|
    requires g.height <= g.firstRow <= xfbHeight && |fb| == RowWords * xfbHeight
    ensures Painted(convert, g, bgr, fb, out)
    ensures overrun <==> 0 < g.height && 0 < g.fbwidth && g.firstRow == xfbHeight
    ensures OverrunReported(g, xfbHeight, overrun)
  {
    var consumed;
    if g.height == 0 || g.firstRow < xfbHeight {
      out, consumed := Blit(convert, fb, bgr, g);
      overrun := false;
    } else {
      // File row 0 goes to row `xfbHeight`, past the end; the other rows land inside.
      DropFirstRowData(g, bgr);
      out, consumed := Blit(convert, fb, bgr[Stride(g)..], DropFirstRow(g));
      forall i | 0 <= i < |out|
        ensures out[i] == (if InPicture(g, i) then PictureWord(convert, g, bgr, i) else fb[i])
      {
        DropFirstRowAgrees(convert, g, bgr, i);
      }
      overrun := g.fbwidth > 0;
      if overrun {
        RowAndColumn(xfbHeight, g.left);
        assert InPicture(g, RowWords * xfbHeight + g.left);
      }
    }
  }

  /**
   What ShowBMP does once the header is accepted, with its row offsets as
   the source computes them: toggle `whichfb` and copy the `width` x
   `height` picture into the newly selected framebuffer, file row `r` on
   row `top + height - r`.
   */
  method DrawAsWritten(bgr: seq<bv8>, width: nat, height: nat, d: Display, xfbHeight: nat) returns (d': Display, overrun: bool)
    requires width <= ScreenWidth && height <= xfbHeight
    requires RowStart(FbWidth(width), height) <= |bgr|
    requires FramebuffersSized(d, xfbHeight)
    ensures d'.whichfb == d.whichfb ^ 1 && d'.Buffer(d.whichfb) == d.Buffer(d.whichfb)
    ensures FramebuffersSized(d', xfbHeight)
    ensures Painted(CvtRgb, AsWrittenPlacement(width, height, xfbHeight), bgr, d.Buffer(d'.whichfb), d'.Buffer(d'.whichfb))
    ensures overrun <==> 0 < width && 0 < height == xfbHeight
    ensures OverrunReported(AsWrittenPlacement(width, height, xfbHeight), xfbHeight, overrun)
  {
    var g := AsWrittenPlacement(width, height, xfbHeight);
    AsWrittenFirstRowPastEnd(height, xfbHeight);
    var next := d.whichfb ^ 1;
    var fb;
    fb, overrun := BlitAsWritten(CvtRgb, d.Buffer(next), bgr, g, xfbHeight);
    d' := d.Select(next, fb);
  }

  /**
   ShowBMP with its row offsets as the source computes them: file row `r`
   goes to framebuffer row `top + height - r`. A picture as tall as the
   framebuffer puts its file row 0 on the row just past the framebuffer's
   end; `overrun` reports that case. Every word inside the framebuffer is
   stated; what the source writes past its end is not part of the model.
   */
  method ShowBmpAsWritten(file: seq<bv8>, d: Display, xfbHeight: nat) returns (status: Word, d': Display, overrun: bool)
    requires HeaderSize <= |file|
    requires FramebuffersSized(d, xfbHeight)
    requires PixelsPresent(file, xfbHeight)
    ensures status == 1 <==> Acceptable(DecodeHeader(file), xfbHeight)
    ensures status == 0 || status == 1
    ensures status == 0 ==> d' == d && !overrun
    ensures status == 1 ==>
              var h := DecodeHeader(file);
              var g, bgr := AsWrittenRegion(h, xfbHeight), file[h.dataOffset as int..];
              && d'.whichfb == d.whichfb ^ 1 && d'.Buffer(d.whichfb) == d.Buffer(d.whichfb)
              && FramebuffersSized(d', xfbHeight)
              && Painted(CvtRgb, g, bgr, d.Buffer(d'.whichfb), d'.Buffer(d'.whichfb))
              && (overrun <==> 0 < h.width as int && 0 < h.height as int == xfbHeight)
              && OverrunReported(g, xfbHeight, overrun)
  {
    if CheckHeader(file, xfbHeight).Rejected? {
      return 0, d, false;
    }
    var width, height, bgr := ReadPicture(file, xfbHeight);
    ghost var h := DecodeHeader(file);
    assert AsWrittenRegion(h, xfbHeight) == AsWrittenPlacement(width, height, xfbHeight);
    d', overrun := DrawAsWritten(bgr, width, height, d, xfbHeight);
    status := 1;
  }
}
