/**
 Where ShowBMP puts an accepted picture on the framebuffer
 (source/bitmap.c:126-154).

 A framebuffer row is 640 pixels held in 320 32-bit words, two pixels to a
 word, and the framebuffer has `xfbHeight` rows. The picture is widened to an
 even number of pixels, centred horizontally, and centred vertically; its
 rows are stored bottom-to-top in the file.
 */
module Layout {

  /** Pixels in one framebuffer row. */
  const ScreenWidth: nat := 640
  /** 32-bit words in one framebuffer row; each word holds two pixels. */
  const RowWords: nat := 320
  /** The largest `xfbHeight` a video mode can carry (it is a `u16`). */
  const MaxXfbHeight: nat := 0xFFFF
  const U32Modulus: int := 0x1_0000_0000

  /** The value a C `u32` holds after an assignment of `x`. */
  function U32(x: int): (v: nat)
    ensures v < U32Modulus
    ensures 0 <= x < U32Modulus ==> v == x
  {
    x % U32Modulus
  }

  /** The picture width rounded up to a whole number of framebuffer words. */
  function FbWidth(width: nat): (fbwidth: nat)
    requires width <= ScreenWidth
    ensures fbwidth % 2 == 0 && width <= fbwidth <= width + 1
    ensures fbwidth <= ScreenWidth
  {
    if width % 2 == 1 then width + 1 else width
  }

  /** Words left blank before the picture in each row: the margins either side differ by at most one word. */
  function LeftMargin(fbwidth: nat): (left: nat)
    requires fbwidth <= ScreenWidth && fbwidth % 2 == 0
    ensures left + fbwidth / 2 <= RowWords
    ensures left <= RowWords - left - fbwidth / 2 <= left + 1
  {
    ((ScreenWidth - fbwidth) / 2) / 2
  }

  /** Rows left blank above the picture: the margins above and below differ by at most one row. */
  function TopMargin(height: nat, xfbHeight: nat): (top: nat)
    requires height <= xfbHeight
    ensures top + height <= xfbHeight
    ensures top <= xfbHeight - top - height <= top + 1
  {
    (xfbHeight - height) / 2
  }

  /**
   The framebuffer row ShowBMP writes file row `r` to, as written: `fboffset`
   starts `top + height` rows down and goes up one row per file row, which
   is one row below where the row belongs.
   */
  function AsWrittenRow(top: nat, height: nat, r: nat): (row: int)
    ensures row == IntendedRow(top, height, r) + 1
  {
    top + height - r
  }

  /**
   The framebuffer row file row `r` belongs in: the picture occupies rows
   `top` .. `top + height - 1`, bottom row last.
   */
  function IntendedRow(top: nat, height: nat, r: nat): int
  {
    top + height - 1 - r
  }

  /**
   The initial `fboffset` as the source computes it in `u32` arithmetic:
   the horizontal margin, plus the vertical margin, plus `height` rows.
   After the size check no `u32` operation wraps, so it is the left margin
   plus the start of the row file row 0 is written to.
   */
  function AsWrittenStart(width: nat, height: nat, xfbHeight: nat): (start: nat)
    requires width <= ScreenWidth
    ensures start < U32Modulus
    ensures height <= xfbHeight <= MaxXfbHeight ==>
              start == LeftMargin(FbWidth(width)) + AsWrittenRow(TopMargin(height, xfbHeight), height, 0) * RowWords
  {
    var fbwidth := FbWidth(width);
    var fboffset := U32(U32(U32(ScreenWidth - fbwidth) / 2) / 2);
    var fboffset := U32(fboffset + U32(U32(U32(xfbHeight - height) / 2) * RowWords));
    U32(fboffset + U32(height * RowWords))
  }

  /**
   As written, every row written lies inside the framebuffer exactly when the
   picture is shorter than the framebuffer.
   */
  lemma AsWrittenRowsInside(height: nat, xfbHeight: nat)
    requires 0 < height <= xfbHeight
    ensures var top := TopMargin(height, xfbHeight);
            (forall r | 0 <= r < height :: 0 <= AsWrittenRow(top, height, r) < xfbHeight)
            <==> height < xfbHeight
  {
    var top := TopMargin(height, xfbHeight);
    if height == xfbHeight {
      assert AsWrittenRow(top, height, 0) == xfbHeight;
    }
  }

  /**
   As written, file row 0 goes to row `xfbHeight`, just past the last row of
   the framebuffer, exactly when the picture is as tall as the framebuffer.
   */
  lemma AsWrittenFirstRowPastEnd(height: nat, xfbHeight: nat)
    requires height <= xfbHeight
    ensures AsWrittenRow(TopMargin(height, xfbHeight), height, 0) <= xfbHeight
    ensures AsWrittenRow(TopMargin(height, xfbHeight), height, 0) == xfbHeight <==> height == xfbHeight
  {
  }

  /** As written, the top row of the centred area is never written: the picture sits one row low. */
  lemma AsWrittenSkipsTopRow(height: nat, xfbHeight: nat)
    requires height <= xfbHeight
    ensures var top := TopMargin(height, xfbHeight);
            forall r | 0 <= r < height :: top < AsWrittenRow(top, height, r) <= top + height
  {
  }

  /**
   A 640x480 picture on a 480-row framebuffer: the first word written is the
   one just past the end of the 320 * 480-word buffer.
   */
  lemma FullHeightPictureOverruns()
    ensures AsWrittenStart(640, 480, 480) == RowWords * 480
  {
  }

  /**
   The corrected row map puts the file's rows one-to-one onto the centred
   rows `top` .. `top + height - 1`, all inside the framebuffer.
   */
  lemma IntendedRowsInside(height: nat, xfbHeight: nat)
    requires height <= xfbHeight
    ensures var top := TopMargin(height, xfbHeight);
            forall r | 0 <= r < height :: top <= IntendedRow(top, height, r) < top + height <= xfbHeight
    ensures var top := TopMargin(height, xfbHeight);
            forall r1, r2 | 0 <= r1 < r2 < height :: IntendedRow(top, height, r2) < IntendedRow(top, height, r1)
  {
  }
}
