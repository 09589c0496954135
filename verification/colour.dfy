/**
 CvtRGB (source/bitmap.c:46-66): two RGB pixels become one packed 4:2:2 word
 Y1 Cb Y2 Cr, most significant byte first.

 The conversion is full-range YCbCr with the BT.601 luma weights and the JFIF
 chroma offset of 128 (ITU-T T.871, clause 7), computed on C `int`s with scaled
 integer coefficients. The two chroma samples of the pair are averaged.
 */
module Colour {
  const LumaScale: int := 1000
  const ChromaScale: int := 100000
  /** The chroma offset 128, at the scale of the chroma coefficients. */
  const ChromaBias: int := 12800000

  /** C's `/` on `int`: the quotient is truncated toward zero. */
  function CDiv(n: int, d: int): (q: int)
    requires d > 0
    ensures n >= 0 ==> q * d <= n < q * d + d
    ensures n < 0 ==> q * d >= n > q * d - d
  {
    if n >= 0 then n / d else -((-n) / d)
  }

  /**
   C's `>> 1` on the `int` sums `cb1 + cb2` and `cr1 + cr2`. Those sums are
   never negative, and on a non-negative `int` the shift is division by 2
   rounding down, which is what this states.
   */
  function Halve(x: int): (h: int)
    ensures 2 * h <= x < 2 * h + 2
  {
    x / 2
  }

  /** The luma weights sum to 1000: the numerator is never negative, and for grey it is 1000 times the level. */
  function LumaNumerator(r: bv8, g: bv8, b: bv8): (n: int)
    ensures 0 <= n <= 255000
    ensures r == g == b ==> n == 1000 * (r as int)
  {
    299 * (r as int) + 587 * (g as int) + 114 * (b as int)
  }

  function BlueNumerator(r: bv8, g: bv8, b: bv8): (n: int)
    ensures 50000 <= n <= 25550000
  {
    -16874 * (r as int) - 33126 * (g as int) + 50000 * (b as int) + ChromaBias
  }

  function RedNumerator(r: bv8, g: bv8, b: bv8): (n: int)
    ensures 50000 <= n <= 25550000
  {
    50000 * (r as int) - 41869 * (g as int) - 8131 * (b as int) + ChromaBias
  }

  /** The luma of one pixel: it fits in one byte, and a grey pixel keeps its level. */
  function Luma(r: bv8, g: bv8, b: bv8): (y: int)
    ensures 0 <= y <= 255
    ensures r == g == b ==> y == r as int
  {
    CDiv(LumaNumerator(r, g, b), LumaScale)
  }

  /** The blue-difference chroma of one pixel: it fits in one byte, and a grey pixel has the neutral 128. */
  function Cb(r: bv8, g: bv8, b: bv8): (cb: int)
    ensures 0 <= cb <= 255
    ensures r == g == b ==> cb == 128
  {
    CDiv(BlueNumerator(r, g, b), ChromaScale)
  }

  /** The red-difference chroma of one pixel: it fits in one byte, and a grey pixel has the neutral 128. */
  function Cr(r: bv8, g: bv8, b: bv8): (cr: int)
    ensures 0 <= cr <= 255
    ensures r == g == b ==> cr == 128
  {
    CDiv(RedNumerator(r, g, b), ChromaScale)
  }

  /** `(c1 + c2) >> 1` of two one-byte samples: again one byte, between the two, and either of them when they agree. */
  function Average(a: int, b: int): (m: int)
    requires 0 <= a <= 255 && 0 <= b <= 255
    ensures 0 <= m <= 255
    ensures a <= b ==> a <= m <= b
    ensures b <= a ==> b <= m <= a
    ensures a == b ==> m == a
  {
    Halve(a + b)
  }

  /** An unsigned 32-bit word, the framebuffer's unit: two pixels. */
  type Word = x: int | 0 <= x < 0x1_0000_0000

  /** The four fields of a packed 4:2:2 word, from the most significant byte down. */
  datatype YCbYCr = YCbYCr(y1: int, cb: int, y2: int, cr: int)

  /** Splits a word into its four bytes, most significant first: byte k counted from the low end is `(w / 256^k) % 256`. */
  function Unpack(w: Word): YCbYCr
  {
    var w1 := w / 0x100;
    var w2 := w1 / 0x100;
    var w3 := w2 / 0x100;
    YCbYCr(w3 % 0x100, w2 % 0x100, w1 % 0x100, w % 0x100)
  }

  /** Appending a byte below `a` and shifting it back out again. */
  lemma AppendByte(a: int, b: int)
    requires 0 <= b < 0x100
    ensures (a * 0x100 + b) / 0x100 == a && (a * 0x100 + b) % 0x100 == b
  {
  }

  /**
   The packed word of the four one-byte fields, written arithmetically as a
   number in base 256 with `y1` as its most significant digit: the value the
   source builds with `(y1 << 24) | (cb << 16) | (y2 << 8) | cr` when every
   field fits in one byte. Each field comes back out of its own byte.
   */
  function Pack(y1: int, cb: int, y2: int, cr: int): (w: Word)
    requires 0 <= y1 <= 255 && 0 <= cb <= 255 && 0 <= y2 <= 255 && 0 <= cr <= 255
    ensures Unpack(w) == YCbYCr(y1, cb, y2, cr)
  {
    AppendByte(y1, cb);
    AppendByte(y1 * 0x100 + cb, y2);
    AppendByte((y1 * 0x100 + cb) * 0x100 + y2, cr);
    ((y1 * 0x100 + cb) * 0x100 + y2) * 0x100 + cr
  }

  /** Every word is the packing of its own four bytes. */
  lemma PackUnpack(w: Word)
    ensures var f := Unpack(w); Pack(f.y1, f.cb, f.y2, f.cr) == w
  {
  }

  /** One pixel in full-range YCbCr. */
  datatype YCbCr = YCbCr(y: int, cb: int, cr: int)

  /** The per-pixel half of CvtRGB: every component fits in one byte, and grey maps to (level, 128, 128). */
  function ToYCbCr(r: bv8, g: bv8, b: bv8): (p: YCbCr)
    ensures 0 <= p.y <= 255 && 0 <= p.cb <= 255 && 0 <= p.cr <= 255
    ensures r == g == b ==> p == YCbCr(r as int, 128, 128)
  {
    YCbCr(Luma(r, g, b), Cb(r, g, b), Cr(r, g, b))
  }

  /** The pair half of CvtRGB: both lumas, and the chroma of the two pixels averaged. */
  function PackPair(p1: YCbCr, p2: YCbCr): (w: Word)
    requires 0 <= p1.y <= 255 && 0 <= p1.cb <= 255 && 0 <= p1.cr <= 255
    requires 0 <= p2.y <= 255 && 0 <= p2.cb <= 255 && 0 <= p2.cr <= 255
    ensures Unpack(w) == YCbYCr(p1.y, Average(p1.cb, p2.cb), p2.y, Average(p1.cr, p2.cr))
  {
    Pack(p1.y, Average(p1.cb, p2.cb), p2.y, Average(p1.cr, p2.cr))
  }

  /** CvtRGB: the bytes of the result, high to low, are the first luma, the mean Cb, the second luma and the mean Cr. */
  function CvtRgb(r1: bv8, g1: bv8, b1: bv8, r2: bv8, g2: bv8, b2: bv8): (w: Word)
    ensures var p1, p2 := ToYCbCr(r1, g1, b1), ToYCbCr(r2, g2, b2);
            Unpack(w) == YCbYCr(p1.y, Average(p1.cb, p2.cb), p2.y, Average(p1.cr, p2.cr))
  {
    var p1, p2 := ToYCbCr(r1, g1, b1), ToYCbCr(r2, g2, b2);
    PackPair(p1, p2)
  }

  /** A pair of grey pixels keeps its grey levels as lumas and has neutral chroma. */
  lemma GreyPair(v1: bv8, v2: bv8)
    ensures Unpack(CvtRgb(v1, v1, v1, v2, v2, v2)) == YCbYCr(v1 as int, 128, v2 as int, 128)
  {
  }

  /** Two equal pixels carry the chroma of that pixel. */
  lemma EqualPair(r: bv8, g: bv8, b: bv8)
    ensures var p := ToYCbCr(r, g, b); Unpack(CvtRgb(r, g, b, r, g, b)) == YCbYCr(p.y, p.cb, p.y, p.cr)
  {
  }
}
