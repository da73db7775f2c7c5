// What the block hasher computes, stated once for every block.
//
// A square block of side 2 is hashed from its serialised samples; a larger
// square from the four hashes of its quarters (top-left, top-right,
// bottom-left, bottom-right), each stored as four little-endian bytes; a 2:1
// or 1:2 rectangle from the hashes of its two square halves.  The bulk pass
// and the single-block pass are both proved to compute these functions.
//
// The uniformity flags are stated directly on the picture: a block's row flag
// says every row of the block is constant, its column flag that every column
// is.  The lemmas below show that the code's overlapping combination of
// child flags decides exactly these properties.

module HashSpec {
  import opened Bits
  import opened Crc
  import opened Picture

  /** An `unsigned int` as it lies in memory: four bytes, least significant first. */
  function Bytes4(w: Word): (r: seq<Byte>)
    ensures |r| == 4
  {
    [w[0..8], w[8..16], w[16..24], w[24..32]]
  }

  /** The four bytes put back together give the word. */
  lemma Bytes4Join(w: Word)
    ensures var b: seq<seq<bool>> := Bytes4(w); b[0] + b[1] + b[2] + b[3] == w
  {
    assert w == w[0..8] + w[8..16] + w[16..24] + w[24..32];
  }

  /** An array of `unsigned int` read as bytes. */
  function Serialise(ws: seq<Word>): (r: seq<Byte>)
    ensures |r| == 4 * |ws|
  {
    if |ws| == 0 then [] else Bytes4(ws[0]) + Serialise(ws[1..])
  }

  /** Serialisation is injective: different hash arrays give different byte strings. */
  lemma {:induction false} SerialiseInjective(a: seq<Word>, b: seq<Word>)
    requires Serialise(a) == Serialise(b)
    ensures a == b
  {
    if |a| > 0 {
      assert |b| == |a|;
      var sa := Serialise(a);
      assert sa[..4] == Bytes4(a[0]) && Serialise(b)[..4] == Bytes4(b[0]);
      Bytes4Join(a[0]);
      Bytes4Join(b[0]);
      assert sa[4..] == Serialise(a[1..]) && Serialise(b)[4..] == Serialise(b[1..]);
      SerialiseInjective(a[1..], b[1..]);
      assert a == [a[0]] + a[1..] && b == [b[0]] + b[1..];
    }
  }

  predicate IsPow2(n: nat)
  {
    n == 1 || (n >= 2 && n % 2 == 0 && IsPow2(n / 2))
  }

  /** The exponent of a power of two. */
  function Log2(n: nat): (k: nat)
    requires IsPow2(n)
    ensures Pow2(k) == n
  {
    if n == 1 then 0 else 1 + Log2(n / 2)
  }

  /** The block sides the pyramid works with: a power of two of at least 2. */
  predicate Side(s: nat)
  {
    s >= 2 && IsPow2(s)
  }

  /** The 2x2 block is a square block shape. */
  lemma Shape2x2()
    ensures Shape(2, 2)
  {
  }

  lemma SideHalf(s: nat)
    requires Side(s) && s > 2
    ensures Side(s / 2) && s == 2 * (s / 2) && s >= 4 && s % 4 == 0
  {
    assert IsPow2(s / 2);
    if s / 2 == 1 {
    } else {
      assert (s / 2) % 2 == 0;
    }
  }

  predicate Fits(pic: Picture, x: nat, y: nat, w: nat, h: nat)
  {
    x + w <= pic.width && y + h <= pic.height
  }

  /** Hash of the s x s square at (x, y) under the CRC engine `e`. */
  function SquareHash(pic: Picture, e: CrcSpec, x: nat, y: nat, s: nat): Word
    requires Valid(pic) && ValidWidth(e.bits) && Side(s) && Fits(pic, x, y, s, s)
    decreases s
  {
    if s == 2 then CrcOf(e, Block2x2Bytes(pic, x, y, pic.chroma444))
    else
      SideHalf(s);
      var h := s / 2;
      CrcOf(e, Serialise([SquareHash(pic, e, x, y, h), SquareHash(pic, e, x + h, y, h),
                          SquareHash(pic, e, x, y + h, h), SquareHash(pic, e, x + h, y + h, h)]))
  }

  /** A 2:1 (wide) or 1:2 (tall) rectangle made of two squares of side at least 2. */
  predicate IsRect(w: nat, h: nat)
  {
    (w == 2 * h && Side(h)) || (h == 2 * w && Side(w))
  }

  /** Hash of a rectangle: its two square halves, left then right or top then bottom. */
  function RectHash(pic: Picture, e: CrcSpec, x: nat, y: nat, w: nat, h: nat): Word
    requires Valid(pic) && ValidWidth(e.bits) && IsRect(w, h) && Fits(pic, x, y, w, h)
  {
    if w == 2 * h then CrcOf(e, Serialise([SquareHash(pic, e, x, y, h), SquareHash(pic, e, x + h, y, h)]))
    else CrcOf(e, Serialise([SquareHash(pic, e, x, y, w), SquareHash(pic, e, x, y + w, w)]))
  }

  predicate Shape(w: nat, h: nat)
  {
    (w == h && Side(w)) || IsRect(w, h)
  }

  /** Hash of the w x h block at (x, y). */
  function BlockHashOf(pic: Picture, e: CrcSpec, x: nat, y: nat, w: nat, h: nat): Word
    requires Valid(pic) && ValidWidth(e.bits) && Shape(w, h) && Fits(pic, x, y, w, h)
  {
    if w == h then SquareHash(pic, e, x, y, w) else RectHash(pic, e, x, y, w, h)
  }

  /**
   * A square larger than 2x2 hashes the four hashes of its quarters, serialised
   * top-left, top-right, bottom-left, bottom-right.
   */
  lemma SquareJoin(pic: Picture, e: CrcSpec, x: nat, y: nat, s: nat)
    requires Valid(pic) && ValidWidth(e.bits) && Side(s) && s > 2 && Fits(pic, x, y, s, s)
    ensures Side(s / 2) && s == 2 * (s / 2)
    ensures var h := s / 2;
      BlockHashOf(pic, e, x, y, s, s) ==
        CrcOf(e, Serialise([BlockHashOf(pic, e, x, y, h, h), BlockHashOf(pic, e, x + h, y, h, h),
                            BlockHashOf(pic, e, x, y + h, h, h), BlockHashOf(pic, e, x + h, y + h, h, h)]))
  {
    SideHalf(s);
    var h := s / 2;
    hide *;
    SquareUnfold(pic, e, x, y, s);
    SquareIsBlock(pic, e, x, y, s);
    SquareIsBlock(pic, e, x, y, h);
    SquareIsBlock(pic, e, x + h, y, h);
    SquareIsBlock(pic, e, x, y + h, h);
    SquareIsBlock(pic, e, x + h, y + h, h);
  }

  lemma SquareUnfold(pic: Picture, e: CrcSpec, x: nat, y: nat, s: nat)
    requires Valid(pic) && ValidWidth(e.bits) && Side(s) && s > 2 && Fits(pic, x, y, s, s)
    ensures Side(s / 2) && s == 2 * (s / 2)
    ensures var h := s / 2;
      SquareHash(pic, e, x, y, s) ==
        CrcOf(e, Serialise([SquareHash(pic, e, x, y, h), SquareHash(pic, e, x + h, y, h),
                            SquareHash(pic, e, x, y + h, h), SquareHash(pic, e, x + h, y + h, h)]))
  {
    hide CrcOf, Serialise, Block2x2Bytes, Fits, Valid, ValidWidth;
    SideHalf(s);
  }

  lemma SquareIsBlock(pic: Picture, e: CrcSpec, x: nat, y: nat, s: nat)
    requires Valid(pic) && ValidWidth(e.bits) && Side(s) && Fits(pic, x, y, s, s)
    ensures Shape(s, s) && BlockHashOf(pic, e, x, y, s, s) == SquareHash(pic, e, x, y, s)
  {
  }

  /** A 2:1 rectangle hashes the hashes of its left and right squares. */
  lemma WideJoin(pic: Picture, e: CrcSpec, x: nat, y: nat, h: nat)
    requires Valid(pic) && ValidWidth(e.bits) && Side(h) && Fits(pic, x, y, 2 * h, h)
    ensures BlockHashOf(pic, e, x, y, 2 * h, h) ==
      CrcOf(e, Serialise([BlockHashOf(pic, e, x, y, h, h), BlockHashOf(pic, e, x + h, y, h, h)]))
  {
  }

  /** A 1:2 rectangle hashes the hashes of its top and bottom squares. */
  lemma TallJoin(pic: Picture, e: CrcSpec, x: nat, y: nat, w: nat)
    requires Valid(pic) && ValidWidth(e.bits) && Side(w) && Fits(pic, x, y, w, 2 * w)
    ensures BlockHashOf(pic, e, x, y, w, 2 * w) ==
      CrcOf(e, Serialise([BlockHashOf(pic, e, x, y, w, w), BlockHashOf(pic, e, x, y + w, w, w)]))
  {
  }

  /** Every block hash is a `bits`-bit checksum. */
  lemma BlockHashBound(pic: Picture, e: CrcSpec, x: nat, y: nat, w: nat, h: nat)
    requires Valid(pic) && ValidWidth(e.bits) && Shape(w, h) && Fits(pic, x, y, w, h)
    ensures Value(BlockHashOf(pic, e, x, y, w, h)) < Pow2(e.bits)
  {
    hide CrcOf, Serialise, Block2x2Bytes;
    if w == h {
      if w == 2 {
        CrcBound(e, Block2x2Bytes(pic, x, y, pic.chroma444));
      } else {
        SideHalf(w);
        var c := w / 2;
        CrcBound(e, Serialise([SquareHash(pic, e, x, y, c), SquareHash(pic, e, x + c, y, c),
                               SquareHash(pic, e, x, y + c, c), SquareHash(pic, e, x + c, y + c, c)]));
      }
    } else if w == 2 * h {
      CrcBound(e, Serialise([SquareHash(pic, e, x, y, h), SquareHash(pic, e, x + h, y, h)]));
    } else {
      CrcBound(e, Serialise([SquareHash(pic, e, x, y, w), SquareHash(pic, e, x, y + w, w)]));
    }
  }

  /** Two s x s blocks with the same serialised pixels, in pictures of one chroma format. */
  ghost predicate SameContent(p: Picture, px: nat, py: nat, q: Picture, qx: nat, qy: nat, s: nat)
    requires Valid(p) && Valid(q) && p.chroma444 == q.chroma444
    requires Fits(p, px, py, s, s) && Fits(q, qx, qy, s, s)
  {
    forall x, y :: px <= x < px + s && py <= y < py + s ==>
      PixelBytes(p, x, y, p.chroma444) == PixelBytes(q, qx + (x - px), qy + (y - py), q.chroma444)
  }

  /**
   * A square's hash depends only on the bytes of its pixels, not on where the
   * square lies or on the rest of the picture: identical content hashes
   * identically wherever it occurs.
   */
  lemma {:induction false} SquareHashByContent(e: CrcSpec, p: Picture, px: nat, py: nat,
                                               q: Picture, qx: nat, qy: nat, s: nat)
    requires Valid(p) && Valid(q) && p.chroma444 == q.chroma444 && ValidWidth(e.bits) && Side(s)
    requires Fits(p, px, py, s, s) && Fits(q, qx, qy, s, s)
    requires SameContent(p, px, py, q, qx, qy, s)
    ensures SquareHash(p, e, px, py, s) == SquareHash(q, e, qx, qy, s)
    decreases s
  {
    hide CrcOf, Serialise, SampleByte, SameContent, PixelBytes, Block2x2Bytes;
    if s == 2 {
      BaseContent(p, px, py, q, qx, qy);
    } else {
      hide SquareHash, Valid, ValidWidth;
      SideHalf(s);
      var h := s / 2;
      QuarterContents(p, px, py, q, qx, qy, s);
      SquareHashByContent(e, p, px, py, q, qx, qy, h);
      SquareHashByContent(e, p, px + h, py, q, qx + h, qy, h);
      SquareHashByContent(e, p, px, py + h, q, qx, qy + h, h);
      SquareHashByContent(e, p, px + h, py + h, q, qx + h, qy + h, h);
      QuartersEqual(e, p, px, py, q, qx, qy, s);
    }
  }

  /** Squares with the same content have quarters with the same content. */
  lemma QuarterContents(p: Picture, px: nat, py: nat, q: Picture, qx: nat, qy: nat, s: nat)
    requires Valid(p) && Valid(q) && p.chroma444 == q.chroma444 && Side(s) && s > 2
    requires Fits(p, px, py, s, s) && Fits(q, qx, qy, s, s)
    requires SameContent(p, px, py, q, qx, qy, s)
    ensures Side(s / 2) && s == 2 * (s / 2)
    ensures var h := s / 2;
      && SameContent(p, px, py, q, qx, qy, h)
      && SameContent(p, px + h, py, q, qx + h, qy, h)
      && SameContent(p, px, py + h, q, qx, qy + h, h)
      && SameContent(p, px + h, py + h, q, qx + h, qy + h, h)
  {
    SideHalf(s);
    var h := s / 2;
    hide SameContent, Valid;
    SubContent(p, px, py, q, qx, qy, s, 0, 0, h);
    SubContent(p, px, py, q, qx, qy, s, h, 0, h);
    SubContent(p, px, py, q, qx, qy, s, 0, h, h);
    SubContent(p, px, py, q, qx, qy, s, h, h, h);
  }

  /** Two squares whose four quarters hash alike hash alike. */
  lemma QuartersEqual(e: CrcSpec, p: Picture, px: nat, py: nat, q: Picture, qx: nat, qy: nat, s: nat)
    requires Valid(p) && Valid(q) && ValidWidth(e.bits) && Side(s) && s > 2
    requires Fits(p, px, py, s, s) && Fits(q, qx, qy, s, s)
    requires Side(s / 2) && s == 2 * (s / 2)
    requires var h := s / 2;
      && SquareHash(p, e, px, py, h) == SquareHash(q, e, qx, qy, h)
      && SquareHash(p, e, px + h, py, h) == SquareHash(q, e, qx + h, qy, h)
      && SquareHash(p, e, px, py + h, h) == SquareHash(q, e, qx, qy + h, h)
      && SquareHash(p, e, px + h, py + h, h) == SquareHash(q, e, qx + h, qy + h, h)
    ensures SquareHash(p, e, px, py, s) == SquareHash(q, e, qx, qy, s)
  {
    SquareUnfold(p, e, px, py, s);
    SquareUnfold(q, e, qx, qy, s);
    hide *;
  }

  lemma BaseContent(p: Picture, px: nat, py: nat, q: Picture, qx: nat, qy: nat)
    requires Valid(p) && Valid(q) && p.chroma444 == q.chroma444
    requires Fits(p, px, py, 2, 2) && Fits(q, qx, qy, 2, 2)
    requires SameContent(p, px, py, q, qx, qy, 2)
    ensures Block2x2Bytes(p, px, py, p.chroma444) == Block2x2Bytes(q, qx, qy, q.chroma444)
  {
    hide PixelBytes;
    var all := p.chroma444;
    assert PixelBytes(p, px, py, all) == PixelBytes(q, qx, qy, all);
    assert PixelBytes(p, px + 1, py, all) == PixelBytes(q, qx + 1, qy, all);
    assert PixelBytes(p, px, py + 1, all) == PixelBytes(q, qx, qy + 1, all);
    assert PixelBytes(p, px + 1, py + 1, all) == PixelBytes(q, qx + 1, qy + 1, all);
  }

  /** Equal content of two squares carries over to their equally placed sub-squares. */
  lemma SubContent(p: Picture, px: nat, py: nat, q: Picture, qx: nat, qy: nat, s: nat,
                   ox: nat, oy: nat, t: nat)
    requires Valid(p) && Valid(q) && p.chroma444 == q.chroma444
    requires Fits(p, px, py, s, s) && Fits(q, qx, qy, s, s) && ox + t <= s && oy + t <= s
    requires SameContent(p, px, py, q, qx, qy, s)
    ensures SameContent(p, px + ox, py + oy, q, qx + ox, qy + oy, t)
  {
    hide PixelBytes;
    forall x, y | px + ox <= x < px + ox + t && py + oy <= y < py + oy + t
      ensures PixelBytes(p, x, y, p.chroma444)
           == PixelBytes(q, qx + ox + (x - (px + ox)), qy + oy + (y - (py + oy)), q.chroma444)
    {
      assert PixelBytes(p, x, y, p.chroma444) == PixelBytes(q, qx + (x - px), qy + (y - py), q.chroma444);
    }
  }

  // ---------------------------------------------------------------------
  // Uniformity flags.
  // ---------------------------------------------------------------------

  /** Two horizontally overlapping blocks with constant rows make one. */
  lemma RowJoin(pic: Picture, x: nat, y: nat, a: nat, d: nat, b: nat, h: nat, all: bool)
    requires Valid(pic) && (all ==> pic.chroma444)
    requires d < a <= d + b && Fits(pic, x, y, d + b, h)
    requires RowConst(pic, x, y, a, h, all) && RowConst(pic, x + d, y, b, h, all)
    ensures RowConst(pic, x, y, d + b, h, all)
  {
    hide PixelBytes;
    forall yy, xx | y <= yy < y + h && x <= xx && xx + 1 < x + d + b
      ensures PixelBytes(pic, xx, yy, all) == PixelBytes(pic, xx + 1, yy, all)
    {
      if xx + 1 >= x + a {
        assert x + d <= xx;
      }
    }
  }

  /** Constant rows carry over to any sub-block. */
  lemma RowSub(pic: Picture, x: nat, y: nat, w: nat, h: nat, x': nat, y': nat, w': nat, h': nat, all: bool)
    requires Valid(pic) && (all ==> pic.chroma444) && Fits(pic, x, y, w, h)
    requires x <= x' && x' + w' <= x + w && y <= y' && y' + h' <= y + h
    requires RowConst(pic, x, y, w, h, all)
    ensures RowConst(pic, x', y', w', h', all)
  {
    hide PixelBytes;
  }

  /** Constant columns carry over to any sub-block. */
  lemma ColSub(pic: Picture, x: nat, y: nat, w: nat, h: nat, x': nat, y': nat, w': nat, h': nat, all: bool)
    requires Valid(pic) && (all ==> pic.chroma444) && Fits(pic, x, y, w, h)
    requires x <= x' && x' + w' <= x + w && y <= y' && y' + h' <= y + h
    requires ColConst(pic, x, y, w, h, all)
    ensures ColConst(pic, x', y', w', h', all)
  {
    hide PixelBytes;
  }

  /** A block stacked on another, both with constant rows, has constant rows. */
  lemma RowStack(pic: Picture, x: nat, y: nat, w: nat, h1: nat, h2: nat, all: bool)
    requires Valid(pic) && (all ==> pic.chroma444) && Fits(pic, x, y, w, h1 + h2)
    requires RowConst(pic, x, y, w, h1, all) && RowConst(pic, x, y + h1, w, h2, all)
    ensures RowConst(pic, x, y, w, h1 + h2, all)
  {
    hide PixelBytes;
  }

  /** Two vertically overlapping blocks with constant columns make one. */
  lemma ColJoin(pic: Picture, x: nat, y: nat, w: nat, a: nat, d: nat, b: nat, all: bool)
    requires Valid(pic) && (all ==> pic.chroma444)
    requires d < a <= d + b && Fits(pic, x, y, w, d + b)
    requires ColConst(pic, x, y, w, a, all) && ColConst(pic, x, y + d, w, b, all)
    ensures ColConst(pic, x, y, w, d + b, all)
  {
    hide PixelBytes;
    forall yy, xx | y <= yy && yy + 1 < y + d + b && x <= xx < x + w
      ensures PixelBytes(pic, xx, yy, all) == PixelBytes(pic, xx, yy + 1, all)
    {
      if yy + 1 >= y + a {
        assert y + d <= yy;
      }
    }
  }

  /** A block beside another, both with constant columns, has constant columns. */
  lemma ColBeside(pic: Picture, x: nat, y: nat, w1: nat, w2: nat, h: nat, all: bool)
    requires Valid(pic) && (all ==> pic.chroma444) && Fits(pic, x, y, w1 + w2, h)
    requires ColConst(pic, x, y, w1, h, all) && ColConst(pic, x + w1, y, w2, h, all)
    ensures ColConst(pic, x, y, w1 + w2, h, all)
  {
    hide PixelBytes;
  }

  /**
   * A square's rows are constant iff those of its four quarters and of the two
   * quarter-offset middle squares are: the middle ones cover the column pair
   * where the left and right halves meet.
   */
  lemma SquareRowIff(pic: Picture, x: nat, y: nat, s: nat, all: bool)
    requires Valid(pic) && (all ==> pic.chroma444) && Side(s) && s > 2 && Fits(pic, x, y, s, s)
    ensures var h, q := s / 2, s / 4;
      RowConst(pic, x, y, s, s, all) <==>
        RowConst(pic, x, y, h, h, all) && RowConst(pic, x + q, y, h, h, all) && RowConst(pic, x + h, y, h, h, all) &&
        RowConst(pic, x, y + h, h, h, all) && RowConst(pic, x + q, y + h, h, h, all) &&
        RowConst(pic, x + h, y + h, h, h, all)
  {
    hide PixelBytes, RowConst;
    SideHalf(s);
    var h, q := s / 2, s / 4;
    if RowConst(pic, x, y, s, s, all) {
      RowSub(pic, x, y, s, s, x, y, h, h, all);
      RowSub(pic, x, y, s, s, x + q, y, h, h, all);
      RowSub(pic, x, y, s, s, x + h, y, h, h, all);
      RowSub(pic, x, y, s, s, x, y + h, h, h, all);
      RowSub(pic, x, y, s, s, x + q, y + h, h, h, all);
      RowSub(pic, x, y, s, s, x + h, y + h, h, h, all);
    }
    if RowConst(pic, x, y, h, h, all) && RowConst(pic, x + q, y, h, h, all) && RowConst(pic, x + h, y, h, h, all) &&
       RowConst(pic, x, y + h, h, h, all) && RowConst(pic, x + q, y + h, h, h, all) &&
       RowConst(pic, x + h, y + h, h, h, all) {
      RowJoin(pic, x, y, h, q, h, h, all);
      RowJoin(pic, x, y, q + h, h, h, h, all);
      RowJoin(pic, x, y + h, h, q, h, h, all);
      RowJoin(pic, x, y + h, q + h, h, h, h, all);
      RowStack(pic, x, y, s, h, h, all);
    }
  }

  /** The column counterpart of SquareRowIff, with quarter-offset middle squares vertically. */
  lemma SquareColIff(pic: Picture, x: nat, y: nat, s: nat, all: bool)
    requires Valid(pic) && (all ==> pic.chroma444) && Side(s) && s > 2 && Fits(pic, x, y, s, s)
    ensures var h, q := s / 2, s / 4;
      ColConst(pic, x, y, s, s, all) <==>
        ColConst(pic, x, y, h, h, all) && ColConst(pic, x + h, y, h, h, all) && ColConst(pic, x, y + q, h, h, all) &&
        ColConst(pic, x + h, y + q, h, h, all) && ColConst(pic, x, y + h, h, h, all) &&
        ColConst(pic, x + h, y + h, h, h, all)
  {
    hide PixelBytes, ColConst;
    SideHalf(s);
    var h, q := s / 2, s / 4;
    if ColConst(pic, x, y, s, s, all) {
      ColSub(pic, x, y, s, s, x, y, h, h, all);
      ColSub(pic, x, y, s, s, x + h, y, h, h, all);
      ColSub(pic, x, y, s, s, x, y + q, h, h, all);
      ColSub(pic, x, y, s, s, x + h, y + q, h, h, all);
      ColSub(pic, x, y, s, s, x, y + h, h, h, all);
      ColSub(pic, x, y, s, s, x + h, y + h, h, h, all);
    }
    if ColConst(pic, x, y, h, h, all) && ColConst(pic, x + h, y, h, h, all) && ColConst(pic, x, y + q, h, h, all) &&
       ColConst(pic, x + h, y + q, h, h, all) && ColConst(pic, x, y + h, h, h, all) &&
       ColConst(pic, x + h, y + h, h, h, all) {
      ColJoin(pic, x, y, h, h, q, h, all);
      ColJoin(pic, x, y, h, q + h, h, h, all);
      ColJoin(pic, x + h, y, h, h, q, h, all);
      ColJoin(pic, x + h, y, h, q + h, h, h, all);
      ColBeside(pic, x, y, h, h, s, all);
    }
  }

  /** Rows of a wide rectangle: its two squares and the square half a side in. */
  lemma WideRowIff(pic: Picture, x: nat, y: nat, h: nat, all: bool)
    requires Valid(pic) && (all ==> pic.chroma444) && Side(h) && Fits(pic, x, y, 2 * h, h)
    ensures RowConst(pic, x, y, 2 * h, h, all) <==>
      RowConst(pic, x, y, h, h, all) && RowConst(pic, x + (2 * h) / 4, y, h, h, all) && RowConst(pic, x + h, y, h, h, all)
  {
    hide PixelBytes, RowConst;
    var q := (2 * h) / 4;
    assert 1 <= q < h;
    if RowConst(pic, x, y, 2 * h, h, all) {
      RowSub(pic, x, y, 2 * h, h, x, y, h, h, all);
      RowSub(pic, x, y, 2 * h, h, x + q, y, h, h, all);
      RowSub(pic, x, y, 2 * h, h, x + h, y, h, h, all);
    }
    if RowConst(pic, x, y, h, h, all) && RowConst(pic, x + q, y, h, h, all) && RowConst(pic, x + h, y, h, h, all) {
      RowJoin(pic, x, y, h, q, h, h, all);
      RowJoin(pic, x, y, q + h, h, h, h, all);
    }
  }

  /** Columns of a wide rectangle: those of its two squares. */
  lemma WideColIff(pic: Picture, x: nat, y: nat, h: nat, all: bool)
    requires Valid(pic) && (all ==> pic.chroma444) && Side(h) && Fits(pic, x, y, 2 * h, h)
    ensures ColConst(pic, x, y, 2 * h, h, all) <==> ColConst(pic, x, y, h, h, all) && ColConst(pic, x + h, y, h, h, all)
  {
    hide PixelBytes, ColConst;
    if ColConst(pic, x, y, 2 * h, h, all) {
      ColSub(pic, x, y, 2 * h, h, x, y, h, h, all);
      ColSub(pic, x, y, 2 * h, h, x + h, y, h, h, all);
    }
    if ColConst(pic, x, y, h, h, all) && ColConst(pic, x + h, y, h, h, all) {
      ColBeside(pic, x, y, h, h, h, all);
    }
  }

  /** Rows of a tall rectangle: those of its two squares. */
  lemma TallRowIff(pic: Picture, x: nat, y: nat, w: nat, all: bool)
    requires Valid(pic) && (all ==> pic.chroma444) && Side(w) && Fits(pic, x, y, w, 2 * w)
    ensures RowConst(pic, x, y, w, 2 * w, all) <==> RowConst(pic, x, y, w, w, all) && RowConst(pic, x, y + w, w, w, all)
  {
    hide PixelBytes, RowConst;
    if RowConst(pic, x, y, w, 2 * w, all) {
      RowSub(pic, x, y, w, 2 * w, x, y, w, w, all);
      RowSub(pic, x, y, w, 2 * w, x, y + w, w, w, all);
    }
    if RowConst(pic, x, y, w, w, all) && RowConst(pic, x, y + w, w, w, all) {
      RowStack(pic, x, y, w, w, w, all);
    }
  }

  /** Columns of a tall rectangle: its two squares and the square half a side down. */
  lemma TallColIff(pic: Picture, x: nat, y: nat, w: nat, all: bool)
    requires Valid(pic) && (all ==> pic.chroma444) && Side(w) && Fits(pic, x, y, w, 2 * w)
    ensures ColConst(pic, x, y, w, 2 * w, all) <==>
      ColConst(pic, x, y, w, w, all) && ColConst(pic, x, y + (2 * w) / 4, w, w, all) && ColConst(pic, x, y + w, w, w, all)
  {
    hide PixelBytes, ColConst;
    var q := (2 * w) / 4;
    assert 1 <= q < w;
    if ColConst(pic, x, y, w, 2 * w, all) {
      ColSub(pic, x, y, w, 2 * w, x, y, w, w, all);
      ColSub(pic, x, y, w, 2 * w, x, y + q, w, w, all);
      ColSub(pic, x, y, w, 2 * w, x, y + w, w, w, all);
    }
    if ColConst(pic, x, y, w, w, all) && ColConst(pic, x, y + q, w, w, all) && ColConst(pic, x, y + w, w, w, all) {
      ColJoin(pic, x, y, w, w, q, w, all);
      ColJoin(pic, x, y, w, q + w, w, w, all);
    }
  }

  /**
   * The insertion flag: a block is entered into the table unless it is
   * constant along its rows or along its columns, and then still when it
   * lies on the block-size grid.
   */
  ghost predicate Addable(pic: Picture, x: nat, y: nat, w: nat, h: nat)
    requires Valid(pic) && Fits(pic, x, y, w, h) && w >= 1 && h >= 1
  {
    (!RowConst(pic, x, y, w, h, pic.chroma444) && !ColConst(pic, x, y, w, h, pic.chroma444)) ||
    (x % w == 0 && y % h == 0)
  }
}
