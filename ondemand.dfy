// The single-block hasher.
//
// `getBlockHashValue` hashes one block without the frame-sized arrays of the
// bulk pass: it samples the block's 2x2 squares into a small grid, combines
// four neighbouring cells of the grid into one cell of the next grid until
// the grid's cells are as large as the block's shorter side, and for a 2:1 or
// 1:2 block combines the last two cells.  The two grids of a level are
// `hashValueBuffer[.][srcIdx]` and `hashValueBuffer[.][dstIdx]`, which swap
// roles at every level.
//
// The method is proved to return the hashes `BlockHashOf` states, which are
// the hashes the bulk pass stores for the same position.

module OnDemand {
  import opened Bits
  import opened Crc
  import opened Picture
  import opened HashSpec
  import opened HashTable
  import opened Pyramid

  // ---------------------------------------------------------------------
  // Grids of square hashes.
  // ---------------------------------------------------------------------

  /** The coordinate of the c-th square of side s counted from x0. */
  function Corner(x0: nat, c: nat, s: nat): nat
  {
    x0 + c * s
  }

  /** The column of grid index t in a grid gw cells wide. */
  function Col(t: nat, gw: nat): nat
  {
    if gw == 0 then 0 else t % gw
  }

  /** The row of grid index t in a grid gw cells wide. */
  function Row(t: nat, gw: nat): nat
  {
    if gw == 0 then 0 else t / gw
  }

  /** The hash of the s x s square at (x, y), where there is one. */
  ghost function CellHash(pic: Picture, e: CrcSpec, x: nat, y: nat, s: nat): Word
    requires Valid(pic) && ValidWidth(e.bits)
  {
    if Side(s) && Fits(pic, x, y, s, s) then BlockHashOf(pic, e, x, y, s, s) else Zeros(32)
  }

  /**
   * The hashes of a gw x gh grid of s x s squares whose top-left square is
   * at (x0, y0), in raster order: cell (c, r) at index r * gw + c.
   */
  ghost function GridWant(pic: Picture, e: CrcSpec, x0: nat, y0: nat, gw: nat, gh: nat, s: nat): (r: seq<Word>)
    requires Valid(pic) && ValidWidth(e.bits)
    ensures |r| == gw * gh
  {
    seq(gw * gh, t requires 0 <= t < gw * gh =>
      CellHash(pic, e, Corner(x0, Col(t, gw), s), Corner(y0, Row(t, gw), s), s))
  }

  /** The first n cells of `a` hold the first n cells of `want`, and `a` has room for all of it. */
  ghost predicate Filled(a: array<Word>, want: seq<Word>, n: nat)
    reads a
  {
    n <= |want| <= a.Length && forall t :: 0 <= t < n ==> a[t] == want[t]
  }

  lemma FilledAt(a: array<Word>, want: seq<Word>, n: nat, t: nat)
    requires Filled(a, want, n) && t < n
    ensures t < |want| <= a.Length && a[t] == want[t]
  {
  }

  /** Cell (c, r) of a gw x gh grid sits at index Pos(gw, c, r), inside the grid. */
  lemma CellIndex(gw: nat, gh: nat, c: nat, r: nat)
    requires c < gw && r < gh
    ensures Pos(gw, c, r) < gw * gh && Col(Pos(gw, c, r), gw) == c && Row(Pos(gw, c, r), gw) == r
  {
    Loc(gw, c, r);
    MulAtLeastBy(gw, gh, r + 1);
  }

  /** The c-th square of a row of n squares of side s ends inside the row. */
  lemma CornerFits(x0: nat, c: nat, s: nat, n: nat)
    requires c < n
    ensures Corner(x0, c, s) + s <= x0 + n * s
  {
    MulAtLeastBy(s, n, c + 1);
  }

  /** Squares 2c and 2c + 1 of side s are the two halves of square c of side 2s. */
  lemma CornerHalves(x0: nat, c: nat, s: nat)
    ensures Corner(x0, 2 * c, s) == Corner(x0, c, 2 * s)
    ensures Corner(x0, 2 * c + 1, s) == Corner(x0, c, 2 * s) + s
  {
  }

  /** Cell (c, r) of a grid that lies inside the picture is the hash of its square. */
  lemma GridAt(pic: Picture, e: CrcSpec, x0: nat, y0: nat, gw: nat, gh: nat, s: nat, c: nat, r: nat)
    requires Valid(pic) && ValidWidth(e.bits) && Side(s) && c < gw && r < gh
    requires Fits(pic, x0, y0, gw * s, gh * s)
    ensures Pos(gw, c, r) < gw * gh
    ensures Fits(pic, Corner(x0, c, s), Corner(y0, r, s), s, s)
    ensures GridWant(pic, e, x0, y0, gw, gh, s)[Pos(gw, c, r)] ==
            BlockHashOf(pic, e, Corner(x0, c, s), Corner(y0, r, s), s, s)
  {
    hide GridWant, CellHash, BlockHashOf, Corner, Pos, Col, Row;
    CellIndex(gw, gh, c, r);
    CornerFits(x0, c, s, gw);
    CornerFits(y0, r, s, gh);
    GridCell(pic, e, x0, y0, gw, gh, s, Pos(gw, c, r));
    CellHashIs(pic, e, Corner(x0, c, s), Corner(y0, r, s), s);
  }

  lemma GridCell(pic: Picture, e: CrcSpec, x0: nat, y0: nat, gw: nat, gh: nat, s: nat, t: nat)
    requires Valid(pic) && ValidWidth(e.bits) && t < gw * gh
    ensures GridWant(pic, e, x0, y0, gw, gh, s)[t] ==
            CellHash(pic, e, Corner(x0, Col(t, gw), s), Corner(y0, Row(t, gw), s), s)
  {
  }

  lemma CellHashIs(pic: Picture, e: CrcSpec, x: nat, y: nat, s: nat)
    requires Valid(pic) && ValidWidth(e.bits) && Side(s) && Fits(pic, x, y, s, s)
    ensures CellHash(pic, e, x, y, s) == BlockHashOf(pic, e, x, y, s, s)
  {
  }

  /** Writing the wanted value at cell n extends the filled prefix by one cell. */
  method Store(a: array<Word>, n: nat, v: Word, ghost want: seq<Word>)
    requires Filled(a, want, n) && n < |want| && v == want[n]
    modifies a
    ensures Filled(a, want, n + 1)
  {
    a[n] := v;
  }

  lemma SideDouble(s: nat)
    requires Side(s)
    ensures Side(2 * s) && 2 * s > 2 && (2 * s) / 2 == s
  {
  }

  /** A quotient of two powers of two, the divisor at most half the dividend, is even. */
  lemma {:induction false} Pow2Quotient(a: nat, b: nat, q: nat)
    requires IsPow2(a) && IsPow2(b) && q * b == a && a >= 2 * b
    ensures q % 2 == 0 && q >= 2
    decreases b
  {
    if b == 1 {
      assert q == a;
    } else {
      assert b % 2 == 0 && a % 2 == 0;
      assert q * (b / 2) * 2 == a;
      Pow2Quotient(a / 2, b / 2, q);
    }
  }

  /** A power of two lying between b and 2b, b a power of two, is b. */
  lemma {:induction false} Pow2Squeeze(a: nat, b: nat)
    requires IsPow2(a) && IsPow2(b) && b <= a < 2 * b
    ensures a == b
    decreases b
  {
    if b > 1 {
      assert a % 2 == 0 && b % 2 == 0;
      Pow2Squeeze(a / 2, b / 2);
    }
  }

  /** Halving the cell count along a side while doubling the cell side keeps the side's length. */
  lemma HalfDouble(q: nat, s: nat)
    requires q % 2 == 0
    ensures (q / 2) * (2 * s) == q * s
  {
  }

  /** The hash of a 2x2 square is the checksum of its samples. */
  lemma Base2x2Hash(pic: Picture, e: CrcSpec, x: nat, y: nat)
    requires Valid(pic) && ValidWidth(e.bits) && Fits(pic, x, y, 2, 2)
    ensures Shape(2, 2) && BlockHashOf(pic, e, x, y, 2, 2) == CrcOf(e, Block2x2Bytes(pic, x, y, pic.chroma444))
  {
    Shape2x2();
  }

  /**
   * Cell (c, r) of the next grid, whose cells have side 2s, is the checksum of
   * the four cells of this grid that make up its square: (2c, 2r), (2c+1, 2r),
   * (2c, 2r+1) and (2c+1, 2r+1), read at offsets 0, 1, gw and gw + 1 from
   * position i of cell (2c, 2r).
   */
  lemma LevelCell(pic: Picture, e: CrcSpec, src: array<Word>, x0: nat, y0: nat, gw: nat, gh: nat, s: nat,
                  c: nat, r: nat, i: nat)
    requires Valid(pic) && ValidWidth(e.bits) && Side(s) && gw % 2 == 0 && gh % 2 == 0
    requires c < gw / 2 && r < gh / 2 && Fits(pic, x0, y0, gw * s, gh * s)
    requires Filled(src, GridWant(pic, e, x0, y0, gw, gh, s), gw * gh) && i == Pos(gw, 2 * c, 2 * r)
    ensures i + gw + 1 < src.Length
    ensures Pos(gw / 2, c, r) < (gw / 2) * (gh / 2)
    ensures CrcOf(e, Serialise([src[i], src[i + 1], src[i + gw], src[i + gw + 1]]))
            == GridWant(pic, e, x0, y0, gw / 2, gh / 2, 2 * s)[Pos(gw / 2, c, r)]
  {
    hide *;
    var want := GridWant(pic, e, x0, y0, gw, gh, s);
    SideDouble(s);
    HalfDouble(gw, s);
    HalfDouble(gh, s);
    GridAt(pic, e, x0, y0, gw / 2, gh / 2, 2 * s, c, r);
    GridAt(pic, e, x0, y0, gw, gh, s, 2 * c, 2 * r);
    GridAt(pic, e, x0, y0, gw, gh, s, 2 * c + 1, 2 * r);
    GridAt(pic, e, x0, y0, gw, gh, s, 2 * c, 2 * r + 1);
    GridAt(pic, e, x0, y0, gw, gh, s, 2 * c + 1, 2 * r + 1);
    CornerHalves(x0, c, s);
    CornerHalves(y0, r, s);
    PosRight(gw, 2 * c, 2 * r, 1);
    PosDown(gw, 2 * c, 2 * r, 1);
    PosRight(gw, 2 * c, 2 * r + 1, 1);
    FilledAt(src, want, gw * gh, i);
    FilledAt(src, want, gw * gh, i + 1);
    FilledAt(src, want, gw * gh, i + gw);
    FilledAt(src, want, gw * gh, i + gw + 1);
    SquareJoin(pic, e, Corner(x0, c, 2 * s), Corner(y0, r, 2 * s), 2 * s);
  }

  /** A single-cell grid of side s holds the hash of the s x s block. */
  lemma SquareFinal(pic: Picture, e: CrcSpec, src: array<Word>, x0: nat, y0: nat, s: nat)
    requires Valid(pic) && ValidWidth(e.bits) && Side(s) && Fits(pic, x0, y0, s, s)
    requires Filled(src, GridWant(pic, e, x0, y0, 1, 1, s), 1)
    ensures Shape(s, s) && 1 <= src.Length && src[0] == BlockHashOf(pic, e, x0, y0, s, s)
  {
    hide *;
    GridAt(pic, e, x0, y0, 1, 1, s, 0, 0);
    PosAt(1, 0, 0);
    CornerAt(x0, 0, s);
    CornerAt(y0, 0, s);
    FilledAt(src, GridWant(pic, e, x0, y0, 1, 1, s), 1, 0);
    SquareIsBlock(pic, e, x0, y0, s);
  }

  /** A 2 x 1 grid of squares of side h hashes, left then right, into the 2h x h block. */
  lemma WideFinal(pic: Picture, e: CrcSpec, src: array<Word>, x0: nat, y0: nat, h: nat)
    requires Valid(pic) && ValidWidth(e.bits) && Side(h) && Fits(pic, x0, y0, 2 * h, h)
    requires Filled(src, GridWant(pic, e, x0, y0, 2, 1, h), 2)
    ensures Shape(2 * h, h) && 2 <= src.Length
    ensures CrcOf(e, Serialise([src[0], src[1]])) == BlockHashOf(pic, e, x0, y0, 2 * h, h)
  {
    hide *;
    GridAt(pic, e, x0, y0, 2, 1, h, 0, 0);
    GridAt(pic, e, x0, y0, 2, 1, h, 1, 0);
    PosAt(2, 0, 0);
    PosAt(2, 1, 0);
    CornerAt(x0, 0, h);
    CornerAt(x0, 1, h);
    CornerAt(y0, 0, h);
    FilledAt(src, GridWant(pic, e, x0, y0, 2, 1, h), 2, 0);
    FilledAt(src, GridWant(pic, e, x0, y0, 2, 1, h), 2, 1);
    WideParts(pic, x0, y0, h);
    WideJoin(pic, e, x0, y0, h);
  }

  /** A 1 x 2 grid of squares of side w hashes, top then bottom, into the w x 2w block. */
  lemma TallFinal(pic: Picture, e: CrcSpec, src: array<Word>, x0: nat, y0: nat, w: nat)
    requires Valid(pic) && ValidWidth(e.bits) && Side(w) && Fits(pic, x0, y0, w, 2 * w)
    requires Filled(src, GridWant(pic, e, x0, y0, 1, 2, w), 2)
    ensures Shape(w, 2 * w) && 2 <= src.Length
    ensures CrcOf(e, Serialise([src[0], src[1]])) == BlockHashOf(pic, e, x0, y0, w, 2 * w)
  {
    hide *;
    GridAt(pic, e, x0, y0, 1, 2, w, 0, 0);
    GridAt(pic, e, x0, y0, 1, 2, w, 0, 1);
    PosAt(1, 0, 0);
    PosAt(1, 0, 1);
    CornerAt(x0, 0, w);
    CornerAt(y0, 0, w);
    CornerAt(y0, 1, w);
    FilledAt(src, GridWant(pic, e, x0, y0, 1, 2, w), 2, 0);
    FilledAt(src, GridWant(pic, e, x0, y0, 1, 2, w), 2, 1);
    TallParts(pic, x0, y0, w);
    TallJoin(pic, e, x0, y0, w);
  }

  lemma PosAt(width: nat, x: nat, y: nat)
    ensures Pos(width, x, y) == y * width + x
  {
  }

  lemma CornerAt(x0: nat, c: nat, s: nat)
    ensures Corner(x0, c, s) == x0 + c * s
  {
  }

  /** Nothing is claimed of an empty prefix. */
  lemma FilledStart(a: array<Word>, want: seq<Word>)
    requires |want| <= a.Length
    ensures Filled(a, want, 0)
  {
  }

  /** A grid halved along both sides has at most as many cells. */
  lemma QuarterSize(a: nat, b: nat)
    ensures a * b <= (2 * a) * (2 * b)
  {
  }

  /** The 2x2 squares of a block of even sides, and the first grid's size. */
  lemma BlockCount(width: nat, height: nat)
    requires Side(width) && Side(height)
    ensures width % 2 == 0 && height % 2 == 0
    ensures (width * height) / 4 == (width / 2) * (height / 2)
  {
    SideOrTwo(width);
    SideOrTwo(height);
    var a, b := width / 2, height / 2;
    assert width * height == 4 * (a * b);
  }

  lemma SideOrTwo(s: nat)
    requires Side(s)
    ensures s % 2 == 0 && s == 2 * (s / 2)
  {
  }

  /** The shorter side of a block; for a square, both sides. */
  lemma MinSizeIs(width: nat, height: nat, minSize: nat)
    requires Shape(width, height) && minSize == (if height < width then height else width)
    ensures IsPow2(minSize) && minSize <= width && minSize <= height && IsPow2(width) && IsPow2(height)
    ensures width == height ==> minSize == width
    ensures width == 2 * height ==> minSize == height
    ensures height == 2 * width ==> minSize == width
  {
  }

  /** When the level loop stops, the grid is one cell, or two cells along the block's longer side. */
  lemma FinalGrid(width: nat, height: nat, side: nat, gw: nat, gh: nat)
    requires Shape(width, height) && side >= 1 && gw * side == width && gh * side == height
    requires side == (if height < width then height else width)
    ensures width == height ==> gw == 1 && gh == 1
    ensures width == 2 * height ==> gw == 2 && gh == 1
    ensures height == 2 * width ==> gw == 1 && gh == 2
  {
    if width == height {
      assert gw * side == 1 * side && gh * side == 1 * side;
    } else if width == 2 * height {
      assert gw * side == 2 * side && gh * side == 1 * side;
    } else if height == 2 * width {
      assert gw * side == 1 * side && gh * side == 2 * side;
    }
  }

  /** The bucket key as the code computes it. */
  lemma KeyIs(crcBits: nat, idx: nat, h: Word)
    ensures Key(crcBits, idx, h) == BitAnd(Value(h), Pow2(crcBits) - 1) + idx * Pow2(crcBits)
  {
  }

  // ---------------------------------------------------------------------
  // The passes of `getBlockHashValue`.
  // ---------------------------------------------------------------------

  /** One 2x2 square of the block sampled and hashed with both engines into cell pos of the first grids. */
  method Cell2x2(pic: Picture, crc1: CrcCalculator, crc2: CrcCalculator, p: array<Byte>, x0: nat, y0: nat,
                 gw: nat, ghost gh: nat, xPos: nat, yPos: nat, pos: nat, dst1: array<Word>, dst2: array<Word>)
    requires Valid(pic) && crc1.Valid() && crc2.Valid()
    requires xPos % 2 == 0 && yPos % 2 == 0 && xPos / 2 < gw && yPos / 2 < gh
    requires Fits(pic, x0, y0, gw * 2, gh * 2) && pos == Pos(gw, xPos / 2, yPos / 2)
    requires p.Length == 4 * Comps(pic.chroma444)
    requires dst1 != dst2 && {dst1, dst2} !! {crc1.table, crc2.table}
    requires Filled(dst1, GridWant(pic, crc1.Spec(), x0, y0, gw, gh, 2), pos)
    requires Filled(dst2, GridWant(pic, crc2.Spec(), x0, y0, gw, gh, 2), pos)
    modifies crc1, crc2, p, dst1, dst2
    ensures crc1.Valid() && crc2.Valid()
    ensures Filled(dst1, GridWant(pic, crc1.Spec(), x0, y0, gw, gh, 2), pos + 1)
    ensures Filled(dst2, GridWant(pic, crc2.Spec(), x0, y0, gw, gh, 2), pos + 1)
  {
    hide *;
    WidthOf(crc1);
    WidthOf(crc2);
    ghost var want1, want2 := GridWant(pic, crc1.Spec(), x0, y0, gw, gh, 2), GridWant(pic, crc2.Spec(), x0, y0, gw, gh, 2);
    Shape2x2();
    ShapeSides(2, 2);
    GridAt(pic, crc1.Spec(), x0, y0, gw, gh, 2, xPos / 2, yPos / 2);
    GridAt(pic, crc2.Spec(), x0, y0, gw, gh, 2, xPos / 2, yPos / 2);
    CornerAt(x0, xPos / 2, 2);
    CornerAt(y0, yPos / 2, 2);
    var x, y := x0 + xPos, y0 + yPos;
    Base2x2Hash(pic, crc1.Spec(), x, y);
    Base2x2Hash(pic, crc2.Spec(), x, y);
    FitsIs(pic, x, y, 2, 2);
    GetPixelsIn1DCharArrayByBlock2x2(pic, p, x, y, pic.chroma444);
    var v1 := GetCrcValue(crc1, p[..]);
    Store(dst1, pos, v1, want1);
    var v2 := GetCrcValue(crc2, p[..]);
    Store(dst2, pos, v2, want2);
  }

  lemma FitsIs(pic: Picture, x: nat, y: nat, w: nat, h: nat)
    requires Fits(pic, x, y, w, h)
    ensures x + w <= pic.width && y + h <= pic.height
  {
  }

  /** One row of the first loop pair: the 2x2 squares of one pair of sample rows. */
  method Sample2x2Row(pic: Picture, crc1: CrcCalculator, crc2: CrcCalculator, p: array<Byte>,
                      xStart: nat, yStart: nat, width: nat, height: nat, dst1: array<Word>, dst2: array<Word>,
                      yPos: nat, ghost r: nat)
    requires Valid(pic) && crc1.Valid() && crc2.Valid()
    requires width % 2 == 0 && height % 2 == 0 && Fits(pic, xStart, yStart, width, height)
    requires p.Length == 4 * Comps(pic.chroma444)
    requires dst1 != dst2 && {dst1, dst2} !! {crc1.table, crc2.table}
    requires yPos == 2 * r && r < height / 2
    requires Filled(dst1, GridWant(pic, crc1.Spec(), xStart, yStart, width / 2, height / 2, 2), Pos(width / 2, 0, r))
    requires Filled(dst2, GridWant(pic, crc2.Spec(), xStart, yStart, width / 2, height / 2, 2), Pos(width / 2, 0, r))
    modifies crc1, crc2, p, dst1, dst2
    ensures crc1.Valid() && crc2.Valid()
    ensures Filled(dst1, GridWant(pic, crc1.Spec(), xStart, yStart, width / 2, height / 2, 2), Pos(width / 2, 0, r + 1))
    ensures Filled(dst2, GridWant(pic, crc2.Spec(), xStart, yStart, width / 2, height / 2, 2), Pos(width / 2, 0, r + 1))
  {
    hide *;
    WidthOf(crc1);
    WidthOf(crc2);
    var subBlockInWidth := width / 2;
    ghost var gh := height / 2;
    ghost var want1 := GridWant(pic, crc1.Spec(), xStart, yStart, subBlockInWidth, gh, 2);
    ghost var want2 := GridWant(pic, crc2.Spec(), xStart, yStart, subBlockInWidth, gh, 2);
    assert subBlockInWidth * 2 == width && gh * 2 == height;
    var xPos := 0;
    ghost var c := 0;
    while xPos < width
      invariant xPos == 2 * c && c <= subBlockInWidth
      invariant crc1.Valid() && crc2.Valid()
      invariant Filled(dst1, want1, Pos(subBlockInWidth, c, r)) && Filled(dst2, want2, Pos(subBlockInWidth, c, r))
    {
      var pos := (yPos / 2) * subBlockInWidth + (xPos / 2);
      PosAt(subBlockInWidth, c, r);
      Cell2x2(pic, crc1, crc2, p, xStart, yStart, subBlockInWidth, gh, xPos, yPos, pos, dst1, dst2);
      PosNext(subBlockInWidth, c, r);
      xPos, c := xPos + 2, c + 1;
    }
    PosRowEnd(subBlockInWidth, r, 1);
  }

  /** The first loop pair: every 2x2 square of the block hashed into the grids of side 2. */
  method Sample2x2(pic: Picture, crc1: CrcCalculator, crc2: CrcCalculator, p: array<Byte>,
                   xStart: nat, yStart: nat, width: nat, height: nat, dst1: array<Word>, dst2: array<Word>)
    requires Valid(pic) && crc1.Valid() && crc2.Valid()
    requires width % 2 == 0 && height % 2 == 0 && Fits(pic, xStart, yStart, width, height)
    requires p.Length == 4 * Comps(pic.chroma444)
    requires (width / 2) * (height / 2) <= dst1.Length && (width / 2) * (height / 2) <= dst2.Length
    requires dst1 != dst2 && {dst1, dst2} !! {crc1.table, crc2.table}
    modifies crc1, crc2, p, dst1, dst2
    ensures crc1.Valid() && crc2.Valid()
    ensures Filled(dst1, GridWant(pic, crc1.Spec(), xStart, yStart, width / 2, height / 2, 2), (width / 2) * (height / 2))
    ensures Filled(dst2, GridWant(pic, crc2.Spec(), xStart, yStart, width / 2, height / 2, 2), (width / 2) * (height / 2))
  {
    hide *;
    WidthOf(crc1);
    WidthOf(crc2);
    var subBlockInWidth := width / 2;
    ghost var gh := height / 2;
    ghost var want1 := GridWant(pic, crc1.Spec(), xStart, yStart, subBlockInWidth, gh, 2);
    ghost var want2 := GridWant(pic, crc2.Spec(), xStart, yStart, subBlockInWidth, gh, 2);
    assert subBlockInWidth * 2 == width && gh * 2 == height;
    FilledStart(dst1, want1);
    FilledStart(dst2, want2);
    PosAt(subBlockInWidth, 0, 0);
    var yPos := 0;
    ghost var r := 0;
    while yPos < height
      invariant yPos == 2 * r && r <= gh
      invariant crc1.Valid() && crc2.Valid()
      invariant Filled(dst1, want1, Pos(subBlockInWidth, 0, r)) && Filled(dst2, want2, Pos(subBlockInWidth, 0, r))
    {
      Sample2x2Row(pic, crc1, crc2, p, xStart, yStart, width, height, dst1, dst2, yPos, r);
      yPos, r := yPos + 2, r + 1;
    }
    PosAt(subBlockInWidth, 0, gh);
  }

  /** One cell of the next grid under one engine: its four source cells read, hashed and stored. */
  method LevelPut(pic: Picture, crc: CrcCalculator, src: array<Word>, dst: array<Word>, x0: nat, y0: nat,
                  srcSubBlockInWidth: nat, ghost srcH: nat, ghost s: nat, xPos: nat, yPos: nat, srcPos: nat, dstPos: nat)
    requires Valid(pic) && crc.Valid() && Side(s) && srcSubBlockInWidth % 2 == 0 && srcH % 2 == 0
    requires xPos < srcSubBlockInWidth / 2 && yPos < srcH / 2
    requires Fits(pic, x0, y0, srcSubBlockInWidth * s, srcH * s)
    requires Filled(src, GridWant(pic, crc.Spec(), x0, y0, srcSubBlockInWidth, srcH, s), srcSubBlockInWidth * srcH)
    requires srcPos == Pos(srcSubBlockInWidth, 2 * xPos, 2 * yPos) && dstPos == Pos(srcSubBlockInWidth / 2, xPos, yPos)
    requires dst != src && dst != crc.table
    requires Filled(dst, GridWant(pic, crc.Spec(), x0, y0, srcSubBlockInWidth / 2, srcH / 2, 2 * s), dstPos)
    modifies crc, dst
    ensures crc.Valid()
    ensures Filled(dst, GridWant(pic, crc.Spec(), x0, y0, srcSubBlockInWidth / 2, srcH / 2, 2 * s), dstPos + 1)
  {
    hide *;
    WidthOf(crc);
    LevelCell(pic, crc.Spec(), src, x0, y0, srcSubBlockInWidth, srcH, s, xPos, yPos, srcPos);
    var toHash := [src[srcPos], src[srcPos + 1], src[srcPos + srcSubBlockInWidth], src[srcPos + srcSubBlockInWidth + 1]];
    var v := GetCrcValue(crc, Serialise(toHash));
    Store(dst, dstPos, v, GridWant(pic, crc.Spec(), x0, y0, srcSubBlockInWidth / 2, srcH / 2, 2 * s));
  }

  /** One level of the level loop: the grids of side 2s computed from the grids of side s. */
  method LevelPass(pic: Picture, crc1: CrcCalculator, crc2: CrcCalculator, x0: nat, y0: nat,
                   src1: array<Word>, src2: array<Word>, dst1: array<Word>, dst2: array<Word>,
                   srcSubBlockInWidth: nat, subBlockInWidth: nat, subBlockInHeight: nat, ghost srcH: nat, ghost s: nat)
    requires Valid(pic) && crc1.Valid() && crc2.Valid() && Side(s)
    requires srcSubBlockInWidth == 2 * subBlockInWidth && srcH == 2 * subBlockInHeight
    requires Fits(pic, x0, y0, srcSubBlockInWidth * s, srcH * s)
    requires Filled(src1, GridWant(pic, crc1.Spec(), x0, y0, srcSubBlockInWidth, srcH, s), srcSubBlockInWidth * srcH)
    requires Filled(src2, GridWant(pic, crc2.Spec(), x0, y0, srcSubBlockInWidth, srcH, s), srcSubBlockInWidth * srcH)
    requires dst1.Length == src1.Length && dst2.Length == src2.Length
    requires dst1 != src1 && dst1 != src2 && dst2 != src1 && dst2 != src2 && dst1 != dst2
    requires {dst1, dst2} !! {crc1.table, crc2.table}
    modifies crc1, crc2, dst1, dst2
    ensures crc1.Valid() && crc2.Valid()
    ensures Filled(dst1, GridWant(pic, crc1.Spec(), x0, y0, subBlockInWidth, subBlockInHeight, 2 * s),
                   subBlockInWidth * subBlockInHeight)
    ensures Filled(dst2, GridWant(pic, crc2.Spec(), x0, y0, subBlockInWidth, subBlockInHeight, 2 * s),
                   subBlockInWidth * subBlockInHeight)
  {
    hide *;
    WidthOf(crc1);
    WidthOf(crc2);
    ghost var want1 := GridWant(pic, crc1.Spec(), x0, y0, subBlockInWidth, subBlockInHeight, 2 * s);
    ghost var want2 := GridWant(pic, crc2.Spec(), x0, y0, subBlockInWidth, subBlockInHeight, 2 * s);
    ghost var src1Want := GridWant(pic, crc1.Spec(), x0, y0, srcSubBlockInWidth, srcH, s);
    ghost var src2Want := GridWant(pic, crc2.Spec(), x0, y0, srcSubBlockInWidth, srcH, s);
    QuarterSize(subBlockInWidth, subBlockInHeight);
    FilledBound(src1, src1Want, srcSubBlockInWidth * srcH);
    FilledBound(src2, src2Want, srcSubBlockInWidth * srcH);
    FilledStart(dst1, want1);
    FilledStart(dst2, want2);
    PosAt(subBlockInWidth, 0, 0);
    var dstPos := 0;
    var yPos := 0;
    while yPos < subBlockInHeight
      invariant yPos <= subBlockInHeight && dstPos == Pos(subBlockInWidth, 0, yPos)
      invariant crc1.Valid() && crc2.Valid()
      invariant Filled(dst1, want1, dstPos) && Filled(dst2, want2, dstPos)
    {
      var xPos := 0;
      while xPos < subBlockInWidth
        invariant xPos <= subBlockInWidth && dstPos == Pos(subBlockInWidth, xPos, yPos)
        invariant crc1.Valid() && crc2.Valid()
        invariant Filled(dst1, want1, dstPos) && Filled(dst2, want2, dstPos)
      {
        var srcPos := (yPos * 2) * srcSubBlockInWidth + (xPos * 2);
        PosAt(srcSubBlockInWidth, 2 * xPos, 2 * yPos);
        LevelPut(pic, crc1, src1, dst1, x0, y0, srcSubBlockInWidth, srcH, s, xPos, yPos, srcPos, dstPos);
        LevelPut(pic, crc2, src2, dst2, x0, y0, srcSubBlockInWidth, srcH, s, xPos, yPos, srcPos, dstPos);
        PosNext(subBlockInWidth, xPos, yPos);
        dstPos := dstPos + 1;
        xPos := xPos + 1;
      }
      PosRowEnd(subBlockInWidth, yPos, 1);
      yPos := yPos + 1;
    }
    PosAt(subBlockInWidth, 0, subBlockInHeight);
  }

  lemma FilledBound(a: array<Word>, want: seq<Word>, n: nat)
    requires Filled(a, want, n)
    ensures n <= |want| <= a.Length
  {
  }

  /**
   * `getBlockHashValue`: the bucket key and the secondary hash of the
   * width x height block at (xStart, yStart), computed from the block alone.
   * A size with no size class is the code's first `CHECK`, reported here as
   * `ok == false` with both engines left as they were.  Its two other `CHECK`s (a rectangle that is neither 2:1
   * nor 1:2, a 1:2 rectangle whose grid is not one cell wide) are proved
   * never to fire.
   */
  method GetBlockHashValue(pic: Picture, width: nat, height: nat, xStart: nat, yStart: nat,
                           crc1: CrcCalculator, crc2: CrcCalculator, crcBits: nat, sizeIndex: array2<int>)
    returns (ok: bool, hashValue1: nat, hashValue2: Word)
    requires Valid(pic) && crc1.Valid() && crc2.Valid() && SizeIndexTable(sizeIndex)
    requires width < 65 && height < 65 && Fits(pic, xStart, yStart, width, height)
    modifies crc1, crc2
    ensures crc1.Valid() && crc2.Valid()
    ensures ok == (SizeIndexOf(width, height) >= 0)
    ensures !ok ==> unchanged(crc1, crc2)
    ensures ok ==> && Shape(width, height) && ValidWidth(crc1.Spec().bits) && ValidWidth(crc2.Spec().bits)
                   && hashValue1 == Key(crcBits, SizeIndexOf(width, height),
                                        BlockHashOf(pic, crc1.Spec(), xStart, yStart, width, height))
                   && hashValue2 == BlockHashOf(pic, crc2.Spec(), xStart, yStart, width, height)
  {
    hide *;
    SizeIndexAt(sizeIndex, width, height);
    var addValue := sizeIndex[width, height];
    if addValue < 0 {
      return false, 0, Zeros(32);
    }
    ghost var idx: nat := addValue;
    SizeIndexShape(width, height);
    ShapeSides(width, height);
    addValue := addValue * Pow2(crcBits);
    var crcMask := Pow2(crcBits) - 1;
    var h1, h2 := BlockHashes(pic, crc1, crc2, xStart, yStart, width, height);
    KeyIs(crcBits, idx, h1);
    hashValue1 := BitAnd(Value(h1), crcMask) + addValue;
    hashValue2 := h2;
    ok := true;
  }

  /**
   * The block's hash under each engine, computed as `getBlockHashValue`
   * does once the size class is known: the 2x2 loop, the level loop and the
   * rectangle step.
   */
  method BlockHashes(pic: Picture, crc1: CrcCalculator, crc2: CrcCalculator, xStart: nat, yStart: nat,
                     width: nat, height: nat)
    returns (h1: Word, h2: Word)
    requires Valid(pic) && crc1.Valid() && crc2.Valid() && Shape(width, height) && width >= 4 && height >= 4
    requires Fits(pic, xStart, yStart, width, height)
    modifies crc1, crc2
    ensures crc1.Valid() && crc2.Valid() && ValidWidth(crc1.Spec().bits) && ValidWidth(crc2.Spec().bits)
    ensures h1 == BlockHashOf(pic, crc1.Spec(), xStart, yStart, width, height)
    ensures h2 == BlockHashOf(pic, crc2.Spec(), xStart, yStart, width, height)
  {
    hide *;
    ShapeSides(width, height);
    WidthOf(crc1);
    WidthOf(crc2);
    var length := 4 * Comps(pic.chroma444);
    var p := new Byte[length](_ => Zeros(8));
    var block2x2Num := (width * height) / 4;
    // hashValueBuffer[0][0] and [0][1] for the first engine, [1][0] and [1][1] for the second.
    var buffer10 := new Word[block2x2Num](_ => Zeros(32));
    var buffer11 := new Word[block2x2Num](_ => Zeros(32));
    var buffer20 := new Word[block2x2Num](_ => Zeros(32));
    var buffer21 := new Word[block2x2Num](_ => Zeros(32));
    BlockCount(width, height);
    Sample2x2(pic, crc1, crc2, p, xStart, yStart, width, height, buffer10, buffer20);
    var src1, dst1, src2, dst2, srcSubBlockInWidth, srcSubBlockInHeight, side :=
      LevelLoop(pic, crc1, crc2, xStart, yStart, width, height, buffer10, buffer11, buffer20, buffer21);
    h1, h2 := FinalStep(pic, crc1, crc2, xStart, yStart, width, height, src1, dst1, src2, dst2,
                            srcSubBlockInWidth, srcSubBlockInHeight, side);
  }

  /**
   * After the level loop: a 2:1 or 1:2 block combines the two cells of the
   * last grid into the swapped buffers, left and right or top and bottom;
   * cell 0 of the "dst" buffers is then the block's hash under each engine.
   */
  method FinalStep(pic: Picture, crc1: CrcCalculator, crc2: CrcCalculator, xStart: nat, yStart: nat,
                   width: nat, height: nat, src1: array<Word>, dst1: array<Word>, src2: array<Word>, dst2: array<Word>,
                   srcSubBlockInWidth: nat, ghost srcSubBlockInHeight: nat, ghost side: nat)
    returns (h1: Word, h2: Word)
    requires Valid(pic) && crc1.Valid() && crc2.Valid() && Shape(width, height)
    requires Fits(pic, xStart, yStart, width, height)
    requires src1.Length == dst1.Length && src2.Length == dst2.Length
    requires src1 != dst1 && src2 != dst2 && {src1, dst1} !! {src2, dst2}
    requires {src1, dst1, src2, dst2} !! {crc1.table, crc2.table}
    requires side == (if height < width then height else width)
    requires srcSubBlockInWidth * side == width && srcSubBlockInHeight * side == height
    requires Filled(dst1, GridWant(pic, crc1.Spec(), xStart, yStart, srcSubBlockInWidth, srcSubBlockInHeight, side),
                    srcSubBlockInWidth * srcSubBlockInHeight)
    requires Filled(dst2, GridWant(pic, crc2.Spec(), xStart, yStart, srcSubBlockInWidth, srcSubBlockInHeight, side),
                    srcSubBlockInWidth * srcSubBlockInHeight)
    modifies crc1, crc2, src1, dst1, src2, dst2
    ensures crc1.Valid() && crc2.Valid() && ValidWidth(crc1.Spec().bits) && ValidWidth(crc2.Spec().bits)
    ensures h1 == BlockHashOf(pic, crc1.Spec(), xStart, yStart, width, height)
    ensures h2 == BlockHashOf(pic, crc2.Spec(), xStart, yStart, width, height)
  {
    hide *;
    WidthOf(crc1);
    WidthOf(crc2);
    ShapeSides(width, height);
    SideIsPow2(width);
    FinalGrid(width, height, side, srcSubBlockInWidth, srcSubBlockInHeight);
    ShapeCases(width, height);
    var src1, dst1, src2, dst2 := src1, dst1, src2, dst2;
    if width != height {
      assert width == 2 * height || 2 * width == height;   // the code's CHECK never fires
      var isHorizontal := width == 2 * height;
      src1, dst1 := dst1, src1;
      src2, dst2 := dst2, src2;
      if isHorizontal {
        WideFinal(pic, crc1.Spec(), src1, xStart, yStart, height);
        WideFinal(pic, crc2.Spec(), src2, xStart, yStart, height);
        var toHash := [src1[0], src1[1]];
        var v := GetCrcValue(crc1, Serialise(toHash));
        dst1[0] := v;
        toHash := [src2[0], src2[1]];
        v := GetCrcValue(crc2, Serialise(toHash));
        dst2[0] := v;
      } else {
        assert srcSubBlockInWidth == 1;   // the code's CHECK never fires
        TallFinal(pic, crc1.Spec(), src1, xStart, yStart, width);
        TallFinal(pic, crc2.Spec(), src2, xStart, yStart, width);
        var toHash := [src1[0], src1[srcSubBlockInWidth]];
        var v := GetCrcValue(crc1, Serialise(toHash));
        dst1[0] := v;
        toHash := [src2[0], src2[srcSubBlockInWidth]];
        v := GetCrcValue(crc2, Serialise(toHash));
        dst2[0] := v;
      }
    } else {
      SquareFinal(pic, crc1.Spec(), dst1, xStart, yStart, width);
      SquareFinal(pic, crc2.Spec(), dst2, xStart, yStart, width);
    }
    h1, h2 := dst1[0], dst2[0];
  }

  /**
   * The level loop of `getBlockHashValue`: with `subWidth` running over
   * 4, 8, ... up to the block's shorter side, the grids of side subWidth / 2
   * in the `srcIdx` buffers give the grids of side subWidth in the `dstIdx`
   * buffers.  Returned are the buffers in their final roles and the final
   * grid: its width in cells and, as ghosts, its height and cell side.
   */
  method LevelLoop(pic: Picture, crc1: CrcCalculator, crc2: CrcCalculator, xStart: nat, yStart: nat,
                   width: nat, height: nat, buffer10: array<Word>, buffer11: array<Word>,
                   buffer20: array<Word>, buffer21: array<Word>)
    returns (src1: array<Word>, dst1: array<Word>, src2: array<Word>, dst2: array<Word>,
             srcSubBlockInWidth: nat, ghost srcSubBlockInHeight: nat, ghost side: nat)
    requires Valid(pic) && crc1.Valid() && crc2.Valid() && Shape(width, height) && width >= 4 && height >= 4
    requires Fits(pic, xStart, yStart, width, height)
    requires buffer10.Length == buffer11.Length == buffer20.Length == buffer21.Length
    requires buffer10 != buffer11 && buffer10 != buffer20 && buffer10 != buffer21
    requires buffer11 != buffer20 && buffer11 != buffer21 && buffer20 != buffer21
    requires {buffer10, buffer11, buffer20, buffer21} !! {crc1.table, crc2.table}
    requires Filled(buffer10, GridWant(pic, crc1.Spec(), xStart, yStart, width / 2, height / 2, 2), (width / 2) * (height / 2))
    requires Filled(buffer20, GridWant(pic, crc2.Spec(), xStart, yStart, width / 2, height / 2, 2), (width / 2) * (height / 2))
    modifies crc1, crc2, buffer10, buffer11, buffer20, buffer21
    ensures crc1.Valid() && crc2.Valid()
    ensures (src1 == buffer10 && dst1 == buffer11) || (src1 == buffer11 && dst1 == buffer10)
    ensures (src2 == buffer20 && dst2 == buffer21) || (src2 == buffer21 && dst2 == buffer20)
    ensures Side(side) && side == (if height < width then height else width)
    ensures srcSubBlockInWidth * side == width && srcSubBlockInHeight * side == height
    ensures Filled(dst1, GridWant(pic, crc1.Spec(), xStart, yStart, srcSubBlockInWidth, srcSubBlockInHeight, side),
                   srcSubBlockInWidth * srcSubBlockInHeight)
    ensures Filled(dst2, GridWant(pic, crc2.Spec(), xStart, yStart, srcSubBlockInWidth, srcSubBlockInHeight, side),
                   srcSubBlockInWidth * srcSubBlockInHeight)
  {
    hide *;
    WidthOf(crc1);
    WidthOf(crc2);
    ShapeSides(width, height);
    SideOrTwo(width);
    SideOrTwo(height);
    Shape2x2();
    ShapeSides(2, 2);
    var subBlockInWidth := width / 2;
    var subBlockInHeight := height / 2;
    srcSubBlockInWidth := subBlockInWidth;
    srcSubBlockInHeight := subBlockInHeight;
    subBlockInWidth := subBlockInWidth / 2;
    subBlockInHeight := subBlockInHeight / 2;
    // srcIdx == 1 and dstIdx == 0: the grids just written are the "dst" ones.
    src1, dst1, src2, dst2 := buffer11, buffer10, buffer21, buffer20;
    var minSize := if height < width then height else width;
    MinSizeIs(width, height, minSize);
    side := 2;
    var subWidth := 4;
    while subWidth <= minSize
      invariant subWidth == 2 * side && Side(side) && side <= minSize
      invariant srcSubBlockInWidth * side == width && srcSubBlockInHeight * side == height
      invariant subBlockInWidth == srcSubBlockInWidth / 2 && subBlockInHeight == srcSubBlockInHeight / 2
      invariant crc1.Valid() && crc2.Valid()
      invariant (src1 == buffer10 && dst1 == buffer11) || (src1 == buffer11 && dst1 == buffer10)
      invariant (src2 == buffer20 && dst2 == buffer21) || (src2 == buffer21 && dst2 == buffer20)
      invariant Filled(dst1, GridWant(pic, crc1.Spec(), xStart, yStart, srcSubBlockInWidth, srcSubBlockInHeight, side),
                       srcSubBlockInWidth * srcSubBlockInHeight)
      invariant Filled(dst2, GridWant(pic, crc2.Spec(), xStart, yStart, srcSubBlockInWidth, srcSubBlockInHeight, side),
                       srcSubBlockInWidth * srcSubBlockInHeight)
    {
      src1, dst1 := dst1, src1;
      src2, dst2 := dst2, src2;
      SideIsPow2(side);
      Pow2Quotient(width, side, srcSubBlockInWidth);
      Pow2Quotient(height, side, srcSubBlockInHeight);
      LevelPass(pic, crc1, crc2, xStart, yStart, src1, src2, dst1, dst2,
                srcSubBlockInWidth, subBlockInWidth, subBlockInHeight, srcSubBlockInHeight, side);
      HalfDouble(srcSubBlockInWidth, side);
      HalfDouble(srcSubBlockInHeight, side);
      srcSubBlockInWidth := subBlockInWidth;
      srcSubBlockInHeight := subBlockInHeight;
      subBlockInWidth := subBlockInWidth / 2;
      subBlockInHeight := subBlockInHeight / 2;
      SideDouble(side);
      side := subWidth;
      subWidth := subWidth * 2;
    }
    SideIsPow2(side);
    Pow2Squeeze(minSize, side);
  }

  lemma SideIsPow2(s: nat)
    requires Side(s)
    ensures IsPow2(s) && s >= 2
  {
  }

  /** A block shape is a square, a 2:1 or a 1:2 rectangle. */
  lemma ShapeCases(w: nat, h: nat)
    requires Shape(w, h)
    ensures w == h || w == 2 * h || h == 2 * w
  {
  }
}
