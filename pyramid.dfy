// The bulk pass: hashes and flags for every block position of a picture.
//
// Every level is a set of frame-sized arrays indexed `pos == y * width + x`
// for the block whose top-left sample is (x, y).  Only positions where the
// block fits in the picture are written; the row loops reach the next row by
// `pos += width - 1` after the last fitting column.  Each method is proved to
// leave the level's arrays holding BlockHashOf, RowConst, ColConst and
// Addable at every fitting position, given the level below.

module Pyramid {
  import opened Bits
  import opened Crc
  import opened Picture
  import opened HashSpec

  // ---------------------------------------------------------------------
  // Positions in a frame-sized array.
  // ---------------------------------------------------------------------

  /** The position of column x of row y in a frame-sized array. */
  function Pos(width: nat, x: nat, y: nat): nat
  {
    y * width + x
  }

  lemma PosOrigin(width: nat)
    ensures Pos(width, 0, 0) == 0
  {
  }

  /** The next column is the next position. */
  lemma PosNext(width: nat, x: nat, y: nat)
    ensures Pos(width, x + 1, y) == Pos(width, x, y) + 1
  {
  }

  /** Past the last column comes the first column of the next row. */
  lemma PosNextRow(width: nat, y: nat)
    requires width >= 1
    ensures Pos(width, width - 1, y) + 1 == Pos(width, 0, y + 1)
  {
  }

  /** Skipping `w - 1` positions after the last column a w-wide block fits in reaches the next row. */
  lemma PosRowEnd(width: nat, y: nat, w: nat)
    requires 1 <= w <= width + 1
    ensures Pos(width, width - w + 1, y) + (w - 1) == Pos(width, 0, y + 1)
  {
  }

  /** Position y * width + x holds column x and row y. */
  lemma Loc(width: nat, x: nat, y: nat)
    requires x < width
    ensures (y * width + x) % width == x && (y * width + x) / width == y
  {
    DivModUnique(y * width + x, width, y, x);
  }

  /** A block whose corner is in range fits. */
  lemma FitsWithin(pic: Picture, x: nat, y: nat, w: nat, h: nat)
    requires x < pic.width - w + 1 && y < pic.height - h + 1
    ensures Fits(pic, x, y, w, h)
  {
  }

  /** A block that fits starts before row n when n is past the last row it could start on. */
  lemma FitsBelow(pic: Picture, t: nat, w: nat, h: nat, n: int)
    requires pic.width > 0 && Fits(pic, t % pic.width, t / pic.width, w, h) && pic.height - h + 1 <= n
    ensures t < n * pic.width
  {
    var q := t / pic.width;
    assert t == pic.width * q + t % pic.width;
    assert q + 1 <= n;
    MulAtLeastBy(pic.width, n, q + 1);
  }

  /** The positions after the last fitting column of row y hold no fitting block. */
  lemma TailUnfit(pic: Picture, y: nat, w: nat, h: nat)
    requires 1 <= w <= pic.width
    ensures forall t: nat :: y * pic.width + (pic.width - w + 1) <= t < y * pic.width + pic.width ==>
      !Fits(pic, t % pic.width, t / pic.width, w, h)
  {
    forall t: nat | y * pic.width + (pic.width - w + 1) <= t < y * pic.width + pic.width
      ensures !Fits(pic, t % pic.width, t / pic.width, w, h)
    {
      Loc(pic.width, t - y * pic.width, y);
    }
  }

  // ---------------------------------------------------------------------
  // What a level's arrays hold.
  // ---------------------------------------------------------------------

  /** Position t of a frame-sized array is the top-left corner of a w x h block in the picture. */
  predicate FitsAt(pic: Picture, t: int, w: nat, h: nat)
  {
    0 <= t && pic.width > 0 && Fits(pic, t % pic.width, t / pic.width, w, h)
  }

  /** Array `a` is frame-sized and agrees with `want` wherever a w x h block fits. */
  ghost predicate Level<T>(pic: Picture, a: array<T>, want: seq<T>, w: nat, h: nat)
    reads a
  {
    && a.Length == |want| == pic.width * pic.height
    && forall t :: 0 <= t < a.Length && FitsAt(pic, t, w, h) ==> a[t] == want[t]
  }

  /** Below position n, array `a` agrees with `want` wherever a w x h block fits. */
  ghost predicate UpTo<T>(pic: Picture, a: array<T>, want: seq<T>, n: int, w: nat, h: nat)
    reads a
  {
    forall t :: 0 <= t < n && t < a.Length && t < |want| && FitsAt(pic, t, w, h) ==> a[t] == want[t]
  }

  /** The w x h block hash under `e` at every fitting position. */
  ghost function HashWant(pic: Picture, e: CrcSpec, w: nat, h: nat): (r: seq<Word>)
    requires Valid(pic) && ValidWidth(e.bits) && Shape(w, h)
    ensures |r| == pic.width * pic.height
  {
    seq(pic.width * pic.height, t requires 0 <= t < pic.width * pic.height => HashCell(pic, e, t, w, h))
  }

  /** The w x h block hash at position t when the block fits there, zero otherwise. */
  ghost function HashCell(pic: Picture, e: CrcSpec, t: nat, w: nat, h: nat): Word
    requires Valid(pic) && ValidWidth(e.bits) && Shape(w, h)
  {
    if FitsAt(pic, t, w, h) then
      var x: nat, y: nat := t % pic.width, t / pic.width;
      BlockHashOf(pic, e, x, y, w, h)
    else Zeros(32)
  }

  /** The row flag of the w x h block at every fitting position. */
  ghost function RowWant(pic: Picture, w: nat, h: nat): (r: seq<bool>)
    requires Valid(pic)
    ensures |r| == pic.width * pic.height
  {
    seq(pic.width * pic.height, t requires 0 <= t < pic.width * pic.height =>
      FitsAt(pic, t, w, h) && RowConst(pic, t % pic.width, t / pic.width, w, h, pic.chroma444))
  }

  /** The column flag of the w x h block at every fitting position. */
  ghost function ColWant(pic: Picture, w: nat, h: nat): (r: seq<bool>)
    requires Valid(pic)
    ensures |r| == pic.width * pic.height
  {
    seq(pic.width * pic.height, t requires 0 <= t < pic.width * pic.height =>
      FitsAt(pic, t, w, h) && ColConst(pic, t % pic.width, t / pic.width, w, h, pic.chroma444))
  }

  /** The insertion flag of the w x h block at every fitting position. */
  ghost function AddWant(pic: Picture, w: nat, h: nat): (r: seq<bool>)
    requires Valid(pic) && w >= 1 && h >= 1
    ensures |r| == pic.width * pic.height
  {
    seq(pic.width * pic.height, t requires 0 <= t < pic.width * pic.height =>
      FitsAt(pic, t, w, h) && Addable(pic, t % pic.width, t / pic.width, w, h))
  }

  /** Nothing is claimed below position 0. */
  lemma Start<T>(pic: Picture, a: array<T>, want: seq<T>, w: nat, h: nat)
    ensures UpTo(pic, a, want, 0, w, h)
  {
  }

  /** A block at (x, y) that fits sits at position y * width + x, inside the frame. */
  lemma At(pic: Picture, x: nat, y: nat, w: nat, h: nat)
    requires Fits(pic, x, y, w, h) && w >= 1 && h >= 1
    ensures Pos(pic.width, x, y) < pic.width * pic.height
    ensures FitsAt(pic, Pos(pic.width, x, y), w, h)
    ensures Pos(pic.width, x, y) % pic.width == x && Pos(pic.width, x, y) / pic.width == y
  {
    Loc(pic.width, x, y);
    MulAtLeastBy(pic.width, pic.height, y + 1);
  }

  lemma HashWantAt(pic: Picture, e: CrcSpec, x: nat, y: nat, w: nat, h: nat)
    requires Valid(pic) && ValidWidth(e.bits) && Shape(w, h) && Fits(pic, x, y, w, h)
    ensures Pos(pic.width, x, y) < pic.width * pic.height
    ensures FitsAt(pic, Pos(pic.width, x, y), w, h)
    ensures HashWant(pic, e, w, h)[Pos(pic.width, x, y)] == BlockHashOf(pic, e, x, y, w, h)
  {
    At(pic, x, y, w, h);
  }

  lemma RowWantAt(pic: Picture, x: nat, y: nat, w: nat, h: nat)
    requires Valid(pic) && Fits(pic, x, y, w, h) && w >= 1 && h >= 1
    ensures Pos(pic.width, x, y) < pic.width * pic.height
    ensures FitsAt(pic, Pos(pic.width, x, y), w, h)
    ensures RowWant(pic, w, h)[Pos(pic.width, x, y)] == RowConst(pic, x, y, w, h, pic.chroma444)
  {
    At(pic, x, y, w, h);
  }

  lemma ColWantAt(pic: Picture, x: nat, y: nat, w: nat, h: nat)
    requires Valid(pic) && Fits(pic, x, y, w, h) && w >= 1 && h >= 1
    ensures Pos(pic.width, x, y) < pic.width * pic.height
    ensures FitsAt(pic, Pos(pic.width, x, y), w, h)
    ensures ColWant(pic, w, h)[Pos(pic.width, x, y)] == ColConst(pic, x, y, w, h, pic.chroma444)
  {
    At(pic, x, y, w, h);
  }

  lemma AddWantAt(pic: Picture, x: nat, y: nat, w: nat, h: nat)
    requires Valid(pic) && Fits(pic, x, y, w, h) && w >= 1 && h >= 1
    ensures Pos(pic.width, x, y) < pic.width * pic.height
    ensures FitsAt(pic, Pos(pic.width, x, y), w, h)
    ensures AddWant(pic, w, h)[Pos(pic.width, x, y)] == Addable(pic, x, y, w, h)
  {
    At(pic, x, y, w, h);
  }

  /** Writing the wanted value at position n extends the agreement by one position. */
  method Put<T>(a: array<T>, n: nat, v: T, ghost pic: Picture, ghost want: seq<T>, ghost w: nat, ghost h: nat)
    requires n < a.Length && UpTo(pic, a, want, n, w, h)
    requires n < |want| && FitsAt(pic, n, w, h) ==> v == want[n]
    modifies a
    ensures UpTo(pic, a, want, n + 1, w, h)
    ensures a[n] == v
  {
    a[n] := v;
  }

  /** The positions past row y's last fitting column need no writing. */
  lemma SkipRow<T>(pic: Picture, a: array<T>, want: seq<T>, y: nat, w: nat, h: nat)
    requires pic.width > 0 && w >= 1
    requires w <= pic.width ==> UpTo(pic, a, want, Pos(pic.width, pic.width - w + 1, y), w, h)
    ensures UpTo(pic, a, want, Pos(pic.width, 0, y + 1), w, h)
  {
    if w <= pic.width {
      TailUnfit(pic, y, w, h);
    }
  }

  /** A level array holds the wanted value at every fitting block's position. */
  lemma LevelAt<T>(pic: Picture, a: array<T>, want: seq<T>, x: nat, y: nat, w: nat, h: nat)
    requires Level(pic, a, want, w, h) && Fits(pic, x, y, w, h) && w >= 1 && h >= 1
    ensures Pos(pic.width, x, y) < a.Length == |want|
    ensures a[Pos(pic.width, x, y)] == want[Pos(pic.width, x, y)]
  {
    At(pic, x, y, w, h);
  }

  /** Moving dx columns right and dy rows down moves the position by dy rows of the frame plus dx. */
  lemma PosShift(width: nat, x: nat, y: nat, dx: nat, dy: nat)
    ensures Pos(width, x + dx, y + dy) == Pos(width, x, y) + dy * width + dx
  {
  }

  /** Once every row a block can start on is done, the whole array agrees. */
  lemma Finish<T>(pic: Picture, a: array<T>, want: seq<T>, n: nat, w: nat, h: nat)
    requires UpTo(pic, a, want, Pos(pic.width, 0, n), w, h) && pic.height - h + 1 <= n
    requires a.Length == |want| == pic.width * pic.height
    ensures Level(pic, a, want, w, h)
  {
    forall t | 0 <= t < a.Length && FitsAt(pic, t, w, h)
      ensures a[t] == want[t]
    {
      FitsBelow(pic, t, w, h, n);
    }
  }

  // ---------------------------------------------------------------------
  // The 2x2 level.
  // ---------------------------------------------------------------------

  /**
   * `generateBlock2x2HashValue`: both CRCs of every 2x2 block's serialised
   * samples, and its row and column flags.
   */
  method GenerateBlock2x2HashValue(pic: Picture, crc1: CrcCalculator, crc2: CrcCalculator,
                                   hash1: array<Word>, hash2: array<Word>,
                                   rowSame: array<bool>, colSame: array<bool>)
    requires Valid(pic) && crc1.Valid() && crc2.Valid()
    requires hash1.Length == hash2.Length == rowSame.Length == colSame.Length == pic.width * pic.height
    requires hash1 != hash2 && rowSame != colSame
    requires {crc1.table, crc2.table} !! {hash1, hash2}
    modifies crc1, crc2, hash1, hash2, rowSame, colSame
    ensures crc1.Valid() && crc2.Valid()
    ensures Level(pic, hash1, HashWant(pic, crc1.Spec(), 2, 2), 2, 2)
    ensures Level(pic, hash2, HashWant(pic, crc2.Spec(), 2, 2), 2, 2)
    ensures Level(pic, rowSame, RowWant(pic, 2, 2), 2, 2)
    ensures Level(pic, colSame, ColWant(pic, 2, 2), 2, 2)
  {
    hide *;
    WidthOf(crc1);
    WidthOf(crc2);
    Shape2x2();
    Dimensions(pic);
    CompsValue(pic.chroma444);
    PosOrigin(pic.width);
    ghost var want1, want2 := HashWant(pic, crc1.Spec(), 2, 2), HashWant(pic, crc2.Spec(), 2, 2);
    ghost var wantR, wantC := RowWant(pic, 2, 2), ColWant(pic, 2, 2);
    var width, height := 2, 2;
    var xEnd := pic.width - width + 1;
    var yEnd := pic.height - height + 1;
    var includeChroma := pic.chroma444;
    var length := width * 2 * (if includeChroma then 3 else 1);
    var p := new Byte[length];
    var pos := 0;
    Start(pic, hash1, want1, 2, 2);
    Start(pic, hash2, want2, 2, 2);
    Start(pic, rowSame, wantR, 2, 2);
    Start(pic, colSame, wantC, 2, 2);
    var yPos := 0;
    while yPos < yEnd
      invariant 0 <= yPos && (yEnd >= 0 ==> yPos <= yEnd)
      invariant pos == Pos(pic.width, 0, yPos)
      invariant crc1.Valid() && crc2.Valid()
      invariant UpTo(pic, hash1, want1, pos, 2, 2) && UpTo(pic, hash2, want2, pos, 2, 2)
      invariant UpTo(pic, rowSame, wantR, pos, 2, 2) && UpTo(pic, colSame, wantC, pos, 2, 2)
    {
      var xPos := 0;
      while xPos < xEnd
        invariant 0 <= xPos && (xEnd >= 0 ==> xPos <= xEnd)
        invariant pos == Pos(pic.width, xPos, yPos)
        invariant crc1.Valid() && crc2.Valid()
        invariant UpTo(pic, hash1, want1, pos, 2, 2) && UpTo(pic, hash2, want2, pos, 2, 2)
        invariant UpTo(pic, rowSame, wantR, pos, 2, 2) && UpTo(pic, colSame, wantC, pos, 2, 2)
      {
        FitsWithin(pic, xPos, yPos, 2, 2);
        Block2x2Step(pic, crc1, crc2, p, hash1, hash2, rowSame, colSame, pos, xPos, yPos);
        PosNext(pic.width, xPos, yPos);
        pos := pos + 1;
        xPos := xPos + 1;
      }
      SkipRow(pic, hash1, want1, yPos, 2, 2);
      SkipRow(pic, hash2, want2, yPos, 2, 2);
      SkipRow(pic, rowSame, wantR, yPos, 2, 2);
      SkipRow(pic, colSame, wantC, yPos, 2, 2);
      PosNextRow(pic.width, yPos);
      pos := pos + width - 1;
      yPos := yPos + 1;
    }
    Finish(pic, hash1, want1, yPos, 2, 2);
    Finish(pic, hash2, want2, yPos, 2, 2);
    Finish(pic, rowSame, wantR, yPos, 2, 2);
    Finish(pic, colSame, wantC, yPos, 2, 2);
  }

  /** The body of the 2x2 loop: one block's flags and hashes written at its position. */
  method Block2x2Step(pic: Picture, crc1: CrcCalculator, crc2: CrcCalculator, p: array<Byte>,
                      hash1: array<Word>, hash2: array<Word>, rowSame: array<bool>, colSame: array<bool>,
                      pos: nat, xPos: nat, yPos: nat)
    requires Valid(pic) && crc1.Valid() && crc2.Valid() && Fits(pic, xPos, yPos, 2, 2)
    requires p.Length == 4 * Comps(pic.chroma444)
    requires hash1.Length == hash2.Length == rowSame.Length == colSame.Length == pic.width * pic.height
    requires hash1 != hash2 && rowSame != colSame
    requires {crc1.table, crc2.table} !! {hash1, hash2}
    requires ValidWidth(crc1.Spec().bits) && ValidWidth(crc2.Spec().bits)
    requires pos == Pos(pic.width, xPos, yPos)
    requires UpTo(pic, hash1, HashWant(pic, crc1.Spec(), 2, 2), pos, 2, 2)
    requires UpTo(pic, hash2, HashWant(pic, crc2.Spec(), 2, 2), pos, 2, 2)
    requires UpTo(pic, rowSame, RowWant(pic, 2, 2), pos, 2, 2)
    requires UpTo(pic, colSame, ColWant(pic, 2, 2), pos, 2, 2)
    modifies crc1, crc2, p, hash1, hash2, rowSame, colSame
    ensures crc1.Valid() && crc2.Valid()
    ensures UpTo(pic, hash1, HashWant(pic, crc1.Spec(), 2, 2), pos + 1, 2, 2)
    ensures UpTo(pic, hash2, HashWant(pic, crc2.Spec(), 2, 2), pos + 1, 2, 2)
    ensures UpTo(pic, rowSame, RowWant(pic, 2, 2), pos + 1, 2, 2)
    ensures UpTo(pic, colSame, ColWant(pic, 2, 2), pos + 1, 2, 2)
  {
    hide *;
    Shape2x2();
    HashWantAt(pic, crc1.Spec(), xPos, yPos, 2, 2);
    HashWantAt(pic, crc2.Spec(), xPos, yPos, 2, 2);
    RowWantAt(pic, xPos, yPos, 2, 2);
    ColWantAt(pic, xPos, yPos, 2, 2);
    var r, c, h1, h2 := Block2x2Cell(pic, crc1, crc2, p, xPos, yPos, pic.chroma444);
    Put(rowSame, pos, r, pic, RowWant(pic, 2, 2), 2, 2);
    Put(colSame, pos, c, pic, ColWant(pic, 2, 2), 2, 2);
    Put(hash1, pos, h1, pic, HashWant(pic, crc1.Spec(), 2, 2), 2, 2);
    Put(hash2, pos, h2, pic, HashWant(pic, crc2.Spec(), 2, 2), 2, 2);
  }

  /** One 2x2 block: sample it, test its rows and columns, hash it with both engines. */
  method Block2x2Cell(pic: Picture, crc1: CrcCalculator, crc2: CrcCalculator, p: array<Byte>,
                      xPos: nat, yPos: nat, includeChroma: bool)
    returns (rowSame: bool, colSame: bool, h1: Word, h2: Word)
    requires Valid(pic) && crc1.Valid() && crc2.Valid() && Fits(pic, xPos, yPos, 2, 2)
    requires includeChroma == pic.chroma444 && p.Length == 4 * Comps(includeChroma)
    modifies crc1, crc2, p
    ensures crc1.Valid() && crc2.Valid()
    ensures rowSame == RowConst(pic, xPos, yPos, 2, 2, pic.chroma444)
    ensures colSame == ColConst(pic, xPos, yPos, 2, 2, pic.chroma444)
    ensures h1 == BlockHashOf(pic, crc1.Spec(), xPos, yPos, 2, 2)
    ensures h2 == BlockHashOf(pic, crc2.Spec(), xPos, yPos, 2, 2)
  {
    GetPixelsIn1DCharArrayByBlock2x2(pic, p, xPos, yPos, includeChroma);
    RowSameIff(pic, xPos, yPos, includeChroma);
    ColSameIff(pic, xPos, yPos, includeChroma);
    rowSame := IsBlock2x2RowSameValue(p[..], includeChroma);
    colSame := IsBlock2x2ColSameValue(p[..], includeChroma);
    h1 := GetCrcValue(crc1, p[..]);
    h2 := GetCrcValue(crc2, p[..]);
  }

  // ---------------------------------------------------------------------
  // One position of a larger level, read off the level below.
  // ---------------------------------------------------------------------

  /** The quarter-size blocks a square pass reads all fit inside the square. */
  lemma Quarters(pic: Picture, x: nat, y: nat, s: nat)
    requires Side(s) && s > 2 && Fits(pic, x, y, s, s)
    ensures var h, q := s / 2, s / 4;
      && Side(h) && Shape(h, h) && Shape(s, s) && h >= 1 && q >= 1 && q + h <= s && h + h == s
      && Fits(pic, x, y, h, h) && Fits(pic, x + q, y, h, h) && Fits(pic, x + h, y, h, h)
      && Fits(pic, x, y + q, h, h) && Fits(pic, x + h, y + q, h, h)
      && Fits(pic, x, y + h, h, h) && Fits(pic, x + q, y + h, h, h) && Fits(pic, x + h, y + h, h, h)
  {
    SideHalf(s);
  }

  /** Moving dx columns right moves the position by dx. */
  lemma PosRight(width: nat, x: nat, y: nat, dx: nat)
    ensures Pos(width, x + dx, y) == Pos(width, x, y) + dx
  {
  }

  /** Moving dy rows down moves the position by dy rows of the frame. */
  lemma PosDown(width: nat, x: nat, y: nat, dy: nat)
    ensures Pos(width, x, y + dy) == Pos(width, x, y) + dy * width
  {
  }

  /** Position i of a hash level holds the hash of the block at (x, y) when i is that block's position. */
  lemma HashAt(pic: Picture, e: CrcSpec, a: array<Word>, x: nat, y: nat, w: nat, h: nat, i: nat)
    requires Valid(pic) && ValidWidth(e.bits) && Shape(w, h) && Fits(pic, x, y, w, h)
    requires Level(pic, a, HashWant(pic, e, w, h), w, h) && i == Pos(pic.width, x, y)
    ensures i < a.Length && a[i] == BlockHashOf(pic, e, x, y, w, h)
  {
    LevelAt(pic, a, HashWant(pic, e, w, h), x, y, w, h);
    HashWantAt(pic, e, x, y, w, h);
  }

  /** Position i of a row-flag level holds the row flag of the block at (x, y). */
  lemma RowAt(pic: Picture, a: array<bool>, x: nat, y: nat, w: nat, h: nat, i: nat)
    requires Valid(pic) && w >= 1 && h >= 1 && Fits(pic, x, y, w, h)
    requires Level(pic, a, RowWant(pic, w, h), w, h) && i == Pos(pic.width, x, y)
    ensures i < a.Length && a[i] == RowConst(pic, x, y, w, h, pic.chroma444)
  {
    LevelAt(pic, a, RowWant(pic, w, h), x, y, w, h);
    RowWantAt(pic, x, y, w, h);
  }

  /** Position i of a column-flag level holds the column flag of the block at (x, y). */
  lemma ColAt(pic: Picture, a: array<bool>, x: nat, y: nat, w: nat, h: nat, i: nat)
    requires Valid(pic) && w >= 1 && h >= 1 && Fits(pic, x, y, w, h)
    requires Level(pic, a, ColWant(pic, w, h), w, h) && i == Pos(pic.width, x, y)
    ensures i < a.Length && a[i] == ColConst(pic, x, y, w, h, pic.chroma444)
  {
    LevelAt(pic, a, ColWant(pic, w, h), x, y, w, h);
    ColWantAt(pic, x, y, w, h);
  }

  /** The four quarter hashes the square pass reads combine into the square's hash. */
  lemma SquareHashCell(pic: Picture, e: CrcSpec, src: array<Word>, x: nat, y: nat, s: nat)
    requires Valid(pic) && ValidWidth(e.bits) && Side(s) && s > 2 && Fits(pic, x, y, s, s)
    requires Level(pic, src, HashWant(pic, e, s / 2, s / 2), s / 2, s / 2)
    ensures var h, w, pos := s / 2, pic.width, Pos(pic.width, x, y);
      && 0 <= h * w
      && pos + h < src.Length && pos + h * w < src.Length && pos + h * w + h < src.Length
      && pos < |HashWant(pic, e, s, s)|
      && CrcOf(e, Serialise([src[pos], src[pos + h], src[pos + h * w], src[pos + h * w + h]]))
         == HashWant(pic, e, s, s)[pos]
  {
    hide *;
    var h, w := s / 2, pic.width;
    var pos := Pos(w, x, y);
    Quarters(pic, x, y, s);
    SquareJoin(pic, e, x, y, s);
    PosRight(w, x, y, h);
    PosDown(w, x, y, h);
    PosRight(w, x, y + h, h);
    HashAt(pic, e, src, x, y, h, h, pos);
    HashAt(pic, e, src, x + h, y, h, h, pos + h);
    HashAt(pic, e, src, x, y + h, h, h, pos + h * w);
    HashAt(pic, e, src, x + h, y + h, h, h, pos + h * w + h);
    HashWantAt(pic, e, x, y, s, s);
  }

  /** The six row flags the square pass reads combine into the square's row flag. */
  lemma SquareRowCell(pic: Picture, src: array<bool>, x: nat, y: nat, s: nat)
    requires Valid(pic) && Side(s) && s > 2 && Fits(pic, x, y, s, s)
    requires Level(pic, src, RowWant(pic, s / 2, s / 2), s / 2, s / 2)
    ensures var h, q, w, pos := s / 2, s / 4, pic.width, Pos(pic.width, x, y);
      && 0 <= h * w
      && pos + q < src.Length && pos + h < src.Length && pos + h * w < src.Length
      && pos + h * w + q < src.Length && pos + h * w + h < src.Length
      && pos < |RowWant(pic, s, s)|
      && (src[pos] && src[pos + q] && src[pos + h] &&
          src[pos + h * w] && src[pos + h * w + q] && src[pos + h * w + h])
         == RowWant(pic, s, s)[pos]
  {
    hide *;
    var h, q, w := s / 2, s / 4, pic.width;
    var pos := Pos(w, x, y);
    Quarters(pic, x, y, s);
    SquareRowIff(pic, x, y, s, pic.chroma444);
    PosRight(w, x, y, q);
    PosRight(w, x, y, h);
    PosDown(w, x, y, h);
    PosRight(w, x, y + h, q);
    PosRight(w, x, y + h, h);
    RowAt(pic, src, x, y, h, h, pos);
    RowAt(pic, src, x + q, y, h, h, pos + q);
    RowAt(pic, src, x + h, y, h, h, pos + h);
    RowAt(pic, src, x, y + h, h, h, pos + h * w);
    RowAt(pic, src, x + q, y + h, h, h, pos + h * w + q);
    RowAt(pic, src, x + h, y + h, h, h, pos + h * w + h);
    RowWantAt(pic, x, y, s, s);
  }

  /** The six column flags the square pass reads combine into the square's column flag. */
  lemma SquareColCell(pic: Picture, src: array<bool>, x: nat, y: nat, s: nat)
    requires Valid(pic) && Side(s) && s > 2 && Fits(pic, x, y, s, s)
    requires Level(pic, src, ColWant(pic, s / 2, s / 2), s / 2, s / 2)
    ensures var h, q, w, pos := s / 2, s / 4, pic.width, Pos(pic.width, x, y);
      && 0 <= q * w && 0 <= h * w
      && pos + h < src.Length && pos + q * w < src.Length && pos + q * w + h < src.Length
      && pos + h * w < src.Length && pos + h * w + h < src.Length
      && pos < |ColWant(pic, s, s)|
      && (src[pos] && src[pos + h] && src[pos + q * w] &&
          src[pos + q * w + h] && src[pos + h * w] && src[pos + h * w + h])
         == ColWant(pic, s, s)[pos]
  {
    hide *;
    var h, q, w := s / 2, s / 4, pic.width;
    var pos := Pos(w, x, y);
    Quarters(pic, x, y, s);
    SquareColIff(pic, x, y, s, pic.chroma444);
    PosRight(w, x, y, h);
    PosDown(w, x, y, q);
    PosRight(w, x, y + q, h);
    PosDown(w, x, y, h);
    PosRight(w, x, y + h, h);
    ColAt(pic, src, x, y, h, h, pos);
    ColAt(pic, src, x + h, y, h, h, pos + h);
    ColAt(pic, src, x, y + q, h, h, pos + q * w);
    ColAt(pic, src, x + h, y + q, h, h, pos + q * w + h);
    ColAt(pic, src, x, y + h, h, h, pos + h * w);
    ColAt(pic, src, x + h, y + h, h, h, pos + h * w + h);
    ColWantAt(pic, x, y, s, s);
  }

  /**
   * The code's insertion test, with `x & (w - 1)` for the grid test, is the
   * insertion flag: for powers of two the mask is the remainder.
   */
  lemma AddCell(pic: Picture, row: array<bool>, col: array<bool>, x: nat, y: nat, w: nat, h: nat)
    requires Valid(pic) && Shape(w, h) && Fits(pic, x, y, w, h)
    requires Level(pic, row, RowWant(pic, w, h), w, h) && Level(pic, col, ColWant(pic, w, h), w, h)
    ensures var pos := Pos(pic.width, x, y);
      && pos < row.Length && pos < col.Length && pos < |AddWant(pic, w, h)|
      && ((!row[pos] && !col[pos]) || (BitAnd(x, w - 1) == 0 && BitAnd(y, h - 1) == 0))
         == AddWant(pic, w, h)[pos]
  {
    ShapeSides(w, h);
    MaskIsMod(x, w);
    MaskIsMod(y, h);
    var pos := Pos(pic.width, x, y);
    RowAt(pic, row, x, y, w, h, pos);
    ColAt(pic, col, x, y, w, h, pos);
    AddWantAt(pic, x, y, w, h);
  }

  /** For a power of two m, `x & (m - 1)` is x modulo m. */
  lemma MaskIsMod(x: nat, m: nat)
    requires IsPow2(m)
    ensures m >= 1 && BitAnd(x, m - 1) == x % m
  {
    BitAndLowMask(x, Log2(m));
  }

  // ---------------------------------------------------------------------
  // Square levels.
  // ---------------------------------------------------------------------

  /**
   * `generateBlockHashValue` for a square of side `width` > 2: each position's
   * hashes from the four quarter hashes of the level below, its flags from six
   * overlapping flags below, then the insertion flags in a second pass.
   */
  method GenerateBlockHashValue(pic: Picture, width: nat, height: nat, crc1: CrcCalculator, crc2: CrcCalculator,
                                src1: array<Word>, src2: array<Word>, srcRow: array<bool>, srcCol: array<bool>,
                                dst1: array<Word>, dst2: array<Word>,
                                dstRow: array<bool>, dstCol: array<bool>, dstAdd: array<bool>)
    requires Valid(pic) && crc1.Valid() && crc2.Valid()
    requires width == height && Side(width) && width > 2
    requires Level(pic, src1, HashWant(pic, crc1.Spec(), width / 2, height / 2), width / 2, height / 2)
    requires Level(pic, src2, HashWant(pic, crc2.Spec(), width / 2, height / 2), width / 2, height / 2)
    requires Level(pic, srcRow, RowWant(pic, width / 2, height / 2), width / 2, height / 2)
    requires Level(pic, srcCol, ColWant(pic, width / 2, height / 2), width / 2, height / 2)
    requires dst1.Length == dst2.Length == dstRow.Length == dstCol.Length == dstAdd.Length == pic.width * pic.height
    requires dst1 != dst2 && {crc1.table, crc2.table, src1, src2} !! {dst1, dst2}
    requires dstRow != dstCol && dstRow != dstAdd && dstCol != dstAdd
    requires {srcRow, srcCol} !! {dstRow, dstCol, dstAdd}
    modifies crc1, crc2, dst1, dst2, dstRow, dstCol, dstAdd
    ensures crc1.Valid() && crc2.Valid()
    ensures Level(pic, dst1, HashWant(pic, crc1.Spec(), width, height), width, height)
    ensures Level(pic, dst2, HashWant(pic, crc2.Spec(), width, height), width, height)
    ensures Level(pic, dstRow, RowWant(pic, width, height), width, height)
    ensures Level(pic, dstCol, ColWant(pic, width, height), width, height)
    ensures Level(pic, dstAdd, AddWant(pic, width, height), width, height)
  {
    hide *;
    WidthOf(crc1);
    WidthOf(crc2);
    Dimensions(pic);
    PosOrigin(pic.width);
    SideHalf(width);
    SquareShape(width);
    ghost var want1, want2 := HashWant(pic, crc1.Spec(), width, height), HashWant(pic, crc2.Spec(), width, height);
    ghost var wantR, wantC := RowWant(pic, width, height), ColWant(pic, width, height);
    var xEnd := pic.width - width + 1;
    var yEnd := pic.height - height + 1;
    var pos := 0;
    Start(pic, dst1, want1, width, height);
    Start(pic, dst2, want2, width, height);
    Start(pic, dstRow, wantR, width, height);
    Start(pic, dstCol, wantC, width, height);
    var yPos := 0;
    while yPos < yEnd
      invariant 0 <= yPos && (yEnd >= 0 ==> yPos <= yEnd)
      invariant xEnd >= 0 ==> pos == Pos(pic.width, 0, yPos)
      invariant crc1.Valid() && crc2.Valid()
      invariant UpTo(pic, dst1, want1, Pos(pic.width, 0, yPos), width, height)
      invariant UpTo(pic, dst2, want2, Pos(pic.width, 0, yPos), width, height)
      invariant UpTo(pic, dstRow, wantR, Pos(pic.width, 0, yPos), width, height)
      invariant UpTo(pic, dstCol, wantC, Pos(pic.width, 0, yPos), width, height)
    {
      var xPos := 0;
      while xPos < xEnd
        invariant 0 <= xPos && (xEnd >= 0 ==> xPos <= xEnd)
        invariant xEnd >= 0 ==> pos == Pos(pic.width, xPos, yPos)
        invariant crc1.Valid() && crc2.Valid()
        invariant UpTo(pic, dst1, want1, Pos(pic.width, xPos, yPos), width, height)
        invariant UpTo(pic, dst2, want2, Pos(pic.width, xPos, yPos), width, height)
        invariant UpTo(pic, dstRow, wantR, Pos(pic.width, xPos, yPos), width, height)
        invariant UpTo(pic, dstCol, wantC, Pos(pic.width, xPos, yPos), width, height)
      {
        FitsWithin(pic, xPos, yPos, width, height);
        SquareStep(pic, width, height, crc1, crc2, src1, src2, srcRow, srcCol, dst1, dst2, dstRow, dstCol,
                   pos, xPos, yPos);
        PosNext(pic.width, xPos, yPos);
        pos := pos + 1;
        xPos := xPos + 1;
      }
      SkipRow(pic, dst1, want1, yPos, width, height);
      SkipRow(pic, dst2, want2, yPos, width, height);
      SkipRow(pic, dstRow, wantR, yPos, width, height);
      SkipRow(pic, dstCol, wantC, yPos, width, height);
      if xEnd >= 0 { PosRowEnd(pic.width, yPos, width); }
      pos := pos + width - 1;
      yPos := yPos + 1;
    }
    Finish(pic, dst1, want1, yPos, width, height);
    Finish(pic, dst2, want2, yPos, width, height);
    Finish(pic, dstRow, wantR, yPos, width, height);
    Finish(pic, dstCol, wantC, yPos, width, height);
    if width >= 4 {
      AddPass(pic, width, height, dstRow, dstCol, dstAdd);
    }
  }

  /** A square side is a block shape. */
  lemma SquareShape(s: nat)
    requires Side(s)
    ensures Shape(s, s) && s >= 1
  {
  }

  /** The body of the square loop: one position's hashes and flags from the level below. */
  method SquareStep(pic: Picture, width: nat, height: nat, crc1: CrcCalculator, crc2: CrcCalculator,
                    src1: array<Word>, src2: array<Word>, srcRow: array<bool>, srcCol: array<bool>,
                    dst1: array<Word>, dst2: array<Word>, dstRow: array<bool>, dstCol: array<bool>,
                    pos: nat, xPos: nat, yPos: nat)
    requires Valid(pic) && crc1.Valid() && crc2.Valid()
    requires ValidWidth(crc1.Spec().bits) && ValidWidth(crc2.Spec().bits)
    requires width == height && Side(width) && width > 2 && Fits(pic, xPos, yPos, width, height)
    requires pos == Pos(pic.width, xPos, yPos)
    requires Level(pic, src1, HashWant(pic, crc1.Spec(), width / 2, height / 2), width / 2, height / 2)
    requires Level(pic, src2, HashWant(pic, crc2.Spec(), width / 2, height / 2), width / 2, height / 2)
    requires Level(pic, srcRow, RowWant(pic, width / 2, height / 2), width / 2, height / 2)
    requires Level(pic, srcCol, ColWant(pic, width / 2, height / 2), width / 2, height / 2)
    requires dst1.Length == dst2.Length == dstRow.Length == dstCol.Length == pic.width * pic.height
    requires dst1 != dst2 && {crc1.table, crc2.table, src1, src2} !! {dst1, dst2}
    requires dstRow != dstCol && {srcRow, srcCol} !! {dstRow, dstCol}
    requires UpTo(pic, dst1, HashWant(pic, crc1.Spec(), width, height), pos, width, height)
    requires UpTo(pic, dst2, HashWant(pic, crc2.Spec(), width, height), pos, width, height)
    requires UpTo(pic, dstRow, RowWant(pic, width, height), pos, width, height)
    requires UpTo(pic, dstCol, ColWant(pic, width, height), pos, width, height)
    modifies crc1, crc2, dst1, dst2, dstRow, dstCol
    ensures crc1.Valid() && crc2.Valid()
    ensures UpTo(pic, dst1, HashWant(pic, crc1.Spec(), width, height), pos + 1, width, height)
    ensures UpTo(pic, dst2, HashWant(pic, crc2.Spec(), width, height), pos + 1, width, height)
    ensures UpTo(pic, dstRow, RowWant(pic, width, height), pos + 1, width, height)
    ensures UpTo(pic, dstCol, ColWant(pic, width, height), pos + 1, width, height)
  {
    hide *;
    SquareShape(width);
    SquareHashPut(pic, width, crc1, src1, dst1, pos, xPos, yPos);
    SquareHashPut(pic, width, crc2, src2, dst2, pos, xPos, yPos);
    SquareRowPut(pic, width, srcRow, dstRow, pos, xPos, yPos);
    SquareColPut(pic, width, srcCol, dstCol, pos, xPos, yPos);
  }

  /** The row flag of the square loop: six overlapping row flags below, and-ed. */
  method SquareRowPut(pic: Picture, width: nat, src: array<bool>, dst: array<bool>, pos: nat, xPos: nat, yPos: nat)
    requires Valid(pic) && Side(width) && width > 2 && Fits(pic, xPos, yPos, width, width)
    requires pos == Pos(pic.width, xPos, yPos)
    requires Level(pic, src, RowWant(pic, width / 2, width / 2), width / 2, width / 2)
    requires dst.Length == pic.width * pic.height && dst != src
    requires UpTo(pic, dst, RowWant(pic, width, width), pos, width, width)
    modifies dst
    ensures UpTo(pic, dst, RowWant(pic, width, width), pos + 1, width, width)
  {
    hide *;
    var srcWidth, quadWidth, srcHeight := width / 2, width / 4, width / 2;
    SquareRowCell(pic, src, xPos, yPos, width);
    var r := src[pos] && src[pos + quadWidth] && src[pos + srcWidth] &&
             src[pos + srcHeight * pic.width] && src[pos + srcHeight * pic.width + quadWidth] &&
             src[pos + srcHeight * pic.width + srcWidth];
    Put(dst, pos, r, pic, RowWant(pic, width, width), width, width);
  }

  /** The column flag of the square loop: six overlapping column flags below, and-ed. */
  method SquareColPut(pic: Picture, width: nat, src: array<bool>, dst: array<bool>, pos: nat, xPos: nat, yPos: nat)
    requires Valid(pic) && Side(width) && width > 2 && Fits(pic, xPos, yPos, width, width)
    requires pos == Pos(pic.width, xPos, yPos)
    requires Level(pic, src, ColWant(pic, width / 2, width / 2), width / 2, width / 2)
    requires dst.Length == pic.width * pic.height && dst != src
    requires UpTo(pic, dst, ColWant(pic, width, width), pos, width, width)
    modifies dst
    ensures UpTo(pic, dst, ColWant(pic, width, width), pos + 1, width, width)
  {
    hide *;
    var srcWidth, srcHeight, quadHeight := width / 2, width / 2, width / 4;
    SquareColCell(pic, src, xPos, yPos, width);
    var c := src[pos] && src[pos + srcWidth] && src[pos + quadHeight * pic.width] &&
             src[pos + quadHeight * pic.width + srcWidth] && src[pos + srcHeight * pic.width] &&
             src[pos + srcHeight * pic.width + srcWidth];
    Put(dst, pos, c, pic, ColWant(pic, width, width), width, width);
  }

  /** One CRC of the square loop: the four quarter hashes read, hashed and written at the square's position. */
  method SquareHashPut(pic: Picture, width: nat, crc: CrcCalculator, src: array<Word>, dst: array<Word>,
                       pos: nat, xPos: nat, yPos: nat)
    requires Valid(pic) && crc.Valid() && ValidWidth(crc.Spec().bits)
    requires Side(width) && width > 2 && Fits(pic, xPos, yPos, width, width)
    requires pos == Pos(pic.width, xPos, yPos)
    requires Level(pic, src, HashWant(pic, crc.Spec(), width / 2, width / 2), width / 2, width / 2)
    requires dst.Length == pic.width * pic.height && dst != src && dst != crc.table
    requires UpTo(pic, dst, HashWant(pic, crc.Spec(), width, width), pos, width, width)
    modifies crc, dst
    ensures crc.Valid()
    ensures UpTo(pic, dst, HashWant(pic, crc.Spec(), width, width), pos + 1, width, width)
  {
    hide *;
    SquareShape(width);
    var srcWidth, srcHeight := width / 2, width / 2;
    SquareHashCell(pic, crc.Spec(), src, xPos, yPos, width);
    var p := [src[pos], src[pos + srcWidth], src[pos + srcHeight * pic.width],
              src[pos + srcHeight * pic.width + srcWidth]];
    var v := GetCrcValue(crc, Serialise(p));
    Put(dst, pos, v, pic, HashWant(pic, crc.Spec(), width, width), width, width);
  }

  /** The second pass of a level: the insertion flag of every position from its row and column flags. */
  method AddPass(pic: Picture, width: nat, height: nat, row: array<bool>, col: array<bool>, add: array<bool>)
    requires Valid(pic) && Shape(width, height)
    requires Level(pic, row, RowWant(pic, width, height), width, height)
    requires Level(pic, col, ColWant(pic, width, height), width, height)
    requires add.Length == pic.width * pic.height && add != row && add != col
    modifies add
    ensures Level(pic, add, AddWant(pic, width, height), width, height)
  {
    hide *;
    Dimensions(pic);
    PosOrigin(pic.width);
    ShapeSides(width, height);
    ghost var want := AddWant(pic, width, height);
    var xEnd := pic.width - width + 1;
    var yEnd := pic.height - height + 1;
    var widthMinus1 := width - 1;
    var heightMinus1 := height - 1;
    var pos := 0;
    Start(pic, add, want, width, height);
    var yPos := 0;
    while yPos < yEnd
      invariant 0 <= yPos && (yEnd >= 0 ==> yPos <= yEnd)
      invariant xEnd >= 0 ==> pos == Pos(pic.width, 0, yPos)
      invariant UpTo(pic, add, want, Pos(pic.width, 0, yPos), width, height)
    {
      var xPos := 0;
      while xPos < xEnd
        invariant 0 <= xPos && (xEnd >= 0 ==> xPos <= xEnd)
        invariant xEnd >= 0 ==> pos == Pos(pic.width, xPos, yPos)
        invariant UpTo(pic, add, want, Pos(pic.width, xPos, yPos), width, height)
      {
        FitsWithin(pic, xPos, yPos, width, height);
        AddCell(pic, row, col, xPos, yPos, width, height);
        var v := (!row[pos] && !col[pos]) || (BitAnd(xPos, widthMinus1) == 0 && BitAnd(yPos, heightMinus1) == 0);
        Put(add, pos, v, pic, want, width, height);
        PosNext(pic.width, xPos, yPos);
        pos := pos + 1;
        xPos := xPos + 1;
      }
      SkipRow(pic, add, want, yPos, width, height);
      if xEnd >= 0 { PosRowEnd(pic.width, yPos, width); }
      pos := pos + width - 1;
      yPos := yPos + 1;
    }
    Finish(pic, add, want, yPos, width, height);
  }

  /** Both sides of a block shape are powers of two of at least 2. */
  lemma ShapeSides(w: nat, h: nat)
    requires Shape(w, h)
    ensures Side(w) && Side(h)
  {
  }

  // ---------------------------------------------------------------------
  // Rectangle levels.
  // ---------------------------------------------------------------------

  /** The squares a 2:1 rectangle pass reads all fit inside the rectangle. */
  lemma WideParts(pic: Picture, x: nat, y: nat, h: nat)
    requires Side(h) && Fits(pic, x, y, 2 * h, h)
    ensures Shape(h, h) && Shape(2 * h, h) && h >= 1 && (2 * h) / 4 >= 1
    ensures Fits(pic, x, y, h, h) && Fits(pic, x + (2 * h) / 4, y, h, h) && Fits(pic, x + h, y, h, h)
  {
  }

  /** The squares a 1:2 rectangle pass reads all fit inside the rectangle. */
  lemma TallParts(pic: Picture, x: nat, y: nat, w: nat)
    requires Side(w) && Fits(pic, x, y, w, 2 * w)
    ensures Shape(w, w) && Shape(w, 2 * w) && w >= 1 && (2 * w) / 4 >= 1
    ensures Fits(pic, x, y, w, w) && Fits(pic, x, y + (2 * w) / 4, w, w) && Fits(pic, x, y + w, w, w)
  {
  }

  /** The two square hashes a 2:1 pass reads combine into the rectangle's hash. */
  lemma WideHashCell(pic: Picture, e: CrcSpec, src: array<Word>, x: nat, y: nat, h: nat)
    requires Valid(pic) && ValidWidth(e.bits) && Side(h) && Fits(pic, x, y, 2 * h, h)
    requires Level(pic, src, HashWant(pic, e, h, h), h, h)
    ensures var pos := Pos(pic.width, x, y);
      && pos + h < src.Length && pos < |HashWant(pic, e, 2 * h, h)|
      && CrcOf(e, Serialise([src[pos], src[pos + h]])) == HashWant(pic, e, 2 * h, h)[pos]
  {
    hide *;
    var pos := Pos(pic.width, x, y);
    WideParts(pic, x, y, h);
    WideJoin(pic, e, x, y, h);
    PosRight(pic.width, x, y, h);
    HashAt(pic, e, src, x, y, h, h, pos);
    HashAt(pic, e, src, x + h, y, h, h, pos + h);
    HashWantAt(pic, e, x, y, 2 * h, h);
  }

  /** The two square hashes a 1:2 pass reads combine into the rectangle's hash. */
  lemma TallHashCell(pic: Picture, e: CrcSpec, src: array<Word>, x: nat, y: nat, w: nat)
    requires Valid(pic) && ValidWidth(e.bits) && Side(w) && Fits(pic, x, y, w, 2 * w)
    requires Level(pic, src, HashWant(pic, e, w, w), w, w)
    ensures var pos := Pos(pic.width, x, y);
      && 0 <= w * pic.width
      && pos + w * pic.width < src.Length && pos < |HashWant(pic, e, w, 2 * w)|
      && CrcOf(e, Serialise([src[pos], src[pos + w * pic.width]])) == HashWant(pic, e, w, 2 * w)[pos]
  {
    hide *;
    var pos := Pos(pic.width, x, y);
    TallParts(pic, x, y, w);
    TallJoin(pic, e, x, y, w);
    PosDown(pic.width, x, y, w);
    HashAt(pic, e, src, x, y, w, w, pos);
    HashAt(pic, e, src, x, y + w, w, w, pos + w * pic.width);
    HashWantAt(pic, e, x, y, w, 2 * w);
  }

  /** The three row flags a 2:1 pass reads combine into the rectangle's row flag. */
  lemma WideRowCell(pic: Picture, src: array<bool>, x: nat, y: nat, h: nat)
    requires Valid(pic) && Side(h) && Fits(pic, x, y, 2 * h, h)
    requires Level(pic, src, RowWant(pic, h, h), h, h)
    ensures var q, pos := (2 * h) / 4, Pos(pic.width, x, y);
      && pos + q < src.Length && pos + h < src.Length && pos < |RowWant(pic, 2 * h, h)|
      && (src[pos] && src[pos + q] && src[pos + h]) == RowWant(pic, 2 * h, h)[pos]
  {
    hide *;
    var q, pos := (2 * h) / 4, Pos(pic.width, x, y);
    WideParts(pic, x, y, h);
    WideRowIff(pic, x, y, h, pic.chroma444);
    PosRight(pic.width, x, y, q);
    PosRight(pic.width, x, y, h);
    RowAt(pic, src, x, y, h, h, pos);
    RowAt(pic, src, x + q, y, h, h, pos + q);
    RowAt(pic, src, x + h, y, h, h, pos + h);
    RowWantAt(pic, x, y, 2 * h, h);
  }

  /** The two column flags a 2:1 pass reads combine into the rectangle's column flag. */
  lemma WideColCell(pic: Picture, src: array<bool>, x: nat, y: nat, h: nat)
    requires Valid(pic) && Side(h) && Fits(pic, x, y, 2 * h, h)
    requires Level(pic, src, ColWant(pic, h, h), h, h)
    ensures var pos := Pos(pic.width, x, y);
      && pos + h < src.Length && pos < |ColWant(pic, 2 * h, h)|
      && (src[pos] && src[pos + h]) == ColWant(pic, 2 * h, h)[pos]
  {
    hide *;
    var pos := Pos(pic.width, x, y);
    WideParts(pic, x, y, h);
    WideColIff(pic, x, y, h, pic.chroma444);
    PosRight(pic.width, x, y, h);
    ColAt(pic, src, x, y, h, h, pos);
    ColAt(pic, src, x + h, y, h, h, pos + h);
    ColWantAt(pic, x, y, 2 * h, h);
  }

  /** The two row flags a 1:2 pass reads combine into the rectangle's row flag. */
  lemma TallRowCell(pic: Picture, src: array<bool>, x: nat, y: nat, w: nat)
    requires Valid(pic) && Side(w) && Fits(pic, x, y, w, 2 * w)
    requires Level(pic, src, RowWant(pic, w, w), w, w)
    ensures var pos := Pos(pic.width, x, y);
      && 0 <= w * pic.width
      && pos + w * pic.width < src.Length && pos < |RowWant(pic, w, 2 * w)|
      && (src[pos] && src[pos + w * pic.width]) == RowWant(pic, w, 2 * w)[pos]
  {
    hide *;
    var pos := Pos(pic.width, x, y);
    TallParts(pic, x, y, w);
    TallRowIff(pic, x, y, w, pic.chroma444);
    PosDown(pic.width, x, y, w);
    RowAt(pic, src, x, y, w, w, pos);
    RowAt(pic, src, x, y + w, w, w, pos + w * pic.width);
    RowWantAt(pic, x, y, w, 2 * w);
  }

  /** The three column flags a 1:2 pass reads combine into the rectangle's column flag. */
  lemma TallColCell(pic: Picture, src: array<bool>, x: nat, y: nat, w: nat)
    requires Valid(pic) && Side(w) && Fits(pic, x, y, w, 2 * w)
    requires Level(pic, src, ColWant(pic, w, w), w, w)
    ensures var q, pos := (2 * w) / 4, Pos(pic.width, x, y);
      && 0 <= q * pic.width && 0 <= w * pic.width
      && pos + q * pic.width < src.Length && pos + w * pic.width < src.Length && pos < |ColWant(pic, w, 2 * w)|
      && (src[pos] && src[pos + q * pic.width] && src[pos + w * pic.width]) == ColWant(pic, w, 2 * w)[pos]
  {
    hide *;
    var q, pos := (2 * w) / 4, Pos(pic.width, x, y);
    TallParts(pic, x, y, w);
    TallColIff(pic, x, y, w, pic.chroma444);
    PosDown(pic.width, x, y, q);
    PosDown(pic.width, x, y, w);
    ColAt(pic, src, x, y, w, w, pos);
    ColAt(pic, src, x, y + q, w, w, pos + q * pic.width);
    ColAt(pic, src, x, y + w, w, w, pos + w * pic.width);
    ColWantAt(pic, x, y, w, 2 * w);
  }

  /** The side of the squares a w x h rectangle is built from. */
  function MinSide(w: nat, h: nat): (s: nat)
    ensures s == w || s == h
    ensures s <= w && s <= h
  {
    if w < h then w else h
  }

  /**
   * `generateRectangleHashValue`: hashes and flags of every 2:1 (horizontal)
   * or 1:2 (vertical) rectangle from the two squares it is made of, then the
   * insertion flags.  Any other proportion fails the code's CHECK, reported
   * here as `ok == false` with nothing written.
   */
  method GenerateRectangleHashValue(pic: Picture, width: nat, height: nat, crc1: CrcCalculator, crc2: CrcCalculator,
                                    src1: array<Word>, src2: array<Word>, srcRow: array<bool>, srcCol: array<bool>,
                                    dst1: array<Word>, dst2: array<Word>,
                                    dstRow: array<bool>, dstCol: array<bool>, dstAdd: array<bool>)
    returns (ok: bool)
    requires Valid(pic) && crc1.Valid() && crc2.Valid() && Side(width) && Side(height)
    requires Level(pic, src1, HashWant(pic, crc1.Spec(), MinSide(width, height), MinSide(width, height)),
                   MinSide(width, height), MinSide(width, height))
    requires Level(pic, src2, HashWant(pic, crc2.Spec(), MinSide(width, height), MinSide(width, height)),
                   MinSide(width, height), MinSide(width, height))
    requires Level(pic, srcRow, RowWant(pic, MinSide(width, height), MinSide(width, height)),
                   MinSide(width, height), MinSide(width, height))
    requires Level(pic, srcCol, ColWant(pic, MinSide(width, height), MinSide(width, height)),
                   MinSide(width, height), MinSide(width, height))
    requires dst1.Length == dst2.Length == dstRow.Length == dstCol.Length == dstAdd.Length == pic.width * pic.height
    requires dst1 != dst2 && {crc1.table, crc2.table, src1, src2} !! {dst1, dst2}
    requires dstRow != dstCol && dstRow != dstAdd && dstCol != dstAdd
    requires {srcRow, srcCol} !! {dstRow, dstCol, dstAdd}
    modifies crc1, crc2, dst1, dst2, dstRow, dstCol, dstAdd
    ensures ok <==> width == 2 * height || height == 2 * width
    ensures crc1.Valid() && crc2.Valid()
    ensures !ok ==> unchanged(crc1, crc2) && unchanged(dst1, dst2, dstRow, dstCol, dstAdd)
    ensures ok ==> Shape(width, height)
    ensures ok ==> Level(pic, dst1, HashWant(pic, crc1.Spec(), width, height), width, height)
    ensures ok ==> Level(pic, dst2, HashWant(pic, crc2.Spec(), width, height), width, height)
    ensures ok ==> Level(pic, dstRow, RowWant(pic, width, height), width, height)
    ensures ok ==> Level(pic, dstCol, ColWant(pic, width, height), width, height)
    ensures ok ==> Level(pic, dstAdd, AddWant(pic, width, height), width, height)
  {
    hide *;
    if width != 2 * height && 2 * width != height {
      return false;
    }
    var isHorizontal := width == 2 * height;
    RectLevel(pic, width, height, isHorizontal, crc1, crc2, src1, src2, srcRow, srcCol, dst1, dst2, dstRow, dstCol);
    RectShape(width, height);
    AddPass(pic, width, height, dstRow, dstCol, dstAdd);
    return true;
  }

  /** A 2:1 or 1:2 rectangle of power-of-two sides is a block shape. */
  lemma RectShape(w: nat, h: nat)
    requires Side(w) && Side(h) && (w == 2 * h || h == 2 * w)
    ensures Shape(w, h)
  {
  }

  /**
   * The first pass of `generateRectangleHashValue`, over every fitting
   * position; the code runs one copy of the loop per orientation, here the
   * orientation is chosen inside the one loop.
   */
  method RectLevel(pic: Picture, width: nat, height: nat, isHorizontal: bool, crc1: CrcCalculator, crc2: CrcCalculator,
                   src1: array<Word>, src2: array<Word>, srcRow: array<bool>, srcCol: array<bool>,
                   dst1: array<Word>, dst2: array<Word>, dstRow: array<bool>, dstCol: array<bool>)
    requires Valid(pic) && crc1.Valid() && crc2.Valid() && Side(width) && Side(height)
    requires if isHorizontal then width == 2 * height else height == 2 * width
    requires Level(pic, src1, HashWant(pic, crc1.Spec(), MinSide(width, height), MinSide(width, height)),
                   MinSide(width, height), MinSide(width, height))
    requires Level(pic, src2, HashWant(pic, crc2.Spec(), MinSide(width, height), MinSide(width, height)),
                   MinSide(width, height), MinSide(width, height))
    requires Level(pic, srcRow, RowWant(pic, MinSide(width, height), MinSide(width, height)),
                   MinSide(width, height), MinSide(width, height))
    requires Level(pic, srcCol, ColWant(pic, MinSide(width, height), MinSide(width, height)),
                   MinSide(width, height), MinSide(width, height))
    requires dst1.Length == dst2.Length == dstRow.Length == dstCol.Length == pic.width * pic.height
    requires dst1 != dst2 && {crc1.table, crc2.table, src1, src2} !! {dst1, dst2}
    requires dstRow != dstCol && {srcRow, srcCol} !! {dstRow, dstCol}
    modifies crc1, crc2, dst1, dst2, dstRow, dstCol
    ensures crc1.Valid() && crc2.Valid() && Shape(width, height)
    ensures Level(pic, dst1, HashWant(pic, crc1.Spec(), width, height), width, height)
    ensures Level(pic, dst2, HashWant(pic, crc2.Spec(), width, height), width, height)
    ensures Level(pic, dstRow, RowWant(pic, width, height), width, height)
    ensures Level(pic, dstCol, ColWant(pic, width, height), width, height)
  {
    hide *;
    WidthOf(crc1);
    WidthOf(crc2);
    Dimensions(pic);
    PosOrigin(pic.width);
    RectShape(width, height);
    ShapeSides(width, height);
    ghost var want1, want2 := HashWant(pic, crc1.Spec(), width, height), HashWant(pic, crc2.Spec(), width, height);
    ghost var wantR, wantC := RowWant(pic, width, height), ColWant(pic, width, height);
    var xEnd := pic.width - width + 1;
    var yEnd := pic.height - height + 1;
    var pos := 0;
    Start(pic, dst1, want1, width, height);
    Start(pic, dst2, want2, width, height);
    Start(pic, dstRow, wantR, width, height);
    Start(pic, dstCol, wantC, width, height);
    var yPos := 0;
    while yPos < yEnd
      invariant 0 <= yPos && (yEnd >= 0 ==> yPos <= yEnd)
      invariant xEnd >= 0 ==> pos == Pos(pic.width, 0, yPos)
      invariant crc1.Valid() && crc2.Valid()
      invariant UpTo(pic, dst1, want1, Pos(pic.width, 0, yPos), width, height)
      invariant UpTo(pic, dst2, want2, Pos(pic.width, 0, yPos), width, height)
      invariant UpTo(pic, dstRow, wantR, Pos(pic.width, 0, yPos), width, height)
      invariant UpTo(pic, dstCol, wantC, Pos(pic.width, 0, yPos), width, height)
    {
      var xPos := 0;
      while xPos < xEnd
        invariant 0 <= xPos && (xEnd >= 0 ==> xPos <= xEnd)
        invariant xEnd >= 0 ==> pos == Pos(pic.width, xPos, yPos)
        invariant crc1.Valid() && crc2.Valid()
        invariant UpTo(pic, dst1, want1, Pos(pic.width, xPos, yPos), width, height)
        invariant UpTo(pic, dst2, want2, Pos(pic.width, xPos, yPos), width, height)
        invariant UpTo(pic, dstRow, wantR, Pos(pic.width, xPos, yPos), width, height)
        invariant UpTo(pic, dstCol, wantC, Pos(pic.width, xPos, yPos), width, height)
      {
        FitsWithin(pic, xPos, yPos, width, height);
        if isHorizontal {
          WideStep(pic, width, height, crc1, crc2, src1, src2, srcRow, srcCol, dst1, dst2, dstRow, dstCol,
                   pos, xPos, yPos);
        } else {
          TallStep(pic, width, height, crc1, crc2, src1, src2, srcRow, srcCol, dst1, dst2, dstRow, dstCol,
                   pos, xPos, yPos);
        }
        PosNext(pic.width, xPos, yPos);
        pos := pos + 1;
        xPos := xPos + 1;
      }
      SkipRow(pic, dst1, want1, yPos, width, height);
      SkipRow(pic, dst2, want2, yPos, width, height);
      SkipRow(pic, dstRow, wantR, yPos, width, height);
      SkipRow(pic, dstCol, wantC, yPos, width, height);
      if xEnd >= 0 { PosRowEnd(pic.width, yPos, width); }
      pos := pos + width - 1;
      yPos := yPos + 1;
    }
    Finish(pic, dst1, want1, yPos, width, height);
    Finish(pic, dst2, want2, yPos, width, height);
    Finish(pic, dstRow, wantR, yPos, width, height);
    Finish(pic, dstCol, wantC, yPos, width, height);
  }

  /** The body of the horizontal loop: one 2:1 rectangle from its left and right squares. */
  method WideStep(pic: Picture, width: nat, height: nat, crc1: CrcCalculator, crc2: CrcCalculator,
                  src1: array<Word>, src2: array<Word>, srcRow: array<bool>, srcCol: array<bool>,
                  dst1: array<Word>, dst2: array<Word>, dstRow: array<bool>, dstCol: array<bool>,
                  pos: nat, xPos: nat, yPos: nat)
    requires Valid(pic) && crc1.Valid() && crc2.Valid()
    requires ValidWidth(crc1.Spec().bits) && ValidWidth(crc2.Spec().bits)
    requires width == 2 * height && Side(height) && Fits(pic, xPos, yPos, width, height)
    requires pos == Pos(pic.width, xPos, yPos)
    requires Level(pic, src1, HashWant(pic, crc1.Spec(), height, height), height, height)
    requires Level(pic, src2, HashWant(pic, crc2.Spec(), height, height), height, height)
    requires Level(pic, srcRow, RowWant(pic, height, height), height, height)
    requires Level(pic, srcCol, ColWant(pic, height, height), height, height)
    requires dst1.Length == dst2.Length == dstRow.Length == dstCol.Length == pic.width * pic.height
    requires dst1 != dst2 && {crc1.table, crc2.table, src1, src2} !! {dst1, dst2}
    requires dstRow != dstCol && {srcRow, srcCol} !! {dstRow, dstCol}
    requires UpTo(pic, dst1, HashWant(pic, crc1.Spec(), width, height), pos, width, height)
    requires UpTo(pic, dst2, HashWant(pic, crc2.Spec(), width, height), pos, width, height)
    requires UpTo(pic, dstRow, RowWant(pic, width, height), pos, width, height)
    requires UpTo(pic, dstCol, ColWant(pic, width, height), pos, width, height)
    modifies crc1, crc2, dst1, dst2, dstRow, dstCol
    ensures crc1.Valid() && crc2.Valid()
    ensures UpTo(pic, dst1, HashWant(pic, crc1.Spec(), width, height), pos + 1, width, height)
    ensures UpTo(pic, dst2, HashWant(pic, crc2.Spec(), width, height), pos + 1, width, height)
    ensures UpTo(pic, dstRow, RowWant(pic, width, height), pos + 1, width, height)
    ensures UpTo(pic, dstCol, ColWant(pic, width, height), pos + 1, width, height)
  {
    hide *;
    WideParts(pic, xPos, yPos, height);
    WideHashPut(pic, height, crc1, src1, dst1, pos, xPos, yPos);
    WideHashPut(pic, height, crc2, src2, dst2, pos, xPos, yPos);
    var srcWidth, quadWidth := width / 2, width / 4;
    WideRowCell(pic, srcRow, xPos, yPos, height);
    WideColCell(pic, srcCol, xPos, yPos, height);
    var r := srcRow[pos] && srcRow[pos + quadWidth] && srcRow[pos + srcWidth];
    var c := srcCol[pos] && srcCol[pos + srcWidth];
    Put(dstRow, pos, r, pic, RowWant(pic, width, height), width, height);
    Put(dstCol, pos, c, pic, ColWant(pic, width, height), width, height);
  }

  /** One CRC of the horizontal loop: the left and right square hashes read, hashed and written. */
  method WideHashPut(pic: Picture, h: nat, crc: CrcCalculator, src: array<Word>, dst: array<Word>,
                     pos: nat, xPos: nat, yPos: nat)
    requires Valid(pic) && crc.Valid() && ValidWidth(crc.Spec().bits)
    requires Side(h) && Fits(pic, xPos, yPos, 2 * h, h) && Shape(2 * h, h)
    requires pos == Pos(pic.width, xPos, yPos)
    requires Level(pic, src, HashWant(pic, crc.Spec(), h, h), h, h)
    requires dst.Length == pic.width * pic.height && dst != src && dst != crc.table
    requires UpTo(pic, dst, HashWant(pic, crc.Spec(), 2 * h, h), pos, 2 * h, h)
    modifies crc, dst
    ensures crc.Valid()
    ensures UpTo(pic, dst, HashWant(pic, crc.Spec(), 2 * h, h), pos + 1, 2 * h, h)
  {
    hide *;
    WideHashCell(pic, crc.Spec(), src, xPos, yPos, h);
    var p := [src[pos], src[pos + h]];
    var v := GetCrcValue(crc, Serialise(p));
    Put(dst, pos, v, pic, HashWant(pic, crc.Spec(), 2 * h, h), 2 * h, h);
  }

  /** The body of the vertical loop: one 1:2 rectangle from its top and bottom squares. */
  method TallStep(pic: Picture, width: nat, height: nat, crc1: CrcCalculator, crc2: CrcCalculator,
                  src1: array<Word>, src2: array<Word>, srcRow: array<bool>, srcCol: array<bool>,
                  dst1: array<Word>, dst2: array<Word>, dstRow: array<bool>, dstCol: array<bool>,
                  pos: nat, xPos: nat, yPos: nat)
    requires Valid(pic) && crc1.Valid() && crc2.Valid()
    requires ValidWidth(crc1.Spec().bits) && ValidWidth(crc2.Spec().bits)
    requires height == 2 * width && Side(width) && Fits(pic, xPos, yPos, width, height)
    requires pos == Pos(pic.width, xPos, yPos)
    requires Level(pic, src1, HashWant(pic, crc1.Spec(), width, width), width, width)
    requires Level(pic, src2, HashWant(pic, crc2.Spec(), width, width), width, width)
    requires Level(pic, srcRow, RowWant(pic, width, width), width, width)
    requires Level(pic, srcCol, ColWant(pic, width, width), width, width)
    requires dst1.Length == dst2.Length == dstRow.Length == dstCol.Length == pic.width * pic.height
    requires dst1 != dst2 && {crc1.table, crc2.table, src1, src2} !! {dst1, dst2}
    requires dstRow != dstCol && {srcRow, srcCol} !! {dstRow, dstCol}
    requires UpTo(pic, dst1, HashWant(pic, crc1.Spec(), width, height), pos, width, height)
    requires UpTo(pic, dst2, HashWant(pic, crc2.Spec(), width, height), pos, width, height)
    requires UpTo(pic, dstRow, RowWant(pic, width, height), pos, width, height)
    requires UpTo(pic, dstCol, ColWant(pic, width, height), pos, width, height)
    modifies crc1, crc2, dst1, dst2, dstRow, dstCol
    ensures crc1.Valid() && crc2.Valid()
    ensures UpTo(pic, dst1, HashWant(pic, crc1.Spec(), width, height), pos + 1, width, height)
    ensures UpTo(pic, dst2, HashWant(pic, crc2.Spec(), width, height), pos + 1, width, height)
    ensures UpTo(pic, dstRow, RowWant(pic, width, height), pos + 1, width, height)
    ensures UpTo(pic, dstCol, ColWant(pic, width, height), pos + 1, width, height)
  {
    hide *;
    TallParts(pic, xPos, yPos, width);
    TallHashPut(pic, width, crc1, src1, dst1, pos, xPos, yPos);
    TallHashPut(pic, width, crc2, src2, dst2, pos, xPos, yPos);
    var srcHeight, quadHeight := height / 2, height / 4;
    TallRowCell(pic, srcRow, xPos, yPos, width);
    TallColCell(pic, srcCol, xPos, yPos, width);
    var r := srcRow[pos] && srcRow[pos + srcHeight * pic.width];
    var c := srcCol[pos] && srcCol[pos + quadHeight * pic.width] && srcCol[pos + srcHeight * pic.width];
    Put(dstRow, pos, r, pic, RowWant(pic, width, height), width, height);
    Put(dstCol, pos, c, pic, ColWant(pic, width, height), width, height);
  }

  /** One CRC of the vertical loop: the top and bottom square hashes read, hashed and written. */
  method TallHashPut(pic: Picture, w: nat, crc: CrcCalculator, src: array<Word>, dst: array<Word>,
                     pos: nat, xPos: nat, yPos: nat)
    requires Valid(pic) && crc.Valid() && ValidWidth(crc.Spec().bits)
    requires Side(w) && Fits(pic, xPos, yPos, w, 2 * w) && Shape(w, 2 * w)
    requires pos == Pos(pic.width, xPos, yPos)
    requires Level(pic, src, HashWant(pic, crc.Spec(), w, w), w, w)
    requires dst.Length == pic.width * pic.height && dst != src && dst != crc.table
    requires UpTo(pic, dst, HashWant(pic, crc.Spec(), w, 2 * w), pos, w, 2 * w)
    modifies crc, dst
    ensures crc.Valid()
    ensures UpTo(pic, dst, HashWant(pic, crc.Spec(), w, 2 * w), pos + 1, w, 2 * w)
  {
    hide *;
    TallHashCell(pic, crc.Spec(), src, xPos, yPos, w);
    var p := [src[pos], src[pos + w * pic.width]];
    var v := GetCrcValue(crc, Serialise(p));
    Put(dst, pos, v, pic, HashWant(pic, crc.Spec(), w, 2 * w), w, 2 * w);
  }
}
