// How many entries the bulk pass files for a constant frame.
//
// In a frame whose every pixel has the same value, every block is constant
// along its rows (and its columns), so only the blocks on the block-size grid
// are eligible: the bulk scan over the (W - w + 1) x (H - h + 1) positions a
// w x h block fits at files exactly floor(W / w) * floor(H / h) entries.

module FlatFrame {
  import opened Bits
  import opened Crc
  import opened Picture
  import opened HashSpec
  import opened Pyramid
  import opened HashTable
  import opened Agreement

  /** Every pixel of the frame holds the value of the top-left one. */
  ghost predicate Flat(pic: Picture)
  {
    forall c: nat, x: nat, y: nat :: x < pic.width && y < pic.height ==> pic.sample(c, x, y) == pic.sample(c, 0, 0)
  }

  /** The number of multiples of h below n. */
  function Multiples(n: nat, h: nat): nat
  {
    if n == 0 then 0 else Multiples(n - 1, h) + (if h >= 1 && (n - 1) % h == 0 then 1 else 0)
  }

  /** Below n there are ceil(n / h) multiples of h. */
  lemma {:induction false} MultiplesCount(n: nat, h: nat)
    requires h >= 1
    ensures Multiples(n, h) == (n + h - 1) / h
  {
    if n == 0 {
      DivModUnique(h - 1, h, 0, h - 1);
    } else {
      MultiplesCount(n - 1, h);
      CeilStep(n - 1, h);
    }
  }

  /** Going from m to m + 1, ceil(m / h) grows by one exactly when m is a multiple of h. */
  lemma CeilStep(m: nat, h: nat)
    requires h >= 1
    ensures (m + h) / h == (m + h - 1) / h + (if m % h == 0 then 1 else 0)
  {
    var q, r := (m + h - 1) / h, (m + h - 1) % h;
    assert m + h - 1 == h * q + r;
    if r + 1 < h {
      DivModUnique(m + h, h, q, r + 1);
      assert m == h * (q - 1) + (r + 1);
      DivModUnique(m, h, q - 1, r + 1);
    } else {
      assert m + h == h * (q + 1) + 0;
      DivModUnique(m + h, h, q + 1, 0);
      assert m == h * q;
      DivModUnique(m, h, q, 0);
    }
  }

  /** A side of n samples holds floor(n / w) grid-aligned starts of a w-long block. */
  lemma AlignedStarts(n: nat, w: nat)
    requires w >= 1
    ensures Multiples(Span(n, w), w) == n / w
  {
    MultiplesCount(Span(n, w), w);
    if n + 1 < w || n + 1 == w {
      DivModUnique(n, w, 0, n);
      DivModUnique(w - 1, w, 0, w - 1);
    }
  }

  /** In a constant frame, a block is eligible exactly when it lies on the block-size grid. */
  lemma FlatAddable(pic: Picture, x: nat, y: nat, w: nat, h: nat)
    requires Valid(pic) && Flat(pic) && Fits(pic, x, y, w, h) && w >= 1 && h >= 1
    ensures Addable(pic, x, y, w, h) <==> x % w == 0 && y % h == 0
  {
    assert RowConst(pic, x, y, w, h, pic.chroma444) by {
      forall yy, xx | y <= yy < y + h && x <= xx && xx + 1 < x + w
        ensures PixelBytes(pic, xx, yy, pic.chroma444) == PixelBytes(pic, xx + 1, yy, pic.chroma444)
      {
        FlatPixel(pic, xx, yy);
        FlatPixel(pic, xx + 1, yy);
      }
    }
  }

  /** Every pixel of a constant frame serialises as the top-left one. */
  lemma FlatPixel(pic: Picture, x: nat, y: nat)
    requires Valid(pic) && Flat(pic) && x < pic.width && y < pic.height
    ensures PixelBytes(pic, x, y, pic.chroma444) == PixelBytes(pic, 0, 0, pic.chroma444)
  {
    assert pic.sample(0, x, y) == pic.sample(0, 0, 0);
    assert pic.sample(1, x, y) == pic.sample(1, 0, 0);
    assert pic.sample(2, x, y) == pic.sample(2, 0, 0);
  }

  /** In a constant frame, the bulk pass files one entry at (x, y) exactly when it is a grid point. */
  lemma FlatEntry(pic: Picture, e1: CrcSpec, e2: CrcSpec, hash1: array<Word>, hash2: array<Word>,
                  isAdded: array<bool>, crcBits: nat, idx: nat, w: nat, h: nat, x: nat, y: nat)
    requires Valid(pic) && ValidWidth(e1.bits) && ValidWidth(e2.bits) && Shape(w, h) && Flat(pic)
    requires BulkArrays(pic, e1, e2, w, h, hash1, hash2, isAdded)
    requires x < Span(pic.width, w) && y < Span(pic.height, h)
    ensures |EntryAt(hash1, hash2, isAdded, pic.width, crcBits, idx, x, y)| == if x % w == 0 && y % h == 0 then 1 else 0
  {
    ShapeSides(w, h);
    BulkEntry(pic, e1, e2, hash1, hash2, isAdded, crcBits, idx, w, h, x, y);
    FlatAddable(pic, x, y, w, h);
  }

  /** Column x of a constant frame's scan files one entry per grid row, and none off the grid columns. */
  lemma {:induction false} FlatColumn(pic: Picture, e1: CrcSpec, e2: CrcSpec, hash1: array<Word>, hash2: array<Word>,
                                      isAdded: array<bool>, crcBits: nat, idx: nat, w: nat, h: nat, x: nat, rows: nat)
    requires Valid(pic) && ValidWidth(e1.bits) && ValidWidth(e2.bits) && Shape(w, h) && Flat(pic)
    requires BulkArrays(pic, e1, e2, w, h, hash1, hash2, isAdded)
    requires x < Span(pic.width, w) && rows <= Span(pic.height, h)
    ensures |ColumnScan(hash1, hash2, isAdded, pic.width, crcBits, idx, x, rows)|
            == if x % w == 0 then Multiples(rows, h) else 0
  {
    if rows > 0 {
      ShapeSides(w, h);
      FlatColumn(pic, e1, e2, hash1, hash2, isAdded, crcBits, idx, w, h, x, rows - 1);
      FlatEntry(pic, e1, e2, hash1, hash2, isAdded, crcBits, idx, w, h, x, rows - 1);
    }
  }

  /** The first cols columns of a constant frame's scan file one entry per grid point among them. */
  lemma {:induction false} FlatScan(pic: Picture, e1: CrcSpec, e2: CrcSpec, hash1: array<Word>, hash2: array<Word>,
                                    isAdded: array<bool>, crcBits: nat, idx: nat, w: nat, h: nat, cols: nat)
    requires Valid(pic) && ValidWidth(e1.bits) && ValidWidth(e2.bits) && Shape(w, h) && Flat(pic)
    requires BulkArrays(pic, e1, e2, w, h, hash1, hash2, isAdded)
    requires cols <= Span(pic.width, w)
    ensures |Scan(hash1, hash2, isAdded, pic.width, crcBits, idx, cols, Span(pic.height, h))|
            == Product(Multiples(cols, w), Multiples(Span(pic.height, h), h))
  {
    hide BulkArrays, Flat, Valid, ValidWidth, EntryAt, ColumnScan;
    if cols > 0 {
      ShapeSides(w, h);
      assert w >= 1;
      hide *;
      var rows := Span(pic.height, h);
      ScanSplit(hash1, hash2, isAdded, pic.width, crcBits, idx, cols, rows);
      FlatScan(pic, e1, e2, hash1, hash2, isAdded, crcBits, idx, w, h, cols - 1);
      FlatColumn(pic, e1, e2, hash1, hash2, isAdded, crcBits, idx, w, h, cols - 1, rows);
      MultiplesStep(cols, w);
      MulStep(Multiples(cols - 1, w), (cols - 1) % w == 0, Multiples(rows, h), Multiples(cols, w));
    }
  }

  /** One more number: one more multiple exactly when the new number is one. */
  lemma MultiplesStep(n: nat, h: nat)
    requires n >= 1 && h >= 1
    ensures Multiples(n, h) == Multiples(n - 1, h) + (if (n - 1) % h == 0 then 1 else 0)
  {
  }

  /** One more row of m, or none. */
  lemma MulStep(a: nat, c: bool, m: nat, n: nat)
    requires n == a + (if c then 1 else 0)
    ensures Product(n, m) == Product(a, m) + (if c then m else 0)
  {
  }

  /** `a * b`, named so that a proof can treat it as a value. */
  function Product(a: nat, b: nat): nat
  {
    a * b
  }

  /** The scan of cols columns is the scan of the first cols - 1 followed by the last column. */
  lemma ScanSplit(hash1: array<Word>, hash2: array<Word>, isAdded: array<bool>, picWidth: nat,
                  crcBits: nat, idx: nat, cols: nat, rows: nat)
    requires cols >= 1
    ensures |Scan(hash1, hash2, isAdded, picWidth, crcBits, idx, cols, rows)|
            == |Scan(hash1, hash2, isAdded, picWidth, crcBits, idx, cols - 1, rows)|
               + |ColumnScan(hash1, hash2, isAdded, picWidth, crcBits, idx, cols - 1, rows)|
  {
  }

  /**
   * A constant W x H frame: bulk insertion of a supported w x h size files
   * exactly floor(W / w) * floor(H / h) entries, one per grid-aligned block.
   */
  lemma FlatFrameCount(pic: Picture, e1: CrcSpec, e2: CrcSpec, hash1: array<Word>, hash2: array<Word>,
                       isAdded: array<bool>, crcBits: nat, w: nat, h: nat)
    requires Valid(pic) && ValidWidth(e1.bits) && ValidWidth(e2.bits) && SizeIndexOf(w, h) >= 0 && Flat(pic)
    requires (SizeIndexShape(w, h); BulkArrays(pic, e1, e2, w, h, hash1, hash2, isAdded))
    ensures |Scan(hash1, hash2, isAdded, pic.width, crcBits, SizeIndexOf(w, h), Span(pic.width, w), Span(pic.height, h))|
            == (pic.width / w) * (pic.height / h)
  {
    SizeIndexShape(w, h);
    ShapeSides(w, h);
    FlatScan(pic, e1, e2, hash1, hash2, isAdded, crcBits, SizeIndexOf(w, h), w, h, Span(pic.width, w));
    AlignedStarts(pic.width, w);
    AlignedStarts(pic.height, h);
  }
}
