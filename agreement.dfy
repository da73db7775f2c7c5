// What the bulk pass puts into the table, stated in terms of the block
// hashes, and how it relates to the single-block hasher.
//
// The bulk arrays hold, at the position of every block that fits, the
// block's two hashes and its insertion flag.  Bulk insertion then files
// under `Key(..., BlockHashOf(engine 1))` the entry `(x, y,
// BlockHashOf(engine 2))` of exactly the blocks whose flag is set, and
// `getBlockHashValue` returns that same key and secondary hash for any
// block.  So a block the bulk pass inserted is found again by hashing it on
// demand, and whatever the bulk pass filed under a key is a block with that
// key.

module Agreement {
  import opened Bits
  import opened Crc
  import opened Picture
  import opened HashSpec
  import opened Pyramid
  import opened HashTable
  import opened OnDemand

  /** The frame-sized arrays of one block size as the bulk pass leaves them. */
  ghost predicate BulkArrays(pic: Picture, e1: CrcSpec, e2: CrcSpec, w: nat, h: nat,
                             hash1: array<Word>, hash2: array<Word>, isAdded: array<bool>)
    requires Valid(pic) && ValidWidth(e1.bits) && ValidWidth(e2.bits) && Shape(w, h)
    reads hash1, hash2, isAdded
  {
    ShapeSides(w, h);
    && Level(pic, hash1, HashWant(pic, e1, w, h), w, h)
    && Level(pic, hash2, HashWant(pic, e2, w, h), w, h)
    && Level(pic, isAdded, AddWant(pic, w, h), w, h)
  }

  /** The entry bulk insertion files for the block at (x, y), if it has one. */
  ghost function Wanted(pic: Picture, e1: CrcSpec, e2: CrcSpec, crcBits: nat, idx: nat, w: nat, h: nat, x: nat, y: nat)
    : seq<Insertion>
    requires Valid(pic) && ValidWidth(e1.bits) && ValidWidth(e2.bits) && Shape(w, h) && Fits(pic, x, y, w, h)
  {
    ShapeSides(w, h);
    if Addable(pic, x, y, w, h)
    then [Insertion(Key(crcBits, idx, BlockHashOf(pic, e1, x, y, w, h)), BlockHash(x, y, BlockHashOf(pic, e2, x, y, w, h)))]
    else []
  }

  /**
   * At a position where the block fits, bulk insertion files one entry
   * exactly when the block is eligible, under the key of its primary hash
   * and carrying its secondary hash.
   */
  lemma BulkEntry(pic: Picture, e1: CrcSpec, e2: CrcSpec, hash1: array<Word>, hash2: array<Word>, isAdded: array<bool>,
                  crcBits: nat, idx: nat, w: nat, h: nat, x: nat, y: nat)
    requires Valid(pic) && ValidWidth(e1.bits) && ValidWidth(e2.bits) && Shape(w, h) && Fits(pic, x, y, w, h)
    requires BulkArrays(pic, e1, e2, w, h, hash1, hash2, isAdded)
    ensures EntryAt(hash1, hash2, isAdded, pic.width, crcBits, idx, x, y) == Wanted(pic, e1, e2, crcBits, idx, w, h, x, y)
  {
    ShapeSides(w, h);
    var pos := Pos(pic.width, x, y);
    HashAt(pic, e1, hash1, x, y, w, h, pos);
    HashAt(pic, e2, hash2, x, y, w, h, pos);
    LevelAt(pic, isAdded, AddWant(pic, w, h), x, y, w, h);
    AddWantAt(pic, x, y, w, h);
  }

  /**
   * The single-block hasher and the bulk pass agree: for a supported block
   * size and a block inside the picture, `getBlockHashValue` returns the key
   * of the bulk pass's primary hash at the block's position and its secondary
   * hash there, and so the entry bulk insertion files for that block when it
   * is eligible.
   */
  method OnDemandMatchesBulk(pic: Picture, width: nat, height: nat, xStart: nat, yStart: nat,
                             crc1: CrcCalculator, crc2: CrcCalculator, crcBits: nat, sizeIndex: array2<int>,
                             hash1: array<Word>, hash2: array<Word>, isAdded: array<bool>)
    returns (ok: bool, hashValue1: nat, hashValue2: Word)
    requires Valid(pic) && crc1.Valid() && crc2.Valid() && SizeIndexTable(sizeIndex)
    requires width < 65 && height < 65 && Fits(pic, xStart, yStart, width, height)
    requires SizeIndexOf(width, height) >= 0 ==>
      (SizeIndexShape(width, height);
       BulkArrays(pic, crc1.Spec(), crc2.Spec(), width, height, hash1, hash2, isAdded))
    modifies crc1, crc2
    ensures ok == (SizeIndexOf(width, height) >= 0)
    ensures !ok ==> unchanged(crc1, crc2)
    ensures ok ==>
      (SizeIndexShape(width, height);
       EntryAt(hash1, hash2, isAdded, pic.width, crcBits, SizeIndexOf(width, height), xStart, yStart)
         == if Addable(pic, xStart, yStart, width, height)
            then [Insertion(hashValue1, BlockHash(xStart, yStart, hashValue2))]
            else [])
    ensures ok ==>
      && Pos(pic.width, xStart, yStart) < hash1.Length && Pos(pic.width, xStart, yStart) < hash2.Length
      && hashValue1 == Key(crcBits, SizeIndexOf(width, height), hash1[Pos(pic.width, xStart, yStart)])
      && hashValue2 == hash2[Pos(pic.width, xStart, yStart)]
  {
    WidthOf(crc1);
    WidthOf(crc2);
    ghost var e1, e2 := crc1.Spec(), crc2.Spec();
    ok, hashValue1, hashValue2 := GetBlockHashValue(pic, width, height, xStart, yStart, crc1, crc2, crcBits, sizeIndex);
    if ok {
      SizeIndexShape(width, height);
      BulkEntry(pic, e1, e2, hash1, hash2, isAdded, crcBits, SizeIndexOf(width, height), width, height, xStart, yStart);
      ShapeSides(width, height);
      HashAt(pic, e1, hash1, xStart, yStart, width, height, Pos(pic.width, xStart, yStart));
      HashAt(pic, e2, hash2, xStart, yStart, width, height, Pos(pic.width, xStart, yStart));
    }
  }

  // ---------------------------------------------------------------------
  // Membership in the bulk scan.
  // ---------------------------------------------------------------------

  /** The entry of row y < rows of column x is among that column's insertions. */
  lemma {:induction false} ColumnHas(hash1: array<Word>, hash2: array<Word>, isAdded: array<bool>, picWidth: nat,
                                     crcBits: nat, idx: nat, x: nat, rows: nat, y: nat, z: Insertion)
    requires y < rows && z in EntryAt(hash1, hash2, isAdded, picWidth, crcBits, idx, x, y)
    ensures z in ColumnScan(hash1, hash2, isAdded, picWidth, crcBits, idx, x, rows)
    decreases rows
  {
    hide EntryAt;
    if y < rows - 1 {
      ColumnHas(hash1, hash2, isAdded, picWidth, crcBits, idx, x, rows - 1, y, z);
    }
  }

  /** The entry of every position inside the scanned range is among the scan's insertions. */
  lemma {:induction false} ScanHas(hash1: array<Word>, hash2: array<Word>, isAdded: array<bool>, picWidth: nat,
                                   crcBits: nat, idx: nat, cols: nat, rows: nat, x: nat, y: nat, z: Insertion)
    requires x < cols && y < rows && z in EntryAt(hash1, hash2, isAdded, picWidth, crcBits, idx, x, y)
    ensures z in Scan(hash1, hash2, isAdded, picWidth, crcBits, idx, cols, rows)
    decreases cols
  {
    hide EntryAt, ColumnScan;
    if x < cols - 1 {
      ScanHas(hash1, hash2, isAdded, picWidth, crcBits, idx, cols - 1, rows, x, y, z);
    } else {
      ColumnHas(hash1, hash2, isAdded, picWidth, crcBits, idx, x, rows, y, z);
    }
  }

  /** Every insertion of column x's scan is the entry of its own position, a row below rows. */
  lemma {:induction false} ColumnFrom(hash1: array<Word>, hash2: array<Word>, isAdded: array<bool>, picWidth: nat,
                                      crcBits: nat, idx: nat, x: nat, rows: nat, z: Insertion)
    requires z in ColumnScan(hash1, hash2, isAdded, picWidth, crcBits, idx, x, rows)
    ensures z.entry.x == x && z.entry.y < rows
    ensures z in EntryAt(hash1, hash2, isAdded, picWidth, crcBits, idx, x, z.entry.y)
    decreases rows
  {
    var init := ColumnScan(hash1, hash2, isAdded, picWidth, crcBits, idx, x, rows - 1);
    if z in init {
      ColumnFrom(hash1, hash2, isAdded, picWidth, crcBits, idx, x, rows - 1, z);
    }
  }

  /** Every insertion of the scan is the entry of its own position, inside the scanned range. */
  lemma {:induction false} ScanFrom(hash1: array<Word>, hash2: array<Word>, isAdded: array<bool>, picWidth: nat,
                                    crcBits: nat, idx: nat, cols: nat, rows: nat, z: Insertion)
    requires z in Scan(hash1, hash2, isAdded, picWidth, crcBits, idx, cols, rows)
    ensures z.entry.x < cols && z.entry.y < rows
    ensures z in EntryAt(hash1, hash2, isAdded, picWidth, crcBits, idx, z.entry.x, z.entry.y)
    decreases cols
  {
    var init := Scan(hash1, hash2, isAdded, picWidth, crcBits, idx, cols - 1, rows);
    if z in init {
      ScanFrom(hash1, hash2, isAdded, picWidth, crcBits, idx, cols - 1, rows, z);
    } else {
      ColumnFrom(hash1, hash2, isAdded, picWidth, crcBits, idx, cols - 1, rows, z);
    }
  }

  /** An insertion's entry is filed under its key. */
  lemma {:induction false} FiledHas(ins: seq<Insertion>, z: Insertion)
    requires z in ins
    ensures z.entry in Filed(ins, z.key)
    decreases |ins|
  {
    var init := ins[..|ins| - 1];
    assert ins == init + [ins[|ins| - 1]];
    if ins[|ins| - 1] != z {
      FiledHas(init, z);
    }
  }

  /** Whatever is filed under k came from an insertion with key k. */
  lemma {:induction false} FiledFrom(ins: seq<Insertion>, k: nat, b: BlockHash)
    requires b in Filed(ins, k)
    ensures Insertion(k, b) in ins
    decreases |ins|
  {
    var init := ins[..|ins| - 1];
    assert ins == init + [ins[|ins| - 1]];
    if b in Filed(init, k) {
      FiledFrom(init, k, b);
    }
  }

  /** A start position inside the span leaves room for the whole block. */
  lemma SpanFits(pic: Picture, w: nat, h: nat, x: nat, y: nat)
    requires w >= 1 && h >= 1 && x < Span(pic.width, w) && y < Span(pic.height, h)
    ensures Fits(pic, x, y, w, h)
  {
  }

  // ---------------------------------------------------------------------
  // The table after bulk insertion.
  // ---------------------------------------------------------------------

  /** The table bulk insertion leaves after starting from m. */
  ghost function Bulked(pic: Picture, hash1: array<Word>, hash2: array<Word>, isAdded: array<bool>,
                        crcBits: nat, w: nat, h: nat, m: map<nat, seq<BlockHash>>): map<nat, seq<BlockHash>>
    requires SizeIndexOf(w, h) >= 0
    reads hash1, hash2, isAdded
  {
    Applied(m, Scan(hash1, hash2, isAdded, pic.width, crcBits, SizeIndexOf(w, h), Span(pic.width, w), Span(pic.height, h)))
  }

  /**
   * Completeness: after bulk insertion, every eligible block of a supported
   * size is in the bucket of its primary key, carrying its secondary hash.
   */
  lemma BulkFindsBlock(pic: Picture, e1: CrcSpec, e2: CrcSpec, hash1: array<Word>, hash2: array<Word>,
                       isAdded: array<bool>, crcBits: nat, w: nat, h: nat, m: map<nat, seq<BlockHash>>, x: nat, y: nat)
    requires Valid(pic) && ValidWidth(e1.bits) && ValidWidth(e2.bits) && SizeIndexOf(w, h) >= 0
    requires Fits(pic, x, y, w, h)
    requires (SizeIndexShape(w, h);
              BulkArrays(pic, e1, e2, w, h, hash1, hash2, isAdded) && Addable(pic, x, y, w, h))
    ensures (SizeIndexShape(w, h);
             BlockHash(x, y, BlockHashOf(pic, e2, x, y, w, h))
               in BucketOf(Bulked(pic, hash1, hash2, isAdded, crcBits, w, h, m),
                           Key(crcBits, SizeIndexOf(w, h), BlockHashOf(pic, e1, x, y, w, h))))
  {
    SizeIndexShape(w, h);
    ShapeSides(w, h);
    var idx := SizeIndexOf(w, h);
    var cols, rows := Span(pic.width, w), Span(pic.height, h);
    var ins := Scan(hash1, hash2, isAdded, pic.width, crcBits, idx, cols, rows);
    var z := Insertion(Key(crcBits, idx, BlockHashOf(pic, e1, x, y, w, h)), BlockHash(x, y, BlockHashOf(pic, e2, x, y, w, h)));
    BulkEntry(pic, e1, e2, hash1, hash2, isAdded, crcBits, idx, w, h, x, y);
    ScanHas(hash1, hash2, isAdded, pic.width, crcBits, idx, cols, rows, x, y, z);
    FiledHas(ins, z);
    BucketOfApplied(m, ins, z.key);
  }

  /**
   * Soundness: starting from an empty table, everything bulk insertion
   * files under a key k is an eligible block of that size inside the
   * picture, whose primary key is k and whose secondary hash is the one
   * stored.
   */
  lemma BulkSound(pic: Picture, e1: CrcSpec, e2: CrcSpec, hash1: array<Word>, hash2: array<Word>,
                  isAdded: array<bool>, crcBits: nat, w: nat, h: nat, k: nat, b: BlockHash)
    requires Valid(pic) && ValidWidth(e1.bits) && ValidWidth(e2.bits) && SizeIndexOf(w, h) >= 0
    requires (SizeIndexShape(w, h); BulkArrays(pic, e1, e2, w, h, hash1, hash2, isAdded))
    requires b in BucketOf(Bulked(pic, hash1, hash2, isAdded, crcBits, w, h, map[]), k)
    ensures Fits(pic, b.x, b.y, w, h)
    ensures (SizeIndexShape(w, h);
             && Addable(pic, b.x, b.y, w, h)
             && k == Key(crcBits, SizeIndexOf(w, h), BlockHashOf(pic, e1, b.x, b.y, w, h))
             && b.hashValue2 == BlockHashOf(pic, e2, b.x, b.y, w, h))
  {
    SizeIndexShape(w, h);
    ShapeSides(w, h);
    var idx := SizeIndexOf(w, h);
    var cols, rows := Span(pic.width, w), Span(pic.height, h);
    var ins := Scan(hash1, hash2, isAdded, pic.width, crcBits, idx, cols, rows);
    BucketOfApplied(map[], ins, k);
    FiledFrom(ins, k, b);
    var z := Insertion(k, b);
    ScanFrom(hash1, hash2, isAdded, pic.width, crcBits, idx, cols, rows, z);
    SpanFits(pic, w, h, b.x, b.y);
    BulkEntry(pic, e1, e2, hash1, hash2, isAdded, crcBits, idx, w, h, b.x, b.y);
  }

  /**
   * The lookup the encoder performs: build the table for one block size from
   * the bulk arrays, hash a block on demand, and ask `hasExactMatch`.  An
   * eligible block of a supported size is always found.
   */
  method BulkThenLookup(table: BlockHashTable, pic: Picture, width: nat, height: nat, xStart: nat, yStart: nat,
                        crc1: CrcCalculator, crc2: CrcCalculator, sizeIndex: array2<int>,
                        hash1: array<Word>, hash2: array<Word>, isAdded: array<bool>)
    returns (found: bool)
    requires table.Valid() && table.created && table.lookupTable == map[]
    requires Valid(pic) && crc1.Valid() && crc2.Valid() && SizeIndexTable(sizeIndex)
    requires width < 65 && height < 65 && Fits(pic, xStart, yStart, width, height)
    requires hash1.Length == hash2.Length == isAdded.Length == pic.width * pic.height
    requires SizeIndexOf(width, height) >= 0 ==>
      (SizeIndexShape(width, height);
       BulkArrays(pic, crc1.Spec(), crc2.Spec(), width, height, hash1, hash2, isAdded))
    modifies table`lookupTable, crc1, crc2
    ensures SizeIndexOf(width, height) >= 0 ==>
      (SizeIndexShape(width, height);
       Addable(pic, xStart, yStart, width, height) ==> found)
  {
    hide *;
    WidthOf(crc1);
    WidthOf(crc2);
    ghost var e1, e2 := crc1.Spec(), crc2.Spec();
    var ok := table.AddToHashMapByRowWithPrecalData(hash1, hash2, isAdded, pic.width, pic.height, width, height, sizeIndex);
    if !ok {
      return false;
    }
    var hashValue1, hashValue2;
    ok, hashValue1, hashValue2 := GetBlockHashValue(pic, width, height, xStart, yStart, crc1, crc2, table.crcBits, sizeIndex);
    SizeIndexShape(width, height);
    TableRoom(table, width, height, BlockHashOf(pic, e1, xStart, yStart, width, height));
    found := table.HasExactMatch(hashValue1, hashValue2);
    if Addable(pic, xStart, yStart, width, height) {
      BulkFindsBlock(pic, e1, e2, hash1, hash2, isAdded, table.crcBits, width, height, map[], xStart, yStart);
      BulkedIs(pic, hash1, hash2, isAdded, table.crcBits, width, height, map[]);
      FoundIfPresent(table, hashValue1, BlockHash(xStart, yStart, hashValue2));
    }
  }

  lemma BulkedIs(pic: Picture, hash1: array<Word>, hash2: array<Word>, isAdded: array<bool>,
                 crcBits: nat, w: nat, h: nat, m: map<nat, seq<BlockHash>>)
    requires SizeIndexOf(w, h) >= 0
    ensures Bulked(pic, hash1, hash2, isAdded, crcBits, w, h, m)
         == Applied(m, Scan(hash1, hash2, isAdded, pic.width, crcBits, SizeIndexOf(w, h), Span(pic.width, w), Span(pic.height, h)))
  {
  }

  /** A key of a supported size class is inside the table `create` allocated. */
  lemma TableRoom(table: BlockHashTable, w: nat, h: nat, hv: Word)
    requires table.Valid() && SizeIndexOf(w, h) >= 0
    ensures Key(table.crcBits, SizeIndexOf(w, h), hv) < table.MaxAddr()
  {
    KeyBound(table.crcBits, table.blockSizeBits, SizeIndexOf(w, h), hv);
  }

  /** An entry present in a bucket satisfies `hasExactMatch`'s criterion for its secondary hash. */
  lemma FoundIfPresent(table: BlockHashTable, k: nat, b: BlockHash)
    requires b in BucketOf(table.lookupTable, k)
    ensures exists i :: 0 <= i < |table.Bucket(k)| && table.Bucket(k)[i].hashValue2 == b.hashValue2
  {
    var i :| 0 <= i < |table.Bucket(k)| && table.Bucket(k)[i] == b;
  }
}
