// The duplicate-block index: buckets of block entries keyed by size class
// and truncated primary hash.
//
// The code keeps an array of `1 << (CRCBits + blockSizeBits)` references to
// vectors, null for a bucket never written.  Here the table is a map from
// key to the bucket's entries; a key outside the map is a null bucket.

module HashTable {
  import opened Bits
  import opened HashSpec

  /** One entry of a bucket: the block's top-left corner and its secondary hash. */
  datatype BlockHash = BlockHash(x: nat, y: nat, hashValue2: Word)

  /** One call of `addToTable`: the key and the entry appended under it. */
  datatype Insertion = Insertion(key: nat, entry: BlockHash)

  // ---------------------------------------------------------------------
  // Size classes.
  // ---------------------------------------------------------------------

  /** `m_blockSizeToIndex[w][h]` once `initBlockSizeToIndex` has run. */
  function SizeIndexOf(w: int, h: int): (idx: int)
    ensures -1 <= idx <= 6
  {
    if w == 8 && h == 8 then 0
    else if w == 16 && h == 16 then 1
    else if w == 32 && h == 32 then 2
    else if w == 64 && h == 64 then 3
    else if w == 4 && h == 4 then 4
    else if w == 4 && h == 8 then 5
    else if w == 8 && h == 4 then 6
    else -1
  }

  /** Every supported size class is a block shape of the pyramid with sides 4 to 64. */
  lemma SizeIndexShape(w: nat, h: nat)
    requires SizeIndexOf(w, h) >= 0
    ensures Shape(w, h) && 4 <= w <= 64 && 4 <= h <= 64
  {
    assert IsPow2(2) && IsPow2(4) && IsPow2(8);
    assert IsPow2(16) && IsPow2(32);
    assert IsPow2(64);
  }

  /** Distinct supported shapes have distinct indices. */
  lemma SizeIndexInjective(w1: int, h1: int, w2: int, h2: int)
    requires SizeIndexOf(w1, h1) >= 0 && SizeIndexOf(w1, h1) == SizeIndexOf(w2, h2)
    ensures w1 == w2 && h1 == h2
  {
  }

  /** Every index 0..6 is the index of some shape. */
  lemma SizeIndexOnto(idx: int)
    requires 0 <= idx <= 6
    ensures exists w: int, h: int :: 4 <= w <= 64 && 4 <= h <= 64 && SizeIndexOf(w, h) == idx
  {
    var sides := [8, 16, 32, 64, 4, 4, 8];
    var others := [8, 16, 32, 64, 4, 8, 4];
    assert SizeIndexOf(sides[idx], others[idx]) == idx;
  }

  /** A 65 x 65 table holding the size index of every (w, h). */
  ghost predicate SizeIndexTable(a: array2<int>)
    reads a
  {
    a.Length0 == 65 && a.Length1 == 65 &&
    forall i, j :: 0 <= i < 65 && 0 <= j < 65 ==> a[i, j] == SizeIndexOf(i, j)
  }

  /** `initBlockSizeToIndex`: -1 everywhere, then the seven supported shapes. */
  method InitBlockSizeToIndex(a: array2<int>)
    requires a.Length0 == 65 && a.Length1 == 65
    modifies a
    ensures SizeIndexTable(a)
  {
    for i := 0 to 65
      invariant forall i', j :: 0 <= i' < i && 0 <= j < 65 ==> a[i', j] == -1
    {
      for j := 0 to 65
        invariant forall i', j' :: 0 <= i' < i && 0 <= j' < 65 ==> a[i', j'] == -1
        invariant forall j' :: 0 <= j' < j ==> a[i, j'] == -1
      {
        a[i, j] := -1;
      }
    }
    a[8, 8] := 0;
    a[16, 16] := 1;
    a[32, 32] := 2;
    a[64, 64] := 3;
    a[4, 4] := 4;
    a[4, 8] := 5;
    a[8, 4] := 6;
  }

  // ---------------------------------------------------------------------
  // Bucket keys.
  // ---------------------------------------------------------------------

  /** `(h & ((1 << crcBits) - 1)) + (idx << crcBits)`: the bucket of a block of size class idx. */
  function Key(crcBits: nat, idx: nat, h: Word): (k: nat)
    ensures k / Pow2(crcBits) == idx && k % Pow2(crcBits) == Value(h) % Pow2(crcBits)
  {
    BitAndLowMask(Value(h), crcBits);
    DivModUnique(BitAnd(Value(h), Pow2(crcBits) - 1) + idx * Pow2(crcBits), Pow2(crcBits), idx, Value(h) % Pow2(crcBits));
    BitAnd(Value(h), Pow2(crcBits) - 1) + idx * Pow2(crcBits)
  }

  /** A key of a size index below 2^blockSizeBits addresses the table. */
  lemma KeyBound(crcBits: nat, blockSizeBits: nat, idx: nat, h: Word)
    requires idx < Pow2(blockSizeBits)
    ensures Key(crcBits, idx, h) < Pow2(crcBits + blockSizeBits)
  {
    Pow2Add(crcBits, blockSizeBits);
    BelowProduct(Key(crcBits, idx, h), Pow2(crcBits), idx, Pow2(blockSizeBits));
  }

  /** A number whose quotient by m is below p is below m * p. */
  lemma BelowProduct(k: nat, m: nat, q: nat, p: nat)
    requires m >= 1 && k / m == q && q < p
    ensures k < m * p
  {
    assert k == m * q + k % m;
    assert m * (q + 1) == m * q + m;
    MulAtLeastBy(m, p, q + 1);
  }

  /** Two keys are equal exactly when their size classes and truncated hashes are. */
  lemma KeyInjective(crcBits: nat, i1: nat, h1: Word, i2: nat, h2: Word)
    ensures Key(crcBits, i1, h1) == Key(crcBits, i2, h2) <==>
      i1 == i2 && Value(h1) % Pow2(crcBits) == Value(h2) % Pow2(crcBits)
  {
    if i1 == i2 && Value(h1) % Pow2(crcBits) == Value(h2) % Pow2(crcBits) {
      SameQuotientRemainder(Key(crcBits, i1, h1), Key(crcBits, i2, h2), Pow2(crcBits));
    }
  }

  /** A number is determined by its quotient and remainder. */
  lemma SameQuotientRemainder(a: nat, b: nat, m: nat)
    requires m >= 1 && a / m == b / m && a % m == b % m
    ensures a == b
  {
    assert a == m * (a / m) + a % m;
    assert b == m * (b / m) + b % m;
  }

  // ---------------------------------------------------------------------
  // Map updates.
  // ---------------------------------------------------------------------

  /** The entries under key k; a missing key is an empty bucket. */
  function BucketOf(m: map<nat, seq<BlockHash>>, k: nat): seq<BlockHash>
  {
    if k in m then m[k] else []
  }

  /** The table after a sequence of `addToTable` calls, in order. */
  function Applied(m: map<nat, seq<BlockHash>>, ins: seq<Insertion>): map<nat, seq<BlockHash>>
    decreases |ins|
  {
    if ins == [] then m
    else
      var prev := Applied(m, ins[..|ins| - 1]);
      var last := ins[|ins| - 1];
      prev[last.key := BucketOf(prev, last.key) + [last.entry]]
  }

  /** The entries of `ins` filed under key k, in order. */
  function Filed(ins: seq<Insertion>, k: nat): (r: seq<BlockHash>)
    ensures |r| <= |ins|
    decreases |ins|
  {
    if ins == [] then []
    else Filed(ins[..|ins| - 1], k) + (if ins[|ins| - 1].key == k then [ins[|ins| - 1].entry] else [])
  }

  /** After a run of insertions, each bucket is the old bucket followed by the entries filed under its key. */
  lemma {:induction false} BucketOfApplied(m: map<nat, seq<BlockHash>>, ins: seq<Insertion>, k: nat)
    ensures BucketOf(Applied(m, ins), k) == BucketOf(m, k) + Filed(ins, k)
    decreases |ins|
  {
    if ins != [] {
      BucketOfApplied(m, ins[..|ins| - 1], k);
    }
  }

  /** No insertions leave the table as it is. */
  lemma AppliedNone(m: map<nat, seq<BlockHash>>)
    ensures Applied(m, []) == m
  {
  }

  /** Applying a concatenation is applying its parts in turn. */
  lemma {:induction false} AppliedAppend(m: map<nat, seq<BlockHash>>, a: seq<Insertion>, b: seq<Insertion>)
    ensures Applied(m, a + b) == Applied(Applied(m, a), b)
    decreases |b|
  {
    if b == [] {
      assert a + b == a;
    } else {
      assert (a + b)[..|a + b| - 1] == a + b[..|b| - 1];
      AppliedAppend(m, a, b[..|b| - 1]);
    }
  }

  /** Insertions under keys below a bound keep every key of the table below it and no bucket empty. */
  lemma {:induction false} AppliedKeys(m: map<nat, seq<BlockHash>>, ins: seq<Insertion>, bound: nat)
    requires forall k :: k in m ==> k < bound && |m[k]| > 0
    requires forall i :: 0 <= i < |ins| ==> ins[i].key < bound
    ensures forall k :: k in Applied(m, ins) ==> k < bound && |Applied(m, ins)[k]| > 0
    decreases |ins|
  {
    if ins != [] {
      AppliedKeys(m, ins[..|ins| - 1], bound);
    }
  }

  // ---------------------------------------------------------------------
  // Bulk insertion order.
  // ---------------------------------------------------------------------

  /** The number of positions a block of side w can start at along a side of n samples. */
  function Span(n: nat, w: nat): (r: nat)
    ensures w >= 1 ==> r + w <= n + 1 || r == 0
  {
    if n + 1 >= w then n + 1 - w else 0
  }

  /** What bulk insertion files for the block at (x, y): one entry if its flag is set, none otherwise. */
  function EntryAt(hash1: array<Word>, hash2: array<Word>, isAdded: array<bool>, picWidth: nat,
                   crcBits: nat, idx: nat, x: nat, y: nat): seq<Insertion>
    reads hash1, hash2, isAdded
  {
    var pos := y * picWidth + x;
    if pos < isAdded.Length && pos < hash1.Length && pos < hash2.Length && isAdded[pos]
    then [Insertion(Key(crcBits, idx, hash1[pos]), BlockHash(x, y, hash2[pos]))]
    else []
  }

  /** The insertions for rows 0 .. rows-1 of column x, top to bottom. */
  function ColumnScan(hash1: array<Word>, hash2: array<Word>, isAdded: array<bool>, picWidth: nat,
                      crcBits: nat, idx: nat, x: nat, rows: nat): seq<Insertion>
    reads hash1, hash2, isAdded
  {
    if rows == 0 then []
    else ColumnScan(hash1, hash2, isAdded, picWidth, crcBits, idx, x, rows - 1) +
         EntryAt(hash1, hash2, isAdded, picWidth, crcBits, idx, x, rows - 1)
  }

  /** The insertions for columns 0 .. cols-1, column by column: the order of the code's x-major loops. */
  function Scan(hash1: array<Word>, hash2: array<Word>, isAdded: array<bool>, picWidth: nat,
                crcBits: nat, idx: nat, cols: nat, rows: nat): seq<Insertion>
    reads hash1, hash2, isAdded
  {
    if cols == 0 then []
    else Scan(hash1, hash2, isAdded, picWidth, crcBits, idx, cols - 1, rows) +
         ColumnScan(hash1, hash2, isAdded, picWidth, crcBits, idx, cols - 1, rows)
  }

  /** What `m_blockSizeToIndex[w][h]` holds. */
  lemma SizeIndexAt(a: array2<int>, w: nat, h: nat)
    requires SizeIndexTable(a) && w < 65 && h < 65
    ensures a.Length0 == 65 && a.Length1 == 65 && a[w, h] == SizeIndexOf(w, h)
  {
  }

  /** `n - w + 1` is the number of start positions when it is not negative, and none start otherwise. */
  lemma SpanOf(n: nat, w: nat)
    ensures n - w + 1 >= 0 ==> Span(n, w) == n - w + 1
    ensures n - w + 1 < 0 ==> Span(n, w) == 0
  {
  }

  lemma ScanStart(hash1: array<Word>, hash2: array<Word>, isAdded: array<bool>, picWidth: nat,
                  crcBits: nat, idx: nat, rows: nat)
    ensures Scan(hash1, hash2, isAdded, picWidth, crcBits, idx, 0, rows) == []
  {
  }

  lemma ColumnStart(hash1: array<Word>, hash2: array<Word>, isAdded: array<bool>, picWidth: nat,
                    crcBits: nat, idx: nat, x: nat, rows: nat)
    ensures var s := Scan(hash1, hash2, isAdded, picWidth, crcBits, idx, x, rows);
      s + ColumnScan(hash1, hash2, isAdded, picWidth, crcBits, idx, x, 0) == s
  {
    var s := Scan(hash1, hash2, isAdded, picWidth, crcBits, idx, x, rows);
    assert s + [] == s;
  }

  lemma ColumnNext(hash1: array<Word>, hash2: array<Word>, isAdded: array<bool>, picWidth: nat,
                   crcBits: nat, idx: nat, x: nat, rows: nat, y: nat)
    ensures Scan(hash1, hash2, isAdded, picWidth, crcBits, idx, x, rows) +
            ColumnScan(hash1, hash2, isAdded, picWidth, crcBits, idx, x, y) +
            EntryAt(hash1, hash2, isAdded, picWidth, crcBits, idx, x, y)
         == Scan(hash1, hash2, isAdded, picWidth, crcBits, idx, x, rows) +
            ColumnScan(hash1, hash2, isAdded, picWidth, crcBits, idx, x, y + 1)
  {
  }

  lemma ScanNext(hash1: array<Word>, hash2: array<Word>, isAdded: array<bool>, picWidth: nat,
                 crcBits: nat, idx: nat, x: nat, rows: nat)
    ensures Scan(hash1, hash2, isAdded, picWidth, crcBits, idx, x, rows) +
            ColumnScan(hash1, hash2, isAdded, picWidth, crcBits, idx, x, rows)
         == Scan(hash1, hash2, isAdded, picWidth, crcBits, idx, x + 1, rows)
  {
  }

  // ---------------------------------------------------------------------
  // The table.
  // ---------------------------------------------------------------------

  /** `TComHash`'s table: `m_lookupTable`, null until `create`, and `tableHasContent`. */
  class BlockHashTable {
    const crcBits: nat
    const blockSizeBits: nat
    var created: bool
    var lookupTable: map<nat, seq<BlockHash>>
    var tableHasContent: bool

    /** `1 << (m_CRCBits + m_blockSizeBits)`, the number of buckets `create` allocates. */
    function MaxAddr(): nat
    {
      Pow2(crcBits + blockSizeBits)
    }

    /**
     * Every bucket present is inside the allocated table and non-empty (a
     * vector exists only once an entry was pushed), and nothing is present
     * before `create`.  Size indices 0..6 fit in `blockSizeBits`.
     */
    ghost predicate Valid()
      reads this
    {
      && 7 <= Pow2(blockSizeBits)
      && (forall k :: k in lookupTable ==> k < MaxAddr() && |lookupTable[k]| > 0)
      && (!created ==> lookupTable == map[])
    }

    /** The entries under key k. */
    function Bucket(k: nat): seq<BlockHash>
      reads this
    {
      BucketOf(lookupTable, k)
    }

    /** The constructor: no table allocated, no content. */
    constructor (crcBits: nat, blockSizeBits: nat)
      requires 7 <= Pow2(blockSizeBits)
      ensures Valid() && !created && !tableHasContent && lookupTable == map[]
      ensures this.crcBits == crcBits && this.blockSizeBits == blockSizeBits
    {
      this.crcBits := crcBits;
      this.blockSizeBits := blockSizeBits;
      created := false;
      lookupTable := map[];
      tableHasContent := false;
    }

    /** `create`: allocate an all-null table, or clear the existing one. */
    method Create()
      requires Valid()
      modifies this
      ensures Valid() && created && !tableHasContent && lookupTable == map[]
    {
      if created {
        ClearAll();
        return;
      }
      created := true;
      lookupTable := map[];
      tableHasContent := false;
    }

    /** `clearAll`: free every bucket of the table, one address at a time. */
    method ClearAll()
      requires Valid()
      modifies this
      ensures Valid() && created == old(created) && !tableHasContent && lookupTable == map[]
    {
      tableHasContent := false;
      if !created {
        return;
      }
      var maxAddr := MaxAddr();
      var i := 0;
      while i < maxAddr
        invariant 0 <= i <= maxAddr && created && !tableHasContent
        invariant forall k :: k in lookupTable ==> i <= k < maxAddr && k in old(lookupTable) && lookupTable[k] == old(lookupTable)[k]
        invariant forall k :: i <= k && k in old(lookupTable) ==> k in lookupTable
      {
        if i in lookupTable {
          lookupTable := lookupTable - {i};
        }
        i := i + 1;
      }
      assert lookupTable.Keys == {};
      assert lookupTable == map[];
    }

    /** `addToTable`: append the entry at the end of bucket `hashValue`. */
    method AddToTable(hashValue: nat, blockHash: BlockHash)
      requires Valid() && created && hashValue < MaxAddr()
      modifies this`lookupTable
      ensures Valid()
      ensures lookupTable == old(lookupTable)[hashValue := old(Bucket(hashValue)) + [blockHash]]
    {
      if hashValue !in lookupTable {
        assert Bucket(hashValue) + [blockHash] == [blockHash];
        lookupTable := lookupTable[hashValue := [blockHash]];
      } else {
        lookupTable := lookupTable[hashValue := lookupTable[hashValue] + [blockHash]];
      }
    }

    /** `count`: the number of entries in bucket `hashValue`, 0 for a null bucket. */
    method Count(hashValue: nat) returns (n: int)
      requires Valid() && created && hashValue < MaxAddr()
      ensures n == |Bucket(hashValue)|
      ensures n == 0 <==> hashValue !in lookupTable
    {
      if hashValue !in lookupTable {
        return 0;
      }
      return |lookupTable[hashValue]|;
    }

    /** `hasExactMatch`: whether bucket `hashValue1` holds an entry with secondary hash `hashValue2`. */
    method HasExactMatch(hashValue1: nat, hashValue2: Word) returns (found: bool)
      requires Valid() && created && hashValue1 < MaxAddr()
      ensures found <==> exists i :: 0 <= i < |Bucket(hashValue1)| && Bucket(hashValue1)[i].hashValue2 == hashValue2
    {
      if hashValue1 !in lookupTable {
        return false;
      }
      var bucket := lookupTable[hashValue1];
      assert bucket == Bucket(hashValue1);
      var i := 0;
      while i < |bucket|
        invariant 0 <= i <= |bucket|
        invariant forall j :: 0 <= j < i ==> bucket[j].hashValue2 != hashValue2
      {
        if bucket[i].hashValue2 == hashValue2 {
          return true;
        }
        i := i + 1;
      }
      return false;
    }

    /**
     * `addToHashMapByRowWithPrecalData`: for every position a width x height
     * block fits at, column by column, file the block under its key when its
     * insertion flag is set.  An unsupported size fails the code's CHECK,
     * reported here as `ok == false` with the table untouched.
     */
    method AddToHashMapByRowWithPrecalData(picHash1: array<Word>, picHash2: array<Word>, picIsSame: array<bool>,
                                           picWidth: nat, picHeight: nat, width: nat, height: nat,
                                           sizeIndex: array2<int>)
      returns (ok: bool)
      requires Valid() && created && SizeIndexTable(sizeIndex) && width < 65 && height < 65
      requires picHash1.Length == picHash2.Length == picIsSame.Length == picWidth * picHeight
      modifies this`lookupTable
      ensures Valid()
      ensures ok == (SizeIndexOf(width, height) >= 0)
      ensures ok ==> lookupTable == Applied(old(lookupTable),
        Scan(picHash1, picHash2, picIsSame, picWidth, crcBits, SizeIndexOf(width, height),
             Span(picWidth, width), Span(picHeight, height)))
      ensures !ok ==> lookupTable == old(lookupTable)
    {
      hide *;
      SizeIndexAt(sizeIndex, width, height);
      var xEnd := picWidth - width + 1;
      var yEnd := picHeight - height + 1;
      var addValue := sizeIndex[width, height];
      if addValue < 0 {
        return false;
      }
      ghost var idx: nat := addValue;
      SizeIndexShape(width, height);
      ghost var rows := Span(picHeight, height);
      SpanOf(picHeight, height);
      addValue := addValue * Pow2(crcBits);
      var crcMask := Pow2(crcBits) - 1;
      var xPos := 0;
      ScanStart(picHash1, picHash2, picIsSame, picWidth, crcBits, idx, rows);
      AppliedNone(old(lookupTable));
      while xPos < xEnd
        invariant 0 <= xPos && (xEnd >= 0 ==> xPos <= xEnd) && (xEnd < 0 ==> xPos == 0)
        invariant Valid() && created
        invariant lookupTable ==
          Applied(old(lookupTable), Scan(picHash1, picHash2, picIsSame, picWidth, crcBits, idx, xPos, rows))
      {
        var yPos := 0;
        ColumnStart(picHash1, picHash2, picIsSame, picWidth, crcBits, idx, xPos, rows);
        while yPos < yEnd
          invariant 0 <= yPos && (yEnd >= 0 ==> yPos <= yEnd) && (yEnd < 0 ==> yPos == 0)
          invariant Valid() && created
          invariant lookupTable ==
            Applied(old(lookupTable), Scan(picHash1, picHash2, picIsSame, picWidth, crcBits, idx, xPos, rows) +
                                      ColumnScan(picHash1, picHash2, picIsSame, picWidth, crcBits, idx, xPos, yPos))
        {
          ghost var before := Scan(picHash1, picHash2, picIsSame, picWidth, crcBits, idx, xPos, rows) +
                              ColumnScan(picHash1, picHash2, picIsSame, picWidth, crcBits, idx, xPos, yPos);
          ghost var entry := EntryAt(picHash1, picHash2, picIsSame, picWidth, crcBits, idx, xPos, yPos);
          AddAt(picHash1, picHash2, picIsSame, picWidth, picHeight, idx, addValue, crcMask, xPos, yPos);
          AppliedAppend(old(lookupTable), before, entry);
          ColumnNext(picHash1, picHash2, picIsSame, picWidth, crcBits, idx, xPos, rows, yPos);
          yPos := yPos + 1;
        }
        ScanNext(picHash1, picHash2, picIsSame, picWidth, crcBits, idx, xPos, rows);
        xPos := xPos + 1;
      }
      SpanOf(picWidth, width);
      return true;
    }

    /** The body of the insertion loops: file the block at (xPos, yPos) if its flag is set. */
    method AddAt(picHash1: array<Word>, picHash2: array<Word>, picIsSame: array<bool>, picWidth: nat, picHeight: nat,
                 ghost idx: nat, addValue: nat, crcMask: nat, xPos: nat, yPos: nat)
      requires Valid() && created && idx < 7 && addValue == idx * Pow2(crcBits) && crcMask == Pow2(crcBits) - 1
      requires xPos < picWidth && yPos < picHeight
      requires picHash1.Length == picHash2.Length == picIsSame.Length == picWidth * picHeight
      modifies this`lookupTable
      ensures Valid()
      ensures lookupTable == Applied(old(lookupTable), EntryAt(picHash1, picHash2, picIsSame, picWidth, crcBits, idx, xPos, yPos))
    {
      MulAtLeastBy(picWidth, picHeight, yPos + 1);
      var pos := yPos * picWidth + xPos;
      ghost var entry := EntryAt(picHash1, picHash2, picIsSame, picWidth, crcBits, idx, xPos, yPos);
      if picIsSame[pos] {
        var blockHash := BlockHash(xPos, yPos, picHash2[pos]);
        var hashValue1 := BitAnd(Value(picHash1[pos]), crcMask) + addValue;
        KeyBound(crcBits, blockSizeBits, idx, picHash1[pos]);
        AddToTable(hashValue1, blockHash);
        assert entry == [Insertion(hashValue1, blockHash)];
        assert entry[..0] == [];
      } else {
        assert entry == [];
      }
    }
  }

  /** Once appended, an entry is found by `hasExactMatch`'s criterion in its bucket. */
  lemma AppendedIsFound(m: map<nat, seq<BlockHash>>, k: nat, b: BlockHash)
    ensures var after := m[k := BucketOf(m, k) + [b]];
      exists i :: 0 <= i < |BucketOf(after, k)| && BucketOf(after, k)[i].hashValue2 == b.hashValue2
  {
    var after := m[k := BucketOf(m, k) + [b]];
    assert BucketOf(after, k)[|BucketOf(m, k)|] == b;
  }

  /** `addToTable` followed by `count`: the bucket grows by one and no other bucket changes. */
  method AddThenCount(t: BlockHashTable, k: nat, b: BlockHash) returns (before: int, after: int)
    requires t.Valid() && t.created && k < t.MaxAddr()
    modifies t`lookupTable
    ensures t.Valid() && after == before + 1
    ensures t.Bucket(k) == old(t.Bucket(k)) + [b]
    ensures forall k' :: k' != k ==> t.Bucket(k') == old(t.Bucket(k'))
  {
    before := t.Count(k);
    t.AddToTable(k, b);
    after := t.Count(k);
  }
}
