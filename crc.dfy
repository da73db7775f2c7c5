// The light table-driven CRC engine of the hasher (TCRCCalculatorLight).
//
// The engine keeps a 32-bit remainder, starts from zero, applies no final
// XOR and masks the result to `bits` bits.  Bytes enter MSB first.  The
// table-driven update is proved equal, on the low `bits` bits, to plain
// bit-serial polynomial division of the byte string.

module Crc {
  import opened Bits

  /** Register width and generator polynomial without its leading term. */
  datatype CrcSpec = CrcSpec(bits: nat, truncPoly: Word)

  /** Widths the engine supports: a whole byte fits below the high bit. */
  predicate ValidWidth(bits: nat)
  {
    8 <= bits < 32
  }

  /** `highBit = 1 << (bits - 1)` */
  function HighBit(bits: nat): Word
    requires ValidWidth(bits)
  {
    Single(bits - 1)
  }

  /** The two words agree on their low `bits` bits. */
  predicate LowEq(bits: nat, a: Word, b: Word)
  {
    forall i :: 0 <= i < bits && i < 32 ==> a[i] == b[i]
  }

  // ---------------------------------------------------------------------
  // Bit-serial division: the reference definition.
  // ---------------------------------------------------------------------

  /** One shift of the register, subtracting the generator when the high bit is set. */
  function Divide(s: CrcSpec, r: Word): Word
    requires ValidWidth(s.bits)
  {
    if r[s.bits - 1] then Xor(Shl(r, 1), s.truncPoly) else Shl(r, 1)
  }

  /** Feeds one message bit into the register at its high bit, then divides. */
  function Feed(s: CrcSpec, r: Word, bit: bool): Word
    requires ValidWidth(s.bits)
  {
    Divide(s, if bit then Xor(r, HighBit(s.bits)) else r)
  }

  /** Feeds a string of message bits, first bit first. */
  function FeedAll(s: CrcSpec, r: Word, bs: seq<bool>): Word
    requires ValidWidth(s.bits)
  {
    if |bs| == 0 then r else Feed(s, FeedAll(s, r, bs[..|bs| - 1]), bs[|bs| - 1])
  }

  /** The bits of a byte as the mask 0x80, 0x40, ..., 1 visits them. */
  function MsbFirst(d: Byte): (r: seq<bool>)
    ensures |r| == 8
    ensures forall t :: 0 <= t < 8 ==> r[t] == d[7 - t]
  {
    seq(8, t requires 0 <= t < 8 => d[7 - t])
  }

  /** Feeds one byte, MSB first. */
  function SerialByte(s: CrcSpec, r: Word, d: Byte): Word
    requires ValidWidth(s.bits)
  {
    FeedAll(s, r, MsbFirst(d))
  }

  /** Bit-serial CRC register after a byte string. */
  function SerialCrc(s: CrcSpec, r: Word, data: seq<Byte>): Word
    requires ValidWidth(s.bits)
  {
    if |data| == 0 then r
    else SerialByte(s, SerialCrc(s, r, data[..|data| - 1]), data[|data| - 1])
  }

  // ---------------------------------------------------------------------
  // Table-driven update.
  // ---------------------------------------------------------------------

  /** Table entry for a byte: eight feeds of its bits into a zero register. */
  function TableEntry(s: CrcSpec, d: Byte): Word
    requires ValidWidth(s.bits)
  {
    SerialByte(s, Zeros(32), d)
  }

  /** `(unsigned char)((r >> (bits - 8)) ^ d)` */
  function TableIndex(s: CrcSpec, r: Word, d: Byte): Byte
    requires ValidWidth(s.bits)
  {
    Truncate(Xor(Shr(r, s.bits - 8), Widen(d)))
  }

  /** `r = (r << 8) ^ table[index]` */
  function TableStep(s: CrcSpec, r: Word, d: Byte): Word
    requires ValidWidth(s.bits)
  {
    Xor(Shl(r, 8), TableEntry(s, TableIndex(s, r, d)))
  }

  /** Register after table-driven processing of `data`. */
  function Process(s: CrcSpec, r: Word, data: seq<Byte>): Word
    requires ValidWidth(s.bits)
  {
    if |data| == 0 then r
    else TableStep(s, Process(s, r, data[..|data| - 1]), data[|data| - 1])
  }

  /** The checksum of `data` after a reset: the remainder masked to `bits` bits. */
  function CrcOf(s: CrcSpec, data: seq<Byte>): Word
    requires ValidWidth(s.bits)
  {
    And(Process(s, Zeros(32), data), LowOnes(s.bits))
  }

  /** The two engines the hasher instantiates (the second is the CRC-24 generator of RFC 4880). */
  const Engine1: CrcSpec := CrcSpec(24, NatBits(0x5D6DCB, 32))
  const Engine2: CrcSpec := CrcSpec(24, NatBits(0x864CFB, 32))

  // ---------------------------------------------------------------------
  // Properties.
  // ---------------------------------------------------------------------

  /** Zero stays zero under feeds of zero bits. */
  lemma {:induction false} FeedZeros(s: CrcSpec, bs: seq<bool>)
    requires ValidWidth(s.bits)
    requires forall t :: 0 <= t < |bs| ==> !bs[t]
    ensures FeedAll(s, Zeros(32), bs) == Zeros(32)
  {
    if |bs| > 0 {
      FeedZeros(s, bs[..|bs| - 1]);
      assert Shl(Zeros(32), 1) == Zeros(32);
    }
  }

  /** `table[0] == 0` */
  lemma TableZero(s: CrcSpec)
    requires ValidWidth(s.bits)
    ensures TableEntry(s, Zeros(8)) == Zeros(32)
  {
    FeedZeros(s, MsbFirst(Zeros(8)));
  }

  /** Division is linear over XOR. */
  lemma DivideLinear(s: CrcSpec, a: Word, c: Word)
    requires ValidWidth(s.bits)
    ensures Divide(s, Xor(a, c)) == Xor(Divide(s, a), Divide(s, c))
  {
    var l := Divide(s, Xor(a, c));
    var r := Xor(Divide(s, a), Divide(s, c));
    forall i | 0 <= i < 32
      ensures l[i] == r[i]
    {
      DivideBit(s, Xor(a, c), i);
      DivideBit(s, a, i);
      DivideBit(s, c, i);
    }
  }

  lemma DivideBit(s: CrcSpec, r: Word, i: nat)
    requires ValidWidth(s.bits) && i < 32
    ensures Divide(s, r)[i] == ((1 <= i && r[i - 1]) != (r[s.bits - 1] && s.truncPoly[i]))
  {
  }

  /** k divisions without message bits. */
  function DivideN(s: CrcSpec, r: Word, k: nat): Word
    requires ValidWidth(s.bits)
  {
    if k == 0 then r else Divide(s, DivideN(s, r, k - 1))
  }

  lemma {:induction false} DivideNLinear(s: CrcSpec, a: Word, c: Word, k: nat)
    requires ValidWidth(s.bits)
    ensures DivideN(s, Xor(a, c), k) == Xor(DivideN(s, a, k), DivideN(s, c, k))
  {
    hide Divide;
    if k > 0 {
      DivideNLinear(s, a, c, k - 1);
      DivideLinear(s, DivideN(s, a, k - 1), DivideN(s, c, k - 1));
    }
  }

  /** With the top k bits of the register clear, k divisions only shift. */
  lemma {:induction false} DivideNShifts(s: CrcSpec, x: Word, k: nat)
    requires ValidWidth(s.bits) && k <= s.bits
    requires forall i :: s.bits - k <= i < s.bits ==> !x[i]
    ensures DivideN(s, x, k) == Shl(x, k)
  {
    if k > 0 {
      DivideNShifts(s, x, k - 1);
      assert Shl(Shl(x, k - 1), 1) == Shl(x, k);
    }
  }

  /** The message bits `bs` placed where the feeds inject them: bit t at bits-1-t. */
  function Inject(bits: nat, bs: seq<bool>): (r: Word)
    requires |bs| <= bits < 32
    ensures forall i :: 0 <= i < 32 ==> r[i] == (bits - |bs| <= i < bits && bs[bits - 1 - i])
  {
    seq(32, i requires 0 <= i < 32 => bits - |bs| <= i < bits && bs[bits - 1 - i])
  }

  /** Feeding k bits is dividing k times with the bits XORed in up front. */
  lemma {:induction false} FeedAllIsDivideN(s: CrcSpec, r: Word, bs: seq<bool>)
    requires ValidWidth(s.bits) && |bs| <= s.bits
    ensures FeedAll(s, r, bs) == DivideN(s, Xor(r, Inject(s.bits, bs)), |bs|)
  {
    var k := |bs|;
    if k > 0 {
      var pre := bs[..k - 1];
      FeedAllIsDivideN(s, r, pre);
      var x := Xor(r, Inject(s.bits, pre));
      var e := InjectLast(s.bits, bs);
      InjectSplit(s.bits, r, bs);
      DivideNLinear(s, x, e, k - 1);
      DivideNShifts(s, e, k - 1);
      LastReachesTop(s.bits, bs);
      FeedIsDivideXor(s, DivideN(s, x, k - 1), bs[k - 1]);
    }
  }

  /** The last of the bits `bs`, placed at bits-|bs|. */
  function InjectLast(bits: nat, bs: seq<bool>): (r: Word)
    requires 0 < |bs| <= bits < 32
    ensures forall i :: 0 <= i < 32 ==> r[i] == (i == bits - |bs| && bs[|bs| - 1])
  {
    if bs[|bs| - 1] then Single(bits - |bs|) else Zeros(32)
  }

  lemma InjectSplit(bits: nat, r: Word, bs: seq<bool>)
    requires 0 < |bs| <= bits < 32
    ensures Xor(r, Inject(bits, bs)) == Xor(Xor(r, Inject(bits, bs[..|bs| - 1])), InjectLast(bits, bs))
  {
  }

  lemma LastReachesTop(bits: nat, bs: seq<bool>)
    requires 8 <= bits < 32 && 0 < |bs| <= bits
    ensures Shl(InjectLast(bits, bs), |bs| - 1) == (if bs[|bs| - 1] then HighBit(bits) else Zeros(32))
  {
  }

  lemma FeedIsDivideXor(s: CrcSpec, y: Word, b: bool)
    requires ValidWidth(s.bits)
    ensures Feed(s, y, b) == Divide(s, Xor(y, if b then HighBit(s.bits) else Zeros(32)))
  {
    if !b {
      assert Xor(y, Zeros(32)) == y;
    }
  }

  /** One table step agrees with eight bit-serial feeds on the low `bits` bits. */
  lemma ByteStep(s: CrcSpec, r: Word, d: Byte)
    requires ValidWidth(s.bits)
    ensures LowEq(s.bits, TableStep(s, r, d), SerialByte(s, r, d))
  {
    var bits := s.bits;
    var x := Xor(r, Inject(bits, MsbFirst(d)));
    FeedAllIsDivideN(s, r, MsbFirst(d));
    var idx := TableIndex(s, r, d);
    var hi := Inject(bits, MsbFirst(idx));
    var lo := ClearWindow(bits, x);
    WindowSplit(s, r, d);
    DivideNLinear(s, hi, lo, 8);
    FeedAllIsDivideN(s, Zeros(32), MsbFirst(idx));
    assert Xor(Zeros(32), hi) == hi;
    DivideNShifts(s, lo, 8);
    var t := TableEntry(s, idx);
    assert SerialByte(s, r, d) == Xor(t, Shl(lo, 8));
    LowShift(bits, r, x);
    LowXor(bits, Shl(r, 8), Shl(lo, 8), t);
  }

  lemma LowXor(bits: nat, a: Word, b: Word, t: Word)
    requires LowEq(bits, a, b)
    ensures LowEq(bits, Xor(a, t), Xor(t, b))
  {
  }

  /** `x` with the byte window below the high bit cleared. */
  function ClearWindow(bits: nat, x: Word): (r: Word)
    ensures forall i {:trigger r[i]} :: 0 <= i < 32 ==> r[i] == (!(bits - 8 <= i < bits) && x[i])
  {
    seq(32, i requires 0 <= i < 32 => !(bits - 8 <= i < bits) && x[i])
  }

  /** The byte window of register-plus-message is the table index. */
  lemma WindowSplit(s: CrcSpec, r: Word, d: Byte)
    requires ValidWidth(s.bits)
    ensures var x := Xor(r, Inject(s.bits, MsbFirst(d)));
      x == Xor(Inject(s.bits, MsbFirst(TableIndex(s, r, d))), ClearWindow(s.bits, x))
  {
  }

  lemma LowShift(bits: nat, r: Word, x: Word)
    requires 8 <= bits < 32
    requires forall i :: 0 <= i < bits - 8 ==> x[i] == r[i]
    ensures LowEq(bits, Shl(ClearWindow(bits, x), 8), Shl(r, 8))
  {
  }

  lemma TableStepCongruent(s: CrcSpec, a: Word, b: Word, d: Byte)
    requires ValidWidth(s.bits) && LowEq(s.bits, a, b)
    ensures LowEq(s.bits, TableStep(s, a, d), TableStep(s, b, d))
  {
    assert TableIndex(s, a, d) == TableIndex(s, b, d);
  }

  /** From any start, the table-driven and the bit-serial registers agree on the low `bits` bits. */
  lemma {:induction false} ProcessIsSerial(s: CrcSpec, r: Word, data: seq<Byte>)
    requires ValidWidth(s.bits)
    ensures LowEq(s.bits, Process(s, r, data), SerialCrc(s, r, data))
  {
    if |data| > 0 {
      var pre := data[..|data| - 1];
      var d := data[|data| - 1];
      ProcessIsSerial(s, r, pre);
      TableStepCongruent(s, Process(s, r, pre), SerialCrc(s, r, pre), d);
      ByteStep(s, SerialCrc(s, r, pre), d);
    }
  }

  /** The checksum is the bit-serial CRC of the bytes modulo 2^bits. */
  lemma CrcIsSerial(s: CrcSpec, data: seq<Byte>)
    requires ValidWidth(s.bits)
    ensures CrcOf(s, data) == And(SerialCrc(s, Zeros(32), data), LowOnes(s.bits))
  {
    ProcessIsSerial(s, Zeros(32), data);
  }

  /** Processing a concatenation is processing its parts in turn. */
  lemma {:induction false} ProcessConcat(s: CrcSpec, r: Word, a: seq<Byte>, b: seq<Byte>)
    requires ValidWidth(s.bits)
    ensures Process(s, r, a + b) == Process(s, Process(s, r, a), b)
  {
    if |b| == 0 {
      assert a + b == a;
    } else {
      ProcessConcat(s, r, a, b[..|b| - 1]);
      assert (a + b)[..|a + b| - 1] == a + b[..|b| - 1];
    }
  }

  /** The checksum fits in `bits` bits. */
  lemma CrcBound(s: CrcSpec, data: seq<Byte>)
    requires ValidWidth(s.bits)
    ensures Value(CrcOf(s, data)) < Pow2(s.bits)
  {
    ValueClearAbove(CrcOf(s, data), s.bits);
  }

  /** Both engines give 24-bit checksums. */
  lemma EnginesAre24Bit(data: seq<Byte>)
    ensures ValidWidth(Engine1.bits) && ValidWidth(Engine2.bits)
    ensures Value(CrcOf(Engine1, data)) < Pow2(24)
    ensures Value(CrcOf(Engine2, data)) < Pow2(24)
  {
    CrcBound(Engine1, data);
    CrcBound(Engine2, data);
  }

  /** The table loop's mask `0x80 >> n`. */
  predicate MaskAt(mask: Byte, n: nat)
  {
    forall i :: 0 <= i < 8 ==> mask[i] == (i + n == 7)
  }

  lemma MaskStart()
    ensures MaskAt(Single(7)[..8], 0) && Single(7)[..8] != Zeros(8)
  {
    assert Single(7)[..8][7];
  }

  /** `(value & mask) != 0` tests bit 7-n of the value. */
  lemma MaskTest(vb: Byte, mask: Byte, n: nat)
    requires n < 8 && MaskAt(mask, n)
    ensures (And(vb, mask) != Zeros(8)) == vb[7 - n]
  {
    assert And(vb, mask)[7 - n] == vb[7 - n];
  }

  /** `mask >>= 1` walks to the next lower bit and reaches zero after bit 0. */
  lemma MaskNext(mask: Byte, n: nat)
    requires n < 8 && MaskAt(mask, n)
    ensures MaskAt(Shr(mask, 1), n + 1)
    ensures Shr(mask, 1) == Zeros(8) <==> n + 1 == 8
  {
    if n + 1 < 8 {
      assert Shr(mask, 1)[6 - n];
    }
  }

  /** `(r & highBit) != 0` tests the high bit. */
  lemma HighTest(bits: nat, r: Word)
    requires ValidWidth(bits)
    ensures (And(r, HighBit(bits)) != Zeros(32)) == r[bits - 1]
  {
    assert And(r, HighBit(bits))[bits - 1] == r[bits - 1];
  }

  lemma FeedNone(s: CrcSpec, r: Word, bs: seq<bool>)
    requires ValidWidth(s.bits)
    ensures FeedAll(s, r, bs[..0]) == r
  {
    assert bs[..0] == [];
  }

  /**
   * One pass of the table loop's body: the conditional injection of the
   * masked data bit followed by the conditional polynomial subtraction is
   * one bit-serial step on bit 7-n of the byte.
   */
  lemma MaskStep(s: CrcSpec, rem: Word, vb: Byte, mask: Byte, n: nat)
    requires ValidWidth(s.bits) && n < 8 && MaskAt(mask, n)
    ensures var r1 := if And(vb, mask) != Zeros(8) then Xor(rem, HighBit(s.bits)) else rem;
      (if And(r1, HighBit(s.bits)) != Zeros(32) then Xor(Shl(r1, 1), s.truncPoly) else Shl(r1, 1))
        == Feed(s, rem, MsbFirst(vb)[n])
  {
    MaskTest(vb, mask, n);
    HighTest(s.bits, Xor(rem, HighBit(s.bits)));
    HighTest(s.bits, rem);
  }

  lemma FeedPrefix(s: CrcSpec, r: Word, bs: seq<bool>, n: nat)
    requires ValidWidth(s.bits) && n < |bs|
    ensures FeedAll(s, r, bs[..n + 1]) == Feed(s, FeedAll(s, r, bs[..n]), bs[n])
  {
    assert bs[..n + 1][..n] == bs[..n];
  }

  lemma ProcessPrefix(s: CrcSpec, r: Word, data: seq<Byte>, n: nat)
    requires ValidWidth(s.bits) && n < |data|
    ensures Process(s, r, data[..n + 1]) == TableStep(s, Process(s, r, data[..n]), data[n])
  {
    assert data[..n + 1][..n] == data[..n];
  }

  /** A byte used as a table index stays below 256 and reads back as itself. */
  lemma ByteValue(b: Byte)
    ensures Value(b) < 256 && NatBits(Value(b), 8) == b
  {
    ValueBound(b);
    NatBitsValue(b);
    assert Pow2(8) == 256;
  }

  // ---------------------------------------------------------------------
  // The engine object.
  // ---------------------------------------------------------------------

  class CrcCalculator {
    const bits: nat
    const truncPoly: Word
    const finalResultMask: Word
    const table: array<Word>
    var remainder: Word

    ghost predicate Valid()
      reads table
    {
      && ValidWidth(bits)
      && finalResultMask == LowOnes(bits)
      && table.Length == 256
      && forall v {:trigger table[v]} :: 0 <= v < 256 ==> table[v] == TableEntry(Spec(), NatBits(v, 8))
    }

    function Spec(): CrcSpec
    {
      CrcSpec(bits, truncPoly)
    }

    constructor (bits: nat, truncPoly: Word)
      requires ValidWidth(bits)
      ensures Valid() && fresh(table)
      ensures this.bits == bits && this.truncPoly == truncPoly && remainder == Zeros(32)
    {
      this.bits := bits;
      this.truncPoly := truncPoly;
      finalResultMask := LowOnes(bits);
      table := new Word[256];
      remainder := Zeros(32);
      new;
      XInitTable();
    }

    /** Fills the table: entry v is the byte v fed MSB first into a zero register. */
    method XInitTable()
      requires ValidWidth(bits) && table.Length == 256
      modifies table
      ensures forall v {:trigger table[v]} :: 0 <= v < 256 ==> table[v] == TableEntry(Spec(), NatBits(v, 8))
    {
      for value := 0 to 256
        invariant forall v {:trigger table[v]} :: 0 <= v < value ==> table[v] == TableEntry(Spec(), NatBits(v, 8))
      {
        var remainder := DivideByte(value);
        table[value] := remainder;
      }
    }

    /**
     * The inner loop of the table initialisation: the bits of `value`,
     * selected by a mask running from 0x80 down to 1, fed into a zero register.
     */
    method DivideByte(value: nat) returns (rem: Word)
      requires ValidWidth(bits)
      ensures rem == TableEntry(Spec(), NatBits(value, 8))
    {
      hide FeedAll, Feed, Divide, MsbFirst, NatBits, Xor, And, Shl, Shr, Single;
      var highBit := HighBit(bits);
      var vb: Byte := NatBits(value, 8);
      rem := Zeros(32);
      var mask: Byte := Single(7)[..8];
      ghost var n := 0;
      MaskStart();
      FeedNone(Spec(), rem, MsbFirst(vb));
      while mask != Zeros(8)
        invariant 0 <= n <= 8 && MaskAt(mask, n)
        invariant mask == Zeros(8) <==> n == 8
        invariant rem == FeedAll(Spec(), Zeros(32), MsbFirst(vb)[..n])
        decreases 8 - n
      {
        FeedPrefix(Spec(), Zeros(32), MsbFirst(vb), n);
        MaskStep(Spec(), rem, vb, mask, n);
        if And(vb, mask) != Zeros(8) {
          rem := Xor(rem, highBit);
        }
        if And(rem, highBit) != Zeros(32) {
          rem := Xor(Shl(rem, 1), truncPoly);
        } else {
          rem := Shl(rem, 1);
        }
        MaskNext(mask, n);
        mask := Shr(mask, 1);
        n := n + 1;
      }
      assert MsbFirst(vb)[..8] == MsbFirst(vb);
    }

    method Reset()
      modifies this
      ensures remainder == Zeros(32)
    {
      remainder := Zeros(32);
    }

    /** Folds `data` into the remainder, one table lookup per byte. */
    method ProcessData(data: seq<Byte>)
      requires Valid()
      modifies this
      ensures remainder == Process(Spec(), old(remainder), data)
    {
      assert data[..0] == [];
      assert remainder == Process(Spec(), old(remainder), data[..0]);
      hide Process, TableEntry, SerialByte, FeedAll, NatBits, Value;
      for i := 0 to |data|
        invariant remainder == Process(Spec(), old(remainder), data[..i])
      {
        ProcessPrefix(Spec(), old(remainder), data, i);
        var index := Truncate(Xor(Shr(remainder, bits - 8), Widen(data[i])));
        assert index == TableIndex(Spec(), remainder, data[i]);
        ByteValue(index);
        ghost var entry := table[Value(index)];
        assert entry == TableEntry(Spec(), index);
        ghost var step := TableStep(Spec(), remainder, data[i]);
        assert step == Xor(Shl(remainder, 8), entry);
        remainder := Shl(remainder, 8);
        remainder := Xor(remainder, table[Value(index)]);
        assert remainder == step;
      }
      assert data[..|data|] == data;
    }

    /** The remainder masked to `bits` bits. */
    function GetCrc(): (r: Word)
      reads this, table
      requires Valid()
      ensures forall i :: 0 <= i < 32 ==> r[i] == (i < bits && remainder[i])
    {
      And(remainder, finalResultMask)
    }
  }

  /** A well-formed calculator has a supported width. */
  lemma WidthOf(crc: CrcCalculator)
    requires crc.Valid()
    ensures ValidWidth(crc.Spec().bits)
  {
  }

  /**
   * Reset, process and read one calculator: the checksum of `p` alone.
   * The hasher's two fingerprint functions are this method applied to the
   * first and to the second calculator.
   */
  method GetCrcValue(crc: CrcCalculator, p: seq<Byte>) returns (r: Word)
    requires crc.Valid()
    modifies crc
    ensures crc.Valid()
    ensures r == CrcOf(crc.Spec(), p)
  {
    crc.Reset();
    crc.ProcessData(p);
    r := crc.GetCrc();
  }
}
