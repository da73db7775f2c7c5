// Machine words as explicit bit strings.
//
// The C++ code works on `unsigned int` (32 bits) and `unsigned char` (8 bits)
// with shifts, XOR and AND.  Here a word is the sequence of its bits, least
// significant bit first, and every bitwise operator is written out bit by bit.

module Bits {

  /** A 32-bit `unsigned int`, bit i at index i. */
  type Word = w: seq<bool> | |w| == 32 witness seq(32, _ => false)

  /** An 8-bit `unsigned char`, bit i at index i. */
  type Byte = b: seq<bool> | |b| == 8 witness seq(8, _ => false)

  function Pow2(n: nat): (r: nat)
    ensures r >= 1
  {
    if n == 0 then 1 else 2 * Pow2(n - 1)
  }

  /** The all-zero string of length n. */
  function Zeros(n: nat): (r: seq<bool>)
    ensures |r| == n
    ensures forall i :: 0 <= i < n ==> !r[i]
  {
    seq(n, _ => false)
  }

  /** `a ^ b` */
  function Xor(a: seq<bool>, b: seq<bool>): (r: seq<bool>)
    requires |a| == |b|
    ensures |r| == |a|
    ensures forall i {:trigger r[i]} :: 0 <= i < |a| ==> r[i] == (a[i] != b[i])
  {
    seq(|a|, i requires 0 <= i < |a| => a[i] != b[i])
  }

  /** `a & b` */
  function And(a: seq<bool>, b: seq<bool>): (r: seq<bool>)
    requires |a| == |b|
    ensures |r| == |a|
    ensures forall i {:trigger r[i]} :: 0 <= i < |a| ==> r[i] == (a[i] && b[i])
  {
    seq(|a|, i requires 0 <= i < |a| => a[i] && b[i])
  }

  /** `a << k`: bits shifted out at the top are lost. */
  function Shl(a: seq<bool>, k: nat): (r: seq<bool>)
    ensures |r| == |a|
    ensures forall i :: 0 <= i < |a| ==> r[i] == (k <= i && a[i - k])
  {
    seq(|a|, i requires 0 <= i < |a| => k <= i && a[i - k])
  }

  /** `a >> k` on an unsigned operand: zeros come in at the top. */
  function Shr(a: seq<bool>, k: nat): (r: seq<bool>)
    ensures |r| == |a|
    ensures forall i :: 0 <= i < |a| ==> r[i] == (i + k < |a| && a[i + k])
  {
    seq(|a|, i requires 0 <= i < |a| => i + k < |a| && a[i + k])
  }

  /** `v >> k` on a non-negative integer. */
  function ShiftRight(v: nat, k: nat): nat
  {
    if k == 0 then v else ShiftRight(v / 2, k - 1)
  }

  /** A value below 2^(k+m) shifted right by k is below 2^m. */
  lemma {:induction false} ShiftRightBound(v: nat, k: nat, m: nat)
    requires v < Pow2(k + m)
    ensures ShiftRight(v, k) < Pow2(m)
  {
    if k > 0 {
      assert Pow2(k + m) == 2 * Pow2(k - 1 + m);
      ShiftRightBound(v / 2, k - 1, m);
    }
  }

  /** `(1 << n) - 1` as a word: the n low bits set. */
  function LowOnes(n: nat): (r: Word)
    ensures forall i :: 0 <= i < 32 ==> r[i] == (i < n)
  {
    seq(32, i => i < n)
  }

  /** An `unsigned char` widened to `unsigned int`. */
  function Widen(d: Byte): (r: Word)
    ensures forall i {:trigger r[i]} :: 0 <= i < 32 ==> r[i] == (i < 8 && d[i])
  {
    d + Zeros(24)
  }

  /** The `unsigned char` cast of a word: its low 8 bits. */
  function Truncate(w: Word): (r: Byte)
    ensures forall i {:trigger r[i]} :: 0 <= i < 8 ==> r[i] == w[i]
  {
    w[..8]
  }

  /** `1 << k` as a word. */
  function Single(k: nat): (r: Word)
    ensures forall i :: 0 <= i < 32 ==> r[i] == (i == k)
  {
    seq(32, i => i == k)
  }

  /** A string whose bits from n upwards are clear denotes less than 2^n. */
  lemma {:induction false} ValueClearAbove(a: seq<bool>, n: nat)
    requires forall i :: n <= i < |a| ==> !a[i]
    ensures Value(a) < Pow2(n)
  {
    if |a| > 0 {
      if n == 0 {
        ValueClearAbove(a[1..], 0);
      } else {
        ValueClearAbove(a[1..], n - 1);
      }
    }
  }

  /** The number a bit string denotes. */
  function Value(a: seq<bool>): nat
  {
    if |a| == 0 then 0 else (if a[0] then 1 else 0) + 2 * Value(a[1..])
  }

  /** The n low bits of v. */
  function NatBits(v: nat, n: nat): (r: seq<bool>)
    ensures |r| == n
  {
    if n == 0 then [] else [v % 2 == 1] + NatBits(v / 2, n - 1)
  }

  lemma {:induction false} ValueBound(a: seq<bool>)
    ensures Value(a) < Pow2(|a|)
  {
    if |a| > 0 {
      ValueBound(a[1..]);
    }
  }

  /** Reading a bit string back from its value gives the string. */
  lemma {:induction false} NatBitsValue(a: seq<bool>)
    ensures NatBits(Value(a), |a|) == a
  {
    if |a| > 0 {
      var v := Value(a);
      assert v % 2 == 1 <==> a[0];
      assert v / 2 == Value(a[1..]);
      NatBitsValue(a[1..]);
      assert NatBits(v, |a|) == [a[0]] + a[1..];
    }
  }

  /** The n low bits of v denote v modulo 2^n. */
  lemma {:induction false} ValueNatBits(v: nat, n: nat)
    ensures Value(NatBits(v, n)) == v % Pow2(n)
  {
    if n > 0 {
      ValueNatBits(v / 2, n - 1);
      var r := NatBits(v, n);
      assert r[1..] == NatBits(v / 2, n - 1);
      ModSplit(v, Pow2(n - 1));
    }
  }

  /** v mod 2m, split into its lowest bit and the rest. */
  lemma ModSplit(v: nat, m: nat)
    requires m >= 1
    ensures v % (2 * m) == v % 2 + 2 * ((v / 2) % m)
  {
    var q := (v / 2) / m;
    var b := v % 2 + 2 * ((v / 2) % m);
    assert v / 2 == m * q + (v / 2) % m;
    assert v == 2 * (v / 2) + v % 2;
    assert v == (2 * m) * q + b;
    assert 0 <= b < 2 * m;
    ModUnique(v, 2 * m, q, b);
  }

  lemma ModUnique(v: nat, m: nat, q: int, b: int)
    requires m >= 1 && 0 <= b < m && v == m * q + b
    ensures v % m == b
  {
    var q' := v / m;
    var d := q - q';
    assert m * d == v % m - b;
    if d >= 1 {
      MulAtLeast(m, d);
    } else if d <= -1 {
      MulAtLeast(m, -d);
    }
  }

  lemma MulAtLeast(m: nat, d: int)
    requires d >= 1
    ensures m * d >= m
  {
    assert m * d == m * (d - 1) + m;
  }

  /** Multiplying by d keeps the order of q and m. */
  lemma MulAtLeastBy(d: nat, q: int, m: int)
    requires q >= m
    ensures d * q >= d * m
  {
    assert d * q == d * m + d * (q - m);
  }

  lemma {:induction false} Pow2Add(a: nat, b: nat)
    ensures Pow2(a + b) == Pow2(a) * Pow2(b)
  {
    if a > 0 {
      Pow2Add(a - 1, b);
      assert Pow2(a + b) == 2 * Pow2(a - 1 + b);
    }
  }

  /** Quotient and remainder are determined by any decomposition v == m * q + b with 0 <= b < m. */
  lemma DivModUnique(v: nat, m: nat, q: nat, b: nat)
    requires m >= 1 && b < m && v == m * q + b
    ensures v / m == q && v % m == b
  {
    ModUnique(v, m, q, b);
    var q' := v / m;
    assert m * q' == m * q;
    if q' > q {
      MulAtLeast(m, q' - q);
    } else if q' < q {
      MulAtLeast(m, q - q');
    }
  }

  /** `a & b` on non-negative integers, bit by bit. */
  function BitAnd(a: nat, b: nat): nat
  {
    if a == 0 || b == 0 then 0
    else (if a % 2 == 1 && b % 2 == 1 then 1 else 0) + 2 * BitAnd(a / 2, b / 2)
  }

  /** Masking with `2^k - 1` keeps the remainder modulo 2^k. */
  lemma {:induction false} BitAndLowMask(x: nat, k: nat)
    ensures BitAnd(x, Pow2(k) - 1) == x % Pow2(k)
  {
    if k == 0 {
      assert Pow2(k) - 1 == 0;
    } else if x == 0 {
      assert 0 % Pow2(k) == 0;
    } else {
      hide *;
      MaskHalf(k);
      var mask := Pow2(k) - 1;
      BitAndStep(x, mask);
      BitAndLowMask(x / 2, k - 1);
      ModSplitPow2(x, k);
      assert x % 2 == 0 || x % 2 == 1;
    }
  }

  /** One step of `BitAnd`: the low bits, then the rest shifted down. */
  lemma BitAndStep(a: nat, b: nat)
    requires a >= 1 && b >= 1
    ensures BitAnd(a, b) == (if a % 2 == 1 && b % 2 == 1 then 1 else 0) + 2 * BitAnd(a / 2, b / 2)
  {
  }

  /** `2^k - 1` is odd and halves to `2^(k-1) - 1`. */
  lemma MaskHalf(k: nat)
    requires k >= 1
    ensures Pow2(k) >= 2 && (Pow2(k) - 1) % 2 == 1 && (Pow2(k) - 1) / 2 == Pow2(k - 1) - 1
  {
    var m := Pow2(k - 1);
    assert Pow2(k) == 2 * m;
  }

  /** The remainder modulo 2^k from the low bit and the remainder of the half modulo 2^(k-1). */
  lemma ModSplitPow2(v: nat, k: nat)
    requires k >= 1
    ensures v % Pow2(k) == v % 2 + 2 * ((v / 2) % Pow2(k - 1))
  {
    assert Pow2(k) == 2 * Pow2(k - 1);
    ModSplit(v, Pow2(k - 1));
  }
}
