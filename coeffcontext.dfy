// Context-index arithmetic of residual coefficient coding: the
// `CoeffCodingContext` helpers that pick, for one coefficient of a
// width x height transform block, the offset of the context it is coded
// with, from the already coded neighbours around it.
//
// The coefficients are a read-only row-major sequence, `coeff[y * width + x]`.
// Regular residual coding scans backwards, so the coded neighbours of (x, y)
// are to its right and below; transform-skip residual coding scans forwards,
// and its neighbours are to the left and above (the code still calls them
// `rightPixel`/`belowPixel`).  The functions return the context offsets;
// turning an offset into a context id (`CtxSet::operator()`) is not part of
// this model.  Integers are mathematical: the code's `int` overflow (of
// `abs(INT_MIN)`, or of the product of two large neighbours) is not modelled.

module CoeffContext {
  import opened Bits

  // ---------------------------------------------------------------------
  // Positions and neighbourhoods.
  // ---------------------------------------------------------------------

  /** A coefficient position (x, y) of the block. */
  datatype Cell = Cell(x: nat, y: nat)

  predicate InBlock(w: nat, h: nat, c: Cell)
  {
    c.x < w && c.y < h
  }

  predicate AllInBlock(w: nat, h: nat, cells: seq<Cell>)
  {
    forall i :: 0 <= i < |cells| ==> InBlock(w, h, cells[i])
  }

  /** Row-major positions stay inside the block's w * h coefficients. */
  lemma IndexIn(w: nat, h: nat, x: nat, y: nat)
    requires x < w && y < h
    ensures y * w + x < w * h
  {
    calc {
      y * w + x;
    <
      y * w + w;
    ==
      (y + 1) * w;
    <=
      { MulAtLeastBy(w, h, y + 1); }
      w * h;
    }
  }

  /** The coefficient at position c. */
  function CoeffAt(w: nat, h: nat, coeff: seq<int>, c: Cell): int
    requires |coeff| == w * h && InBlock(w, h, c)
  {
    IndexIn(w, h, c.x, c.y);
    coeff[c.y * w + c.x]
  }

  function Abs(v: int): nat
  {
    if v < 0 then -v else v
  }

  function Min(a: int, b: int): int
  {
    if a < b then a else b
  }

  function Max(a: int, b: int): int
  {
    if a < b then b else a
  }

  /** The one-cell sequence [c] when b holds, the empty one otherwise. */
  function Opt(b: bool, c: Cell): seq<Cell>
  {
    if b then [c] else []
  }

  /**
   * The template of regular residual coding: right, two to the right,
   * below-right, below and two below, each only when it lies inside the
   * block, in the order the code reads them.  (The code tests `x < w - 2`
   * inside `x < w - 1`, and `y < h - 2` inside `y < h - 1`.)
   */
  function Template(w: nat, h: nat, x: nat, y: nat): seq<Cell>
  {
    Opt(x < w - 1, Cell(x + 1, y))
    + Opt(x < w - 2, Cell(x + 2, y))
    + Opt(x < w - 1 && y < h - 1, Cell(x + 1, y + 1))
    + Opt(y < h - 1, Cell(x, y + 1))
    + Opt(y < h - 2, Cell(x, y + 2))
  }

  /** The five displacements of the template. */
  predicate TemplateOffset(dx: int, dy: int)
  {
    (dx == 1 && dy == 0) || (dx == 2 && dy == 0) || (dx == 1 && dy == 1) || (dx == 0 && dy == 1) || (dx == 0 && dy == 2)
  }

  /**
   * The template is exactly the cells of the block at one of the five
   * displacements from (x, y); so every neighbour the code reads is inside
   * the block.
   */
  lemma TemplateIff(w: nat, h: nat, x: nat, y: nat, c: Cell)
    requires x < w && y < h
    ensures c in Template(w, h, x, y) <==> InBlock(w, h, c) && TemplateOffset(c.x - x, c.y - y)
  {
  }

  lemma TemplateInBlock(w: nat, h: nat, x: nat, y: nat)
    requires x < w && y < h
    ensures AllInBlock(w, h, Template(w, h, x, y)) && |Template(w, h, x, y)| <= 5
  {
    var t := Template(w, h, x, y);
    forall i | 0 <= i < |t|
      ensures InBlock(w, h, t[i])
    {
      TemplateIff(w, h, x, y, t[i]);
    }
  }

  /**
   * The neighbours of transform-skip coding: left, then above, each only
   * when it exists.
   */
  function TsNeighbours(x: nat, y: nat): seq<Cell>
  {
    (if x > 0 then [Cell(x - 1, y)] else []) + (if y > 0 then [Cell(x, y - 1)] else [])
  }

  lemma TsNeighboursInBlock(w: nat, h: nat, x: nat, y: nat)
    requires x < w && y < h
    ensures AllInBlock(w, h, TsNeighbours(x, y)) && |TsNeighbours(x, y)| <= 2
  {
  }

  // ---------------------------------------------------------------------
  // Sums over a neighbourhood.
  // ---------------------------------------------------------------------

  /** The sum of |coefficient| over the cells. */
  function AbsSum(w: nat, h: nat, coeff: seq<int>, cells: seq<Cell>): nat
    requires |coeff| == w * h && AllInBlock(w, h, cells)
    decreases |cells|
  {
    if cells == [] then 0
    else AbsSum(w, h, coeff, cells[..|cells| - 1]) + Abs(CoeffAt(w, h, coeff, cells[|cells| - 1]))
  }

  /** The number of non-zero coefficients among the cells. */
  function NonZero(w: nat, h: nat, coeff: seq<int>, cells: seq<Cell>): nat
    requires |coeff| == w * h && AllInBlock(w, h, cells)
    decreases |cells|
  {
    if cells == [] then 0
    else NonZero(w, h, coeff, cells[..|cells| - 1]) + (if CoeffAt(w, h, coeff, cells[|cells| - 1]) != 0 then 1 else 0)
  }

  /**
   * What one neighbour of absolute value a adds to `sumAbs` in
   * `sigCtxIdAbs`: a itself, capped at 4 or 5 so that its parity is kept
   * (`a & 1` is `a % 2` for a >= 0).
   */
  function Capped(a: nat): (r: nat)
    ensures r <= a && r <= 5 && r % 2 == a % 2
    ensures a > 0 ==> r > 0
  {
    Min(4 + a % 2, a)
  }

  /** The sum of the capped absolute values over the cells. */
  function CappedSum(w: nat, h: nat, coeff: seq<int>, cells: seq<Cell>): nat
    requires |coeff| == w * h && AllInBlock(w, h, cells)
    decreases |cells|
  {
    if cells == [] then 0
    else CappedSum(w, h, coeff, cells[..|cells| - 1]) + Capped(Abs(CoeffAt(w, h, coeff, cells[|cells| - 1])))
  }

  /** Appending a cell adds its term to each sum. */
  lemma SumsSnoc(w: nat, h: nat, coeff: seq<int>, cells: seq<Cell>, c: Cell)
    requires |coeff| == w * h && AllInBlock(w, h, cells) && InBlock(w, h, c)
    ensures AllInBlock(w, h, cells + [c])
    ensures AbsSum(w, h, coeff, cells + [c]) == AbsSum(w, h, coeff, cells) + Abs(CoeffAt(w, h, coeff, c))
    ensures NonZero(w, h, coeff, cells + [c]) == NonZero(w, h, coeff, cells) + (if CoeffAt(w, h, coeff, c) != 0 then 1 else 0)
    ensures CappedSum(w, h, coeff, cells + [c]) == CappedSum(w, h, coeff, cells) + Capped(Abs(CoeffAt(w, h, coeff, c)))
  {
    assert (cells + [c])[..|cells|] == cells;
  }

  /** What an optional cell adds to each sum: its term when present, nothing otherwise. */
  lemma SumsOpt(w: nat, h: nat, coeff: seq<int>, cells: seq<Cell>, b: bool, c: Cell)
    requires |coeff| == w * h && AllInBlock(w, h, cells) && (b ==> InBlock(w, h, c))
    ensures AllInBlock(w, h, cells + Opt(b, c))
    ensures AbsSum(w, h, coeff, cells + Opt(b, c)) == AbsSum(w, h, coeff, cells) + AbsTerm(w, h, coeff, b, c)
    ensures NonZero(w, h, coeff, cells + Opt(b, c)) == NonZero(w, h, coeff, cells) + NonZeroTerm(w, h, coeff, b, c)
    ensures CappedSum(w, h, coeff, cells + Opt(b, c)) == CappedSum(w, h, coeff, cells) + CappedTerm(w, h, coeff, b, c)
  {
    if b {
      SumsSnoc(w, h, coeff, cells, c);
    } else {
      assert cells + Opt(b, c) == cells;
    }
  }

  function AbsTerm(w: nat, h: nat, coeff: seq<int>, b: bool, c: Cell): nat
    requires |coeff| == w * h && (b ==> InBlock(w, h, c))
  {
    if b then Abs(CoeffAt(w, h, coeff, c)) else 0
  }

  function NonZeroTerm(w: nat, h: nat, coeff: seq<int>, b: bool, c: Cell): nat
    requires |coeff| == w * h && (b ==> InBlock(w, h, c))
  {
    if b && CoeffAt(w, h, coeff, c) != 0 then 1 else 0
  }

  function CappedTerm(w: nat, h: nat, coeff: seq<int>, b: bool, c: Cell): nat
    requires |coeff| == w * h && (b ==> InBlock(w, h, c))
  {
    if b then Capped(Abs(CoeffAt(w, h, coeff, c))) else 0
  }

  /** An absent neighbour adds nothing. */
  lemma NoTerm(w: nat, h: nat, coeff: seq<int>, b: bool, c: Cell)
    requires |coeff| == w * h && (b ==> InBlock(w, h, c))
    ensures !b ==> CappedTerm(w, h, coeff, b, c) == 0 && NonZeroTerm(w, h, coeff, b, c) == 0
    ensures b ==> CappedTerm(w, h, coeff, b, c) == CappedTerm(w, h, coeff, true, c)
    ensures b ==> NonZeroTerm(w, h, coeff, b, c) == NonZeroTerm(w, h, coeff, true, c)
  {
  }

  /** The template sums, neighbour by neighbour. */
  lemma TemplateSums(w: nat, h: nat, coeff: seq<int>, x: nat, y: nat)
    requires x < w && y < h && |coeff| == w * h
    ensures AllInBlock(w, h, Template(w, h, x, y))
    ensures var t := Template(w, h, x, y);
      && AbsSum(w, h, coeff, t)
         == AbsTerm(w, h, coeff, x < w - 1, Cell(x + 1, y)) + AbsTerm(w, h, coeff, x < w - 2, Cell(x + 2, y))
            + AbsTerm(w, h, coeff, x < w - 1 && y < h - 1, Cell(x + 1, y + 1))
            + AbsTerm(w, h, coeff, y < h - 1, Cell(x, y + 1)) + AbsTerm(w, h, coeff, y < h - 2, Cell(x, y + 2))
      && NonZero(w, h, coeff, t)
         == NonZeroTerm(w, h, coeff, x < w - 1, Cell(x + 1, y)) + NonZeroTerm(w, h, coeff, x < w - 2, Cell(x + 2, y))
            + NonZeroTerm(w, h, coeff, x < w - 1 && y < h - 1, Cell(x + 1, y + 1))
            + NonZeroTerm(w, h, coeff, y < h - 1, Cell(x, y + 1)) + NonZeroTerm(w, h, coeff, y < h - 2, Cell(x, y + 2))
      && CappedSum(w, h, coeff, t)
         == CappedTerm(w, h, coeff, x < w - 1, Cell(x + 1, y)) + CappedTerm(w, h, coeff, x < w - 2, Cell(x + 2, y))
            + CappedTerm(w, h, coeff, x < w - 1 && y < h - 1, Cell(x + 1, y + 1))
            + CappedTerm(w, h, coeff, y < h - 1, Cell(x, y + 1)) + CappedTerm(w, h, coeff, y < h - 2, Cell(x, y + 2))
  {
    var t0: seq<Cell> := [];
    SumsOpt(w, h, coeff, t0, x < w - 1, Cell(x + 1, y));
    var t1 := t0 + Opt(x < w - 1, Cell(x + 1, y));
    SumsOpt(w, h, coeff, t1, x < w - 2, Cell(x + 2, y));
    var t2 := t1 + Opt(x < w - 2, Cell(x + 2, y));
    SumsOpt(w, h, coeff, t2, x < w - 1 && y < h - 1, Cell(x + 1, y + 1));
    var t3 := t2 + Opt(x < w - 1 && y < h - 1, Cell(x + 1, y + 1));
    SumsOpt(w, h, coeff, t3, y < h - 1, Cell(x, y + 1));
    var t4 := t3 + Opt(y < h - 1, Cell(x, y + 1));
    SumsOpt(w, h, coeff, t4, y < h - 2, Cell(x, y + 2));
    var t5 := t4 + Opt(y < h - 2, Cell(x, y + 2));
    assert t1 == Opt(x < w - 1, Cell(x + 1, y));
    assert t5 == Template(w, h, x, y);
  }

  /**
   * Every non-zero neighbour adds between 1 and 5 to the capped sum and a
   * zero one adds nothing, so the capped sum exceeds the number of non-zero
   * neighbours by at most four per neighbour, and never falls below it.
   */
  lemma {:induction false} CappedSumBounds(w: nat, h: nat, coeff: seq<int>, cells: seq<Cell>)
    requires |coeff| == w * h && AllInBlock(w, h, cells)
    ensures NonZero(w, h, coeff, cells) <= |cells|
    ensures NonZero(w, h, coeff, cells) <= CappedSum(w, h, coeff, cells) <= 5 * NonZero(w, h, coeff, cells)
    decreases |cells|
  {
    if cells != [] {
      CappedSumBounds(w, h, coeff, cells[..|cells| - 1]);
    }
  }

  /** A neighbourhood sum depends only on the coefficients at its cells. */
  lemma {:induction false} SumsLocal(w: nat, h: nat, c1: seq<int>, c2: seq<int>, cells: seq<Cell>)
    requires |c1| == w * h && |c2| == w * h && AllInBlock(w, h, cells)
    requires forall i :: 0 <= i < |cells| ==> CoeffAt(w, h, c1, cells[i]) == CoeffAt(w, h, c2, cells[i])
    ensures AbsSum(w, h, c1, cells) == AbsSum(w, h, c2, cells)
    ensures NonZero(w, h, c1, cells) == NonZero(w, h, c2, cells)
    ensures CappedSum(w, h, c1, cells) == CappedSum(w, h, c2, cells)
    decreases |cells|
  {
    if cells != [] {
      SumsLocal(w, h, c1, c2, cells[..|cells| - 1]);
    }
  }

  /** Larger magnitudes at every cell give a larger sum of magnitudes. */
  lemma {:induction false} AbsSumMonotone(w: nat, h: nat, c1: seq<int>, c2: seq<int>, cells: seq<Cell>)
    requires |c1| == w * h && |c2| == w * h && AllInBlock(w, h, cells)
    requires forall i :: 0 <= i < |cells| ==> Abs(CoeffAt(w, h, c1, cells[i])) <= Abs(CoeffAt(w, h, c2, cells[i]))
    ensures AbsSum(w, h, c1, cells) <= AbsSum(w, h, c2, cells)
    decreases |cells|
  {
    if cells != [] {
      AbsSumMonotone(w, h, c1, c2, cells[..|cells| - 1]);
    }
  }

  /** No neighbour is non-zero exactly when the count of non-zero neighbours is 0, and all are exactly when it is the number of neighbours. */
  lemma {:induction false} NonZeroIff(w: nat, h: nat, coeff: seq<int>, cells: seq<Cell>)
    requires |coeff| == w * h && AllInBlock(w, h, cells)
    ensures NonZero(w, h, coeff, cells) == 0 <==> forall i :: 0 <= i < |cells| ==> CoeffAt(w, h, coeff, cells[i]) == 0
    ensures NonZero(w, h, coeff, cells) == |cells| <==> forall i :: 0 <= i < |cells| ==> CoeffAt(w, h, coeff, cells[i]) != 0
    decreases |cells|
  {
    if cells != [] {
      var init := cells[..|cells| - 1];
      NonZeroIff(w, h, coeff, init);
      CappedSumBounds(w, h, coeff, init);
      assert forall i :: 0 <= i < |init| ==> init[i] == cells[i];
    }
  }

  // ---------------------------------------------------------------------
  // Transform-skip level remapping.
  // ---------------------------------------------------------------------

  /** The larger magnitude of the two transform-skip neighbours: the level predicted for the coefficient. */
  function Pred(rightPixel: int, belowPixel: int): nat
  {
    Max(Abs(belowPixel), Abs(rightPixel))
  }

  /**
   * `deriveModCoeff`: with `bdpcm == 0`, the level equal to the prediction
   * is sent as 1 and the levels below it move up by one; with bdpcm the
   * level is sent unchanged.
   */
  function DeriveModCoeff(rightPixel: int, belowPixel: int, absCoeff: int, bdpcm: int): (r: int)
    ensures bdpcm != 0 ==> r == absCoeff
    ensures bdpcm == 0 && absCoeff >= 1 ==> r >= 1
  {
    if bdpcm == 0 then
      var pred1 := Pred(rightPixel, belowPixel);
      if absCoeff == pred1 then 1
      else if absCoeff < pred1 then absCoeff + 1
      else absCoeff
    else absCoeff
  }

  /** `decDeriveModCoeff`: the decoder's inverse of the remapping. */
  function DecDeriveModCoeff(rightPixel: int, belowPixel: int, absCoeff: int): (r: int)
    ensures absCoeff >= 1 ==> r >= 1
  {
    var pred1 := Pred(rightPixel, belowPixel);
    if absCoeff == 1 && pred1 > 0 then pred1
    else absCoeff - (if absCoeff <= pred1 then 1 else 0)
  }

  /** Decoding a remapped non-zero level gives the level back. */
  lemma DeriveModCoeffRoundTrip(rightPixel: int, belowPixel: int, absCoeff: int)
    requires absCoeff >= 1
    ensures DecDeriveModCoeff(rightPixel, belowPixel, DeriveModCoeff(rightPixel, belowPixel, absCoeff, 0)) == absCoeff
  {
  }

  /** Remapping a decoded non-zero level gives it back: the remapping is a bijection of the positive levels. */
  lemma DecDeriveModCoeffRoundTrip(rightPixel: int, belowPixel: int, absCoeff: int)
    requires absCoeff >= 1
    ensures DeriveModCoeff(rightPixel, belowPixel, DecDeriveModCoeff(rightPixel, belowPixel, absCoeff), 0) == absCoeff
  {
  }

  /** The remapping lets the level 0 collide with the prediction, which is why only non-zero levels are remapped. */
  lemma DeriveModCoeffZero(rightPixel: int, belowPixel: int)
    requires Pred(rightPixel, belowPixel) > 0
    ensures DeriveModCoeff(rightPixel, belowPixel, 0, 0) == DeriveModCoeff(rightPixel, belowPixel, Pred(rightPixel, belowPixel), 0)
  {
  }

  // ---------------------------------------------------------------------
  // Other one-liners.
  // ---------------------------------------------------------------------

  /** `SBH_THRESHOLD` of the common definitions: the smallest distance between the first and last coefficient for sign hiding. */
  const SbhThreshold: int := 4

  /** `v >> k` on an `int`: shifting right rounds toward minus infinity, as Dafny's division by a positive divisor does. */
  function Asr(v: int, k: nat): int
  {
    v / Pow2(k)
  }

  /** `v >> k` is the group of 2^k positions that holds v. */
  lemma AsrBounds(v: int, k: nat)
    ensures Asr(v, k) * Pow2(k) <= v < (Asr(v, k) + 1) * Pow2(k)
    ensures v >= 0 ==> Asr(v, k) >= 0
  {
    var p, q := Pow2(k), v / Pow2(k);
    assert v == q * p + v % p;
    assert (q + 1) * p == q * p + p;
    if v >= 0 && q < 0 {
      MulAtLeastBy(p, 0, q + 1);
      assert false;
    }
  }

  /** ... and the only one: the group of 2^k positions holding v is g exactly when `v >> k == g`. */
  lemma AsrGroup(v: int, k: nat, g: int)
    ensures Asr(v, k) == g <==> g * Pow2(k) <= v < (g + 1) * Pow2(k)
  {
    var p, q := Pow2(k), Asr(v, k);
    AsrBounds(v, k);
    if g < q {
      MulMono(g + 1, q, p);
      assert !(v < (g + 1) * p);
    } else if g > q {
      MulMono(q + 1, g, p);
      assert !(g * p <= v);
    }
  }

  lemma MulMono(a: int, b: int, p: nat)
    requires a <= b
    ensures a * p <= b * p
  {
    MulAtLeastBy(p, b, a);
    assert a * p == p * a && b * p == p * b;
  }

  /** The 32 Rice parameters `templateAbsSumTS` indexes by the capped neighbour sum. */
  const GoRicePars: seq<nat> := [0, 0, 0, 0,
                                 0, 0, 0, 0, 0, 0,
                                 0, 0, 1, 1, 1, 1, 1, 1, 1, 1, 1, 1,
                                 1, 1, 1, 2, 2, 2, 2, 2, 2, 2]

  /** The Rice parameter for a transform-skip neighbour sum. */
  function RiceParTS(sum: nat): (r: nat)
    ensures r == 0 <==> sum <= 11
    ensures r == 1 <==> 12 <= sum <= 24
    ensures r == 2 <==> sum >= 25
  {
    GoRicePars[Min(sum, 31)]
  }

  /** A larger neighbour sum never gives a smaller Rice parameter. */
  lemma RiceParTSMonotone(s1: nat, s2: nat)
    requires s1 <= s2
    ensures RiceParTS(s1) <= RiceParTS(s2)
  {
  }

  /**
   * The sign context of transform-skip coding from the two neighbours: 0
   * when both are zero or their signs differ, 1 when neither is negative,
   * 2 when neither is positive; 3 more under bdpcm.  The code's
   * `rightSign * belowSign < 0` is the opposite-sign test.
   */
  function SignCtx(rightSign: int, belowSign: int, bdpcm: int): nat
  {
    var signCtx :=
      if (rightSign == 0 && belowSign == 0) || rightSign * belowSign < 0 then 0
      else if rightSign >= 0 && belowSign >= 0 then 1
      else 2;
    if bdpcm != 0 then signCtx + 3 else signCtx
  }

  lemma OppositeSigns(a: int, b: int)
    ensures a * b < 0 <==> (a < 0 && b > 0) || (a > 0 && b < 0)
  {
    if a < 0 && b > 0 {
      assert a * b == -((-a) * b);
    } else if a > 0 && b < 0 {
      assert a * b == -(a * (-b));
    } else if a <= 0 && b <= 0 {
      assert a * b == (-a) * (-b);
    }
  }

  /** The sign context classifies the neighbour pair; under bdpcm it is 3 to 5. */
  lemma SignCtxCases(rightSign: int, belowSign: int, bdpcm: int)
    ensures SignCtx(rightSign, belowSign, bdpcm) <= 5
    ensures SignCtx(rightSign, belowSign, bdpcm) >= 3 <==> bdpcm != 0
    ensures SignCtx(rightSign, belowSign, bdpcm) % 3 == 0 <==>
      (rightSign == 0 && belowSign == 0) || (rightSign < 0 && belowSign > 0) || (rightSign > 0 && belowSign < 0)
    ensures SignCtx(rightSign, belowSign, bdpcm) % 3 == 1 <==>
      rightSign >= 0 && belowSign >= 0 && (rightSign != 0 || belowSign != 0)
    ensures SignCtx(rightSign, belowSign, bdpcm) % 3 == 2 <==>
      rightSign <= 0 && belowSign <= 0 && (rightSign != 0 || belowSign != 0)
  {
    OppositeSigns(rightSign, belowSign);
  }

  /** The sign context does not depend on which neighbour is which. */
  lemma SignCtxSymmetric(rightSign: int, belowSign: int, bdpcm: int)
    ensures SignCtx(rightSign, belowSign, bdpcm) == SignCtx(belowSign, rightSign, bdpcm)
  {
    OppositeSigns(rightSign, belowSign);
    OppositeSigns(belowSign, rightSign);
  }

  /** Negating both neighbours swaps contexts 1 and 2 and keeps 0. */
  lemma SignCtxNegated(rightSign: int, belowSign: int)
    ensures SignCtx(-rightSign, -belowSign, 0) == (3 - SignCtx(rightSign, belowSign, 0)) % 3
  {
    OppositeSigns(rightSign, belowSign);
    OppositeSigns(-rightSign, -belowSign);
  }

  /** The two transform-skip neighbour values, 0 where a neighbour does not exist. */
  datatype Neighbours = Neighbours(rightPixel: int, belowPixel: int)

  // ---------------------------------------------------------------------
  // The context object.
  // ---------------------------------------------------------------------

  /**
   * `CoeffCodingContext`: the block's constant geometry and flags, and the
   * state the coding of one block changes: the template summary recorded by
   * `sigCtxIdAbs`, the budget of context-coded bins, the significant
   * coefficient groups, and the current and last positions.
   */
  class CoeffCodingContext {
    const width: nat
    const height: nat
    /** `m_chType == CHANNEL_TYPE_LUMA`. */
    const luma: bool
    const signHiding: bool
    const log2CGSize: nat
    const maxNumCoeff: nat
    /** The number of coefficient groups `m_sigCoeffGroupFlag` has room for. */
    const groupCapacity: nat

    var tmplCpDiag: int
    var tmplCpSum1: int
    var remainingContextBins: int
    /** The positions whose bit is set in `m_sigCoeffGroupFlag`. */
    var sigCoeffGroupFlag: set<nat>
    var subSetId: int
    var subSetPos: nat
    var scanPosLast: int

    /**
     * The recorded template is either absent (`m_tmplCpDiag == -1`) or one
     * `sigCtxIdAbs` stored: a diagonal index and a non-negative capped
     * excess; only groups inside the bitset are set.
     */
    ghost predicate Valid()
      reads this
    {
      && width >= 1 && height >= 1 && maxNumCoeff >= 1
      && (tmplCpDiag == -1 || (tmplCpDiag >= 0 && tmplCpSum1 >= 0))
      && (forall g :: g in sigCoeffGroupFlag ==> g < groupCapacity)
    }

    /**
     * A context for one block with no template recorded, no context-coded
     * bins granted and no significant group.
     */
    constructor (width: nat, height: nat, luma: bool, signHiding: bool,
                 log2CGSize: nat, maxNumCoeff: nat, groupCapacity: nat)
      requires width >= 1 && height >= 1 && maxNumCoeff >= 1
      ensures Valid()
      ensures this.width == width && this.height == height && this.luma == luma
      ensures this.signHiding == signHiding
      ensures this.log2CGSize == log2CGSize && this.maxNumCoeff == maxNumCoeff && this.groupCapacity == groupCapacity
      ensures tmplCpDiag == -1 && tmplCpSum1 == -1 && remainingContextBins == 0
      ensures sigCoeffGroupFlag == {} && subSetId == 0 && subSetPos == 0 && scanPosLast == -1
    {
      this.width := width;
      this.height := height;
      this.luma := luma;
      this.signHiding := signHiding;
      this.log2CGSize := log2CGSize;
      this.maxNumCoeff := maxNumCoeff;
      this.groupCapacity := groupCapacity;
      tmplCpDiag := -1;
      tmplCpSum1 := -1;
      remainingContextBins := 0;
      sigCoeffGroupFlag := {};
      subSetId := 0;
      subSetPos := 0;
      scanPosLast := -1;
    }

    // Significant coefficient groups.

    /** `isSigGroup()`: the flag of the current group. */
    function IsSigGroup(): (r: bool)
      reads this
      ensures r <==> subSetPos in sigCoeffGroupFlag
    {
      subSetPos in sigCoeffGroupFlag
    }

    /** `setSigGroup`: sets the bit of the current group and no other. */
    method SetSigGroup()
      requires Valid() && subSetPos < groupCapacity
      modifies this`sigCoeffGroupFlag
      ensures Valid()
      ensures sigCoeffGroupFlag == old(sigCoeffGroupFlag) + {subSetPos}
    {
      sigCoeffGroupFlag := sigCoeffGroupFlag + {subSetPos};
    }

    /** `resetSigGroup`: clears the bit of the current group and no other. */
    method ResetSigGroup()
      requires Valid() && subSetPos < groupCapacity
      modifies this`sigCoeffGroupFlag
      ensures Valid()
      ensures sigCoeffGroupFlag == old(sigCoeffGroupFlag) - {subSetPos}
    {
      sigCoeffGroupFlag := sigCoeffGroupFlag - {subSetPos};
    }

    // Positions.

    /** `lastSubSet`: the coefficient group holding the block's last coefficient position. */
    function LastSubSet(): (r: int)
      requires maxNumCoeff >= 1
      ensures r >= 0
      ensures r * Pow2(log2CGSize) <= maxNumCoeff - 1 < (r + 1) * Pow2(log2CGSize)
    {
      AsrBounds(maxNumCoeff - 1, log2CGSize);
      Asr(maxNumCoeff - 1, log2CGSize)
    }

    /** `setScanPosLast`. */
    method SetScanPosLast(posLast: int)
      modifies this`scanPosLast
      ensures scanPosLast == posLast
    {
      scanPosLast := posLast;
    }

    /** `isLast`: the last significant position lies in the current coefficient group. */
    function IsLast(): (r: bool)
      reads this
      ensures r <==> subSetId * Pow2(log2CGSize) <= scanPosLast < (subSetId + 1) * Pow2(log2CGSize)
    {
      AsrGroup(scanPosLast, log2CGSize, subSetId);
      Asr(scanPosLast, log2CGSize) == subSetId
    }

    /** `hideSign`: sign hiding applies when enabled and the first and last coefficients are at least `SBH_THRESHOLD` apart. */
    function HideSign(posFirst: int, posLast: int): (r: bool)
      ensures r ==> signHiding
      ensures signHiding ==> (r <==> posLast - posFirst >= SbhThreshold)
    {
      signHiding && posLast - posFirst >= SbhThreshold
    }

    // The budget of context-coded bins.

    /** `numCtxBins`. */
    function NumCtxBins(): (r: int)
      reads this
      ensures r == remainingContextBins
    {
      remainingContextBins
    }

    /** `setNumCtxBins`. */
    method SetNumCtxBins(n: int)
      modifies this`remainingContextBins
      ensures remainingContextBins == n
      ensures NumCtxBins() == n
    {
      remainingContextBins := n;
    }

    /** `isContextCoded`: spends one bin of the budget and tells whether the budget covered it. */
    method IsContextCoded() returns (coded: bool)
      modifies this`remainingContextBins
      ensures remainingContextBins == old(remainingContextBins) - 1
      ensures NumCtxBins() == old(NumCtxBins()) - 1
      ensures coded <==> old(remainingContextBins) >= 1
    {
      remainingContextBins := remainingContextBins - 1;
      coded := remainingContextBins >= 0;
    }

    // Regular residual coding.

    /** The coefficient at (x, y) of this block. */
    function Coeff(coeff: seq<int>, x: nat, y: nat): int
      requires |coeff| == width * height && x < width && y < height
    {
      CoeffAt(width, height, coeff, Cell(x, y))
    }

    /**
     * The code's `UPDATE` step for the neighbour at (x, y): its capped
     * magnitude added to the sum, and one more non-zero neighbour if it is
     * non-zero.
     */
    method Update(coeff: seq<int>, x: nat, y: nat, sumAbs: nat, numPos: nat) returns (sumAbs': nat, numPos': nat)
      requires x < width && y < height && |coeff| == width * height
      ensures sumAbs' == sumAbs + CappedTerm(width, height, coeff, true, Cell(x, y))
      ensures numPos' == numPos + NonZeroTerm(width, height, coeff, true, Cell(x, y))
    {
      var a := Abs(Coeff(coeff, x, y));
      sumAbs', numPos' := sumAbs + Capped(a), numPos + (if a != 0 then 1 else 0);
    }

    /**
     * The template scan of `sigCtxIdAbs` (its `UPDATE` steps): the capped sum
     * and the number of non-zero coefficients over the template.
     */
    method TemplateStats(posX: nat, posY: nat, coeff: seq<int>) returns (sumAbs: nat, numPos: nat)
      requires posX < width && posY < height && |coeff| == width * height
      ensures (TemplateInBlock(width, height, posX, posY);
               && sumAbs == CappedSum(width, height, coeff, Template(width, height, posX, posY))
               && numPos == NonZero(width, height, coeff, Template(width, height, posX, posY)))
    {
      hide *;
      numPos := 0;
      sumAbs := 0;
      ghost var w: int, h: int := width, height;
      ghost var g1, g2, g3, g4, g5 := posX < w - 1, posX < w - 2, posX < w - 1 && posY < h - 1, posY < h - 1, posY < h - 2;
      ghost var c1, c2, c3, c4, c5 := Cell(posX + 1, posY), Cell(posX + 2, posY), Cell(posX + 1, posY + 1),
                                      Cell(posX, posY + 1), Cell(posX, posY + 2);
      if posX < width - 1 {
        sumAbs, numPos := Update(coeff, posX + 1, posY, sumAbs, numPos);
        if posX < width - 2 {
          sumAbs, numPos := Update(coeff, posX + 2, posY, sumAbs, numPos);
        }
        if posY < height - 1 {
          sumAbs, numPos := Update(coeff, posX + 1, posY + 1, sumAbs, numPos);
        }
      }
      NoTerm(w, h, coeff, g1, c1);
      NoTerm(w, h, coeff, g2, c2);
      NoTerm(w, h, coeff, g3, c3);
      ghost var s3, n3 := sumAbs, numPos;
      if posY < height - 1 {
        sumAbs, numPos := Update(coeff, posX, posY + 1, sumAbs, numPos);
        if posY < height - 2 {
          sumAbs, numPos := Update(coeff, posX, posY + 2, sumAbs, numPos);
        }
      }
      NoTerm(w, h, coeff, g4, c4);
      NoTerm(w, h, coeff, g5, c5);
      TemplateSums(width, height, coeff, posX, posY);
    }

    /**
     * `sigCtxIdAbs`: the offset of the significance flag's context from the
     * capped template sum and the diagonal, and the context set chosen by the
     * quantiser state; records the diagonal and the capped sum's excess over
     * the number of non-zero neighbours for `ctxOffsetAbs`.
     */
    method SigCtxIdAbs(posX: nat, posY: nat, coeff: seq<int>, state: int) returns (ctxSet: nat, ctxOfs: nat)
      requires Valid() && posX < width && posY < height && |coeff| == width * height
      requires state < 4
      modifies this`tmplCpDiag, this`tmplCpSum1
      ensures Valid()
      ensures ctxSet == Max(0, state - 1) && ctxSet < 3
      ensures (TemplateInBlock(width, height, posX, posY);
               var cells := Template(width, height, posX, posY);
               var sumAbs := CappedSum(width, height, coeff, cells);
               var numPos := NonZero(width, height, coeff, cells);
               && ctxOfs == Min(sumAbs, 5) + (if posX + posY < 2 then 6 else 0) + (if luma && posX + posY < 5 then 6 else 0)
               && tmplCpDiag == posX + posY
               && tmplCpSum1 == sumAbs - numPos
               && 0 <= tmplCpSum1 <= 4 * numPos && numPos <= 5)
      ensures ctxOfs <= (if luma then 17 else 11)
    {
      var diag := posX + posY;
      var sumAbs, numPos := TemplateStats(posX, posY, coeff);
      TemplateInBlock(width, height, posX, posY);
      CappedSumBounds(width, height, coeff, Template(width, height, posX, posY));
      ctxOfs := Min(sumAbs, 5) + (if diag < 2 then 6 else 0);
      if luma {
        ctxOfs := ctxOfs + (if diag < 5 then 6 else 0);
      }
      tmplCpDiag := diag;
      tmplCpSum1 := sumAbs - numPos;
      ctxSet := Max(0, state - 1);
    }

    /**
     * `ctxOffsetAbs`: no offset before a template was recorded; otherwise the
     * capped excess plus one plus a diagonal class, 1 to 20 for luma and 1 to
     * 10 for chroma.  The `uint8_t` result is the offset modulo 256.
     */
    function CtxOffsetAbs(): (r: nat)
      reads this
      ensures r < 256
      ensures tmplCpDiag == -1 ==> r == 0
      ensures Valid() && tmplCpDiag != -1 ==> 1 <= r <= (if luma then 20 else 10)
    {
      var offset :=
        if tmplCpDiag != -1 then
          Min(tmplCpSum1, 4) + 1 +
          (if tmplCpDiag == 0 then (if luma then 15 else 5)
           else if luma then (if tmplCpDiag < 3 then 10 else if tmplCpDiag < 10 then 5 else 0)
           else 0)
        else 0;
      offset % 256
    }

    /**
     * `templateAbsSum`: the template's sum of magnitudes less five per
     * level already coded in earlier passes, clipped to 0 .. 31.
     */
    function TemplateAbsSum(posX: nat, posY: nat, coeff: seq<int>, baseLevel: int): (r: nat)
      requires posX < width && posY < height && |coeff| == width * height
      ensures r <= 31
    {
      TemplateInBlock(width, height, posX, posY);
      var sum := AbsSum(width, height, coeff, Template(width, height, posX, posY));
      Max(Min(sum - 5 * baseLevel, 31), 0)
    }

    // Transform-skip residual coding.

    /** `neighTS`: the left and above coefficients, 0 where the neighbour does not exist. */
    function NeighTS(posX: nat, posY: nat, coeff: seq<int>): (n: Neighbours)
      requires posX < width && posY < height && |coeff| == width * height
      ensures posX > 0 ==> n.rightPixel == Coeff(coeff, posX - 1, posY)
      ensures posX == 0 ==> n.rightPixel == 0
      ensures posY > 0 ==> n.belowPixel == Coeff(coeff, posX, posY - 1)
      ensures posY == 0 ==> n.belowPixel == 0
    {
      Neighbours(if posX > 0 then Coeff(coeff, posX - 1, posY) else 0,
                 if posY > 0 then Coeff(coeff, posX, posY - 1) else 0)
    }

    /** `sigCtxIdAbsTS`: the number of non-zero transform-skip neighbours. */
    function SigCtxIdAbsTS(posX: nat, posY: nat, coeff: seq<int>): (r: nat)
      requires posX < width && posY < height && |coeff| == width * height
      ensures r <= 2
    {
      var left := if posX > 0 && Coeff(coeff, posX - 1, posY) != 0 then 1 else 0;
      var above := if posY > 0 && Coeff(coeff, posX, posY - 1) != 0 then 1 else 0;
      left + above
    }

    /** `lrg1CtxIdAbsTS`: as `sigCtxIdAbsTS`, or 3 under bdpcm. */
    function Lrg1CtxIdAbsTS(posX: nat, posY: nat, coeff: seq<int>, bdpcm: int): (r: nat)
      requires posX < width && posY < height && |coeff| == width * height
      ensures r <= 3
      ensures r == 3 <==> bdpcm != 0
    {
      if bdpcm != 0 then 3 else SigCtxIdAbsTS(posX, posY, coeff)
    }

    /** `signCtxIdAbsTS`: the sign context of the transform-skip neighbours. */
    function SignCtxIdAbsTS(posX: nat, posY: nat, coeff: seq<int>, bdpcm: int): (r: nat)
      requires posX < width && posY < height && |coeff| == width * height
      ensures r <= 5
    {
      var rightSign := if posX > 0 then Coeff(coeff, posX - 1, posY) else 0;
      var belowSign := if posY > 0 then Coeff(coeff, posX, posY - 1) else 0;
      SignCtxCases(rightSign, belowSign, bdpcm);
      SignCtx(rightSign, belowSign, bdpcm)
    }

    /** `templateAbsSumTS`: the Rice parameter for the sum of the transform-skip neighbours' magnitudes. */
    function TemplateAbsSumTS(posX: nat, posY: nat, coeff: seq<int>): (r: nat)
      requires posX < width && posY < height && |coeff| == width * height
      ensures r <= 2
    {
      var left := if posX > 0 then Abs(Coeff(coeff, posX - 1, posY)) else 0;
      var above := if posY > 0 then Abs(Coeff(coeff, posX, posY - 1)) else 0;
      RiceParTS(left + above)
    }
  }

  // ---------------------------------------------------------------------
  // Properties of the context functions.
  // ---------------------------------------------------------------------

  /** `templateAbsSum` reads only the template: blocks that agree there give the same value. */
  lemma TemplateAbsSumLocal(cc: CoeffCodingContext, posX: nat, posY: nat, c1: seq<int>, c2: seq<int>, baseLevel: int)
    requires posX < cc.width && posY < cc.height && |c1| == cc.width * cc.height && |c2| == cc.width * cc.height
    requires (TemplateInBlock(cc.width, cc.height, posX, posY);
              forall c :: c in Template(cc.width, cc.height, posX, posY) ==>
                CoeffAt(cc.width, cc.height, c1, c) == CoeffAt(cc.width, cc.height, c2, c))
    ensures cc.TemplateAbsSum(posX, posY, c1, baseLevel) == cc.TemplateAbsSum(posX, posY, c2, baseLevel)
  {
    TemplateInBlock(cc.width, cc.height, posX, posY);
    SumsLocal(cc.width, cc.height, c1, c2, Template(cc.width, cc.height, posX, posY));
  }

  /** Larger template magnitudes, or fewer levels already coded, never lower `templateAbsSum`. */
  lemma TemplateAbsSumMonotone(cc: CoeffCodingContext, posX: nat, posY: nat, c1: seq<int>, c2: seq<int>, b1: int, b2: int)
    requires posX < cc.width && posY < cc.height && |c1| == cc.width * cc.height && |c2| == cc.width * cc.height
    requires b2 <= b1
    requires (TemplateInBlock(cc.width, cc.height, posX, posY);
              forall c :: c in Template(cc.width, cc.height, posX, posY) ==>
                Abs(CoeffAt(cc.width, cc.height, c1, c)) <= Abs(CoeffAt(cc.width, cc.height, c2, c)))
    ensures cc.TemplateAbsSum(posX, posY, c1, b1) <= cc.TemplateAbsSum(posX, posY, c2, b2)
  {
    TemplateInBlock(cc.width, cc.height, posX, posY);
    AbsSumMonotone(cc.width, cc.height, c1, c2, Template(cc.width, cc.height, posX, posY));
  }

  /** `templateAbsSum` is 0 exactly when the template's magnitudes are covered by five per coded level. */
  lemma TemplateAbsSumZero(cc: CoeffCodingContext, posX: nat, posY: nat, coeff: seq<int>, baseLevel: int)
    requires posX < cc.width && posY < cc.height && |coeff| == cc.width * cc.height
    ensures (TemplateInBlock(cc.width, cc.height, posX, posY);
             cc.TemplateAbsSum(posX, posY, coeff, baseLevel) == 0 <==>
               AbsSum(cc.width, cc.height, coeff, Template(cc.width, cc.height, posX, posY)) <= 5 * baseLevel)
  {
    TemplateInBlock(cc.width, cc.height, posX, posY);
  }

  /**
   * `sigCtxIdAbsTS` counts the non-zero transform-skip neighbours: it is 0
   * exactly when all of them are zero and equals their number exactly when
   * none is.
   */
  lemma SigCtxIdAbsTSCounts(cc: CoeffCodingContext, posX: nat, posY: nat, coeff: seq<int>)
    requires posX < cc.width && posY < cc.height && |coeff| == cc.width * cc.height
    ensures (TsNeighboursInBlock(cc.width, cc.height, posX, posY);
             cc.SigCtxIdAbsTS(posX, posY, coeff) == NonZero(cc.width, cc.height, coeff, TsNeighbours(posX, posY)))
  {
    TsNeighboursInBlock(cc.width, cc.height, posX, posY);
    var cells := TsNeighbours(posX, posY);
    var left := if posX > 0 then [Cell(posX - 1, posY)] else [];
    assert AllInBlock(cc.width, cc.height, left);
    if posY > 0 {
      SumsSnoc(cc.width, cc.height, coeff, left, Cell(posX, posY - 1));
    }
    if posX > 0 {
      SumsSnoc(cc.width, cc.height, coeff, [], Cell(posX - 1, posY));
      assert [] + [Cell(posX - 1, posY)] == left;
    }
  }

  /**
   * `lrg1CtxIdAbsTS` is 3 under bdpcm and otherwise the number of non-zero
   * left and above neighbours, the count `sigCtxIdAbsTS` makes.
   */
  lemma Lrg1IsCount(cc: CoeffCodingContext, posX: nat, posY: nat, coeff: seq<int>, bdpcm: int)
    requires posX < cc.width && posY < cc.height && |coeff| == cc.width * cc.height
    ensures (TsNeighboursInBlock(cc.width, cc.height, posX, posY);
             cc.Lrg1CtxIdAbsTS(posX, posY, coeff, bdpcm)
               == if bdpcm != 0 then 3 else NonZero(cc.width, cc.height, coeff, TsNeighbours(posX, posY)))
  {
    SigCtxIdAbsTSCounts(cc, posX, posY, coeff);
  }

  /** `signCtxIdAbsTS` is the sign context of the neighbours `neighTS` returns. */
  lemma SignCtxOfNeighTS(cc: CoeffCodingContext, posX: nat, posY: nat, coeff: seq<int>, bdpcm: int)
    requires posX < cc.width && posY < cc.height && |coeff| == cc.width * cc.height
    ensures var n := cc.NeighTS(posX, posY, coeff);
      cc.SignCtxIdAbsTS(posX, posY, coeff, bdpcm) == SignCtx(n.rightPixel, n.belowPixel, bdpcm)
  {
  }

  /** `templateAbsSumTS` is the Rice parameter of the magnitudes of the neighbours `neighTS` returns. */
  lemma TemplateAbsSumTSOfNeighTS(cc: CoeffCodingContext, posX: nat, posY: nat, coeff: seq<int>)
    requires posX < cc.width && posY < cc.height && |coeff| == cc.width * cc.height
    ensures var n := cc.NeighTS(posX, posY, coeff);
      cc.TemplateAbsSumTS(posX, posY, coeff) == RiceParTS(Abs(n.rightPixel) + Abs(n.belowPixel))
  {
  }

  /**
   * After `setNumCtxBins(n)`, a run of k `isContextCoded` calls answers true
   * exactly for the first n of them, and `numCtxBins` then reports n - k.
   */
  method ContextCodedRun(cc: CoeffCodingContext, n: nat, k: nat) returns (answers: seq<bool>)
    modifies cc`remainingContextBins
    ensures |answers| == k
    ensures forall i :: 0 <= i < k ==> (answers[i] <==> i < n)
    ensures cc.remainingContextBins == n - k
    ensures cc.NumCtxBins() == n - k
  {
    cc.SetNumCtxBins(n);
    answers := [];
    while |answers| < k
      invariant |answers| <= k
      invariant cc.NumCtxBins() == n - |answers|
      invariant forall i :: 0 <= i < |answers| ==> (answers[i] <==> i < n)
    {
      var coded := cc.IsContextCoded();
      answers := answers + [coded];
    }
  }

  /** Setting and then resetting the current group's flag restores every flag but the current one, which ends cleared. */
  method SigGroupToggle(cc: CoeffCodingContext) returns (wasSet: bool, isSet: bool)
    requires cc.Valid() && cc.subSetPos < cc.groupCapacity
    modifies cc`sigCoeffGroupFlag
    ensures cc.Valid()
    ensures wasSet && !isSet
    ensures cc.sigCoeffGroupFlag == old(cc.sigCoeffGroupFlag) - {cc.subSetPos}
  {
    cc.SetSigGroup();
    wasSet := cc.IsSigGroup();
    cc.ResetSigGroup();
    isSet := cc.IsSigGroup();
  }
}
