// Picture samples and the 2x2 sample serialisation the block hasher starts from.
//
// A picture is modelled by its size, its chroma format, its bit depths and a
// sample function: `sample(c, x, y)` is the sample of component c (0 luma,
// 1 Cb, 2 Cr) at column x, row y.  Chroma is only ever read when the format is
// 4:4:4, where the chroma planes have the luma plane's size.

module Picture {
  import opened Bits

  datatype Picture = Picture(
    width: nat, height: nat,
    chroma444: bool,
    lumaDepth: nat, chromaDepth: nat,
    sample: (nat, nat, nat) -> nat)

  /** A non-empty picture whose bit depths the serialisation's right shift by `depth - 8` accepts. */
  predicate Valid(pic: Picture)
  {
    pic.width >= 1 && pic.height >= 1 && pic.lumaDepth >= 8 && pic.chromaDepth >= 8
  }

  /** Components that are serialised: luma always, Cb and Cr when `all`. */
  function Comps(all: bool): nat
  {
    if all then 3 else 1
  }

  lemma CompsValue(all: bool)
    ensures Comps(all) == if all then 3 else 1
  {
  }

  /** A valid picture has at least one sample. */
  lemma Dimensions(pic: Picture)
    requires Valid(pic)
    ensures pic.width >= 1 && pic.height >= 1
  {
  }

  /** Sample of component c at (x, y). */
  function Sample(pic: Picture, c: nat, x: nat, y: nat): nat
    requires Valid(pic) && x < pic.width && y < pic.height
    requires c == 0 || (c < 3 && pic.chroma444)
  {
    pic.sample(c, x, y)
  }

  function Depth(pic: Picture, c: nat): nat
  {
    if c == 0 then pic.lumaDepth else pic.chromaDepth
  }

  /** The right shift `depth - 8` that brings a sample down to eight bits. */
  function Shift(pic: Picture, c: nat): (r: nat)
    requires pic.lumaDepth >= 8 && pic.chromaDepth >= 8
    ensures r + 8 == Depth(pic, c)
  {
    Depth(pic, c) - 8
  }

  /** `(unsigned char)(v >> (depth - 8))`: the eight bits below the shift. */
  function SampleByte(pic: Picture, c: nat, x: nat, y: nat): (r: Byte)
    requires Valid(pic) && x < pic.width && y < pic.height
    requires c == 0 || (c < 3 && pic.chroma444)
  {
    NatBits(ShiftRight(Sample(pic, c, x, y), Shift(pic, c)), 8)
  }

  /** The bytes of one pixel: Y, or Y Cb Cr. */
  function PixelBytes(pic: Picture, x: nat, y: nat, all: bool): (r: seq<Byte>)
    requires Valid(pic) && x < pic.width && y < pic.height
    requires all ==> pic.chroma444
    ensures |r| == Comps(all)
  {
    if all then [SampleByte(pic, 0, x, y), SampleByte(pic, 1, x, y), SampleByte(pic, 2, x, y)]
    else [SampleByte(pic, 0, x, y)]
  }

  /** The 2x2 block at (x, y) serialised pixel by pixel in raster order. */
  function Block2x2Bytes(pic: Picture, x: nat, y: nat, all: bool): (r: seq<Byte>)
    requires Valid(pic) && x + 2 <= pic.width && y + 2 <= pic.height
    requires all ==> pic.chroma444
    ensures |r| == 4 * Comps(all)
  {
    PixelBytes(pic, x, y, all) + PixelBytes(pic, x + 1, y, all) +
    PixelBytes(pic, x, y + 1, all) + PixelBytes(pic, x + 1, y + 1, all)
  }

  /** For samples that fit the bit depth, the byte holds the eight most significant bits. */
  lemma SampleByteTopBits(pic: Picture, c: nat, x: nat, y: nat)
    requires Valid(pic) && x < pic.width && y < pic.height
    requires c == 0 || (c < 3 && pic.chroma444)
    requires Sample(pic, c, x, y) < Pow2(Depth(pic, c))
    ensures Value(SampleByte(pic, c, x, y)) == ShiftRight(Sample(pic, c, x, y), Shift(pic, c))
    ensures Value(SampleByte(pic, c, x, y)) < 256
  {
    var v := ShiftRight(Sample(pic, c, x, y), Shift(pic, c));
    ShiftRightBound(Sample(pic, c, x, y), Shift(pic, c), 8);
    assert Pow2(8) == 256;
    ValueNatBits(v, 8);
    ModUnique(v, 256, 0, v);
  }

  /**
   * `getPixelsIn1DCharArrayByBlock2x2`: serialises the 2x2 block at
   * (xStart, yStart); chroma is included only when asked for and the picture
   * is 4:4:4.  Both bit-depth branches of the source are kept.
   */
  method GetPixelsIn1DCharArrayByBlock2x2(pic: Picture, pixels: array<Byte>, xStart: nat, yStart: nat,
                                          includeAllComponent: bool)
    requires Valid(pic) && xStart + 2 <= pic.width && yStart + 2 <= pic.height
    requires pixels.Length == 4 * Comps(includeAllComponent && pic.chroma444)
    modifies pixels
    ensures pixels[..] == Block2x2Bytes(pic, xStart, yStart, includeAllComponent && pic.chroma444)
  {
    hide Block2x2Bytes, PixelBytes, SampleByte, NatBits;
    var all := includeAllComponent && pic.chroma444;
    ghost var want := Block2x2Bytes(pic, xStart, yStart, all);
    var k := Comps(all);
    var eight := pic.lumaDepth == 8 && pic.chromaDepth == 8;
    var index := 0;
    for i := 0 to 2
      invariant index == 2 * i * k
      invariant forall t :: 0 <= t < index ==> pixels[t] == want[t]
    {
      for j := 0 to 2
        invariant index == (2 * i + j) * k
        invariant forall t :: 0 <= t < index ==> pixels[t] == want[t]
      {
        var px := PixelBytesAt(pic, xStart + j, yStart + i, all, eight);
        Block2x2At(pic, xStart, yStart, all, i, j);
        pixels[index] := px[0];
        if all {
          pixels[index + 1] := px[1];
          pixels[index + 2] := px[2];
        }
        index := index + k;
      }
    }
  }

  /** Where pixel (j, i) of the block sits in its serialisation. */
  lemma Block2x2At(pic: Picture, x: nat, y: nat, all: bool, i: nat, j: nat)
    requires Valid(pic) && x + 2 <= pic.width && y + 2 <= pic.height
    requires all ==> pic.chroma444
    requires i < 2 && j < 2
    ensures var k := Comps(all);
      Block2x2Bytes(pic, x, y, all)[(2 * i + j) * k..(2 * i + j + 1) * k] == PixelBytes(pic, x + j, y + i, all)
  {
    var k := Comps(all);
    var p := Block2x2Bytes(pic, x, y, all);
    if i == 0 && j == 0 {
      assert p[0..k] == PixelBytes(pic, x, y, all);
    } else if i == 0 {
      assert p[k..2 * k] == PixelBytes(pic, x + 1, y, all);
    } else if j == 0 {
      assert p[2 * k..3 * k] == PixelBytes(pic, x, y + 1, all);
    } else {
      assert p[3 * k..4 * k] == PixelBytes(pic, x + 1, y + 1, all);
    }
  }

  /** The bytes of one pixel, by the source's 8-bit branch or its shifting branch. */
  method PixelBytesAt(pic: Picture, x: nat, y: nat, all: bool, eight: bool) returns (r: seq<Byte>)
    requires Valid(pic) && x < pic.width && y < pic.height
    requires all ==> pic.chroma444
    requires eight == (pic.lumaDepth == 8 && pic.chromaDepth == 8)
    ensures r == PixelBytes(pic, x, y, all)
  {
    var shift := pic.lumaDepth - 8;
    var shiftc := pic.chromaDepth - 8;
    if eight {
      r := [NatBits(pic.sample(0, x, y), 8)];
      if all {
        r := r + [NatBits(pic.sample(1, x, y), 8), NatBits(pic.sample(2, x, y), 8)];
      }
    } else {
      r := [NatBits(ShiftRight(pic.sample(0, x, y), shift), 8)];
      if all {
        r := r + [NatBits(ShiftRight(pic.sample(1, x, y), shiftc), 8), NatBits(ShiftRight(pic.sample(2, x, y), shiftc), 8)];
      }
    }
  }

  /** `isBlock2x2RowSameValue`: each row's left and right pixels agree. */
  function IsBlock2x2RowSameValue(p: seq<Byte>, includeAllComponent: bool): bool
    requires |p| == 4 * Comps(includeAllComponent)
  {
    if includeAllComponent then
      if p[0] != p[3] || p[6] != p[9] then false
      else if p[1] != p[4] || p[7] != p[10] then false
      else if p[2] != p[5] || p[8] != p[11] then false
      else true
    else
      if p[0] != p[1] || p[2] != p[3] then false else true
  }

  /** `isBlock2x2ColSameValue`: each column's top and bottom pixels agree. */
  function IsBlock2x2ColSameValue(p: seq<Byte>, includeAllComponent: bool): bool
    requires |p| == 4 * Comps(includeAllComponent)
  {
    if includeAllComponent then
      if p[0] != p[6] || p[3] != p[9] then false
      else if p[1] != p[7] || p[4] != p[10] then false
      else if p[2] != p[8] || p[5] != p[11] then false
      else true
    else
      if p[0] != p[2] || p[1] != p[3] then false else true
  }

  /** Every row of the w x h block at (x, y) holds one pixel value. */
  ghost predicate RowConst(pic: Picture, x: nat, y: nat, w: nat, h: nat, all: bool)
    requires Valid(pic) && x + w <= pic.width && y + h <= pic.height
    requires all ==> pic.chroma444
  {
    forall yy, xx :: y <= yy < y + h && x <= xx && xx + 1 < x + w ==>
      PixelBytes(pic, xx, yy, all) == PixelBytes(pic, xx + 1, yy, all)
  }

  /** Every column of the w x h block at (x, y) holds one pixel value. */
  ghost predicate ColConst(pic: Picture, x: nat, y: nat, w: nat, h: nat, all: bool)
    requires Valid(pic) && x + w <= pic.width && y + h <= pic.height
    requires all ==> pic.chroma444
  {
    forall yy, xx :: y <= yy && yy + 1 < y + h && x <= xx < x + w ==>
      PixelBytes(pic, xx, yy, all) == PixelBytes(pic, xx, yy + 1, all)
  }

  /** The row test on the serialised 2x2 block is exactly "both rows constant". */
  lemma RowSameIff(pic: Picture, x: nat, y: nat, all: bool)
    requires Valid(pic) && x + 2 <= pic.width && y + 2 <= pic.height
    requires all ==> pic.chroma444
    ensures IsBlock2x2RowSameValue(Block2x2Bytes(pic, x, y, all), all) <==> RowConst(pic, x, y, 2, 2, all)
  {
    hide SampleByte;
    var p := Block2x2Bytes(pic, x, y, all);
    var k := Comps(all);
    assert p[0..k] == PixelBytes(pic, x, y, all);
    assert p[k..2 * k] == PixelBytes(pic, x + 1, y, all);
    assert p[2 * k..3 * k] == PixelBytes(pic, x, y + 1, all);
    assert p[3 * k..4 * k] == PixelBytes(pic, x + 1, y + 1, all);
    if RowConst(pic, x, y, 2, 2, all) {
      assert PixelBytes(pic, x, y, all) == PixelBytes(pic, x + 1, y, all);
      assert PixelBytes(pic, x, y + 1, all) == PixelBytes(pic, x + 1, y + 1, all);
    }
  }

  /** The column test on the serialised 2x2 block is exactly "both columns constant". */
  lemma ColSameIff(pic: Picture, x: nat, y: nat, all: bool)
    requires Valid(pic) && x + 2 <= pic.width && y + 2 <= pic.height
    requires all ==> pic.chroma444
    ensures IsBlock2x2ColSameValue(Block2x2Bytes(pic, x, y, all), all) <==> ColConst(pic, x, y, 2, 2, all)
  {
    hide SampleByte;
    var p := Block2x2Bytes(pic, x, y, all);
    var k := Comps(all);
    assert p[0..k] == PixelBytes(pic, x, y, all);
    assert p[k..2 * k] == PixelBytes(pic, x + 1, y, all);
    assert p[2 * k..3 * k] == PixelBytes(pic, x, y + 1, all);
    assert p[3 * k..4 * k] == PixelBytes(pic, x + 1, y + 1, all);
    if ColConst(pic, x, y, 2, 2, all) {
      assert PixelBytes(pic, x, y, all) == PixelBytes(pic, x, y + 1, all);
      assert PixelBytes(pic, x + 1, y, all) == PixelBytes(pic, x + 1, y + 1, all);
    }
  }
}
