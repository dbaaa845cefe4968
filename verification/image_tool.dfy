/**
 * The perceptual hashes of one video frame and their similarity score.
 *
 * A frame reaches the hashing code already shrunk (9 x 8 pixels for the
 * difference hash, 8 x 8 for the average hash) and turned monochrome; it
 * is modelled here as a two-dimensional array of opaque colours indexed
 * `[x, y]`, as `Bitmap.get(x, y)` is.  Each hash visits the 64 cells row
 * by row, left to right, and gives the first cell the most significant
 * bit of the word.
 */
module ImageTool {
  import opened ULongBits

  /** One 8-bit colour channel. */
  type Channel = c: int | 0 <= c < 256

  /** An opaque colour (alpha 0xFF), as a bitmap pixel. */
  datatype Pixel = Pixel(red: Channel, green: Channel, blue: Channel)

  datatype ColorChannel = Red | Green | Blue

  function ChannelOf(p: Pixel, c: ColorChannel): Channel
  {
    match c
    case Red => p.red
    case Green => p.green
    case Blue => p.blue
  }

  /**
   * The Kotlin `Int` a pixel is read as: 0xFF in the alpha byte, then red,
   * green and blue, interpreted as a signed 32-bit value (hence negative).
   * Colours are compared with `<` on this value.
   */
  function ColorInt(p: Pixel): int
  {
    p.red * 0x1_0000 + p.green * 0x100 + p.blue - 0x100_0000
  }

  /**
   * Comparing the packed colour values orders pixels by red, then green,
   * then blue; on a grey pixel (all channels equal) that is its brightness.
   */
  lemma ColorIntOrder(p: Pixel, q: Pixel)
    ensures ColorInt(p) < ColorInt(q) <==>
      p.red < q.red || (p.red == q.red && (p.green < q.green || (p.green == q.green && p.blue < q.blue)))
    ensures -0x100_0000 <= ColorInt(p) < 0
  {
  }

  /** Hash bit that the cell at column `x`, row `y` (both below 8) sets. */
  function CellBit(x: nat, y: nat): (k: nat)
    requires x < 8 && y < 8
    ensures k < 64
  {
    63 - (8 * y + x)
  }

  /** Cell `(x, y)` is visited in position `8y + x`. */
  lemma CellIndex(x: nat, y: nat)
    requires x < 8
    ensures (8 * y + x) % 8 == x && (8 * y + x) / 8 == y
  {
  }

  // ---------------------------------------------------------------------
  // dHash

  /** The difference-hash test for one cell: is its right neighbour brighter? */
  predicate RightIsBrighter(g: array2<Pixel>, x: nat, y: nat)
    requires x + 1 < g.Length0 && y < g.Length1
    reads g
  {
    ColorInt(g[x, y]) < ColorInt(g[x + 1, y])
  }

  /** The 64 tests of a 9 x 8 grid, in visiting order (row by row). */
  function DifferenceBits(g: array2<Pixel>): (bits: seq<bool>)
    requires g.Length0 == 9 && g.Length1 == 8
    reads g
    ensures |bits| == 64
  {
    seq(64, i requires 0 <= i < 64 reads g => RightIsBrighter(g, i % 8, i / 8))
  }

  /** The difference hash of a 9 x 8 monochrome frame. */
  function DHash(g: array2<Pixel>): ULong
    requires g.Length0 == 9 && g.Length1 == 8
    reads g
  {
    MsbFirst(DifferenceBits(g))
  }

  /**
   * Bit `63 - (8y + x)` of the difference hash is set exactly when the
   * pixel right of cell `(x, y)` is brighter; the ninth column is only
   * ever a right neighbour and has no bit of its own.
   */
  lemma DHashBit(g: array2<Pixel>, x: nat, y: nat)
    requires g.Length0 == 9 && g.Length1 == 8
    requires x < 8 && y < 8
    ensures DHash(g)[CellBit(x, y)] <==> RightIsBrighter(g, x, y)
  {
    MsbFirstBit(DifferenceBits(g), CellBit(x, y));
    CellIndex(x, y);
  }

  lemma DHashBits(g: array2<Pixel>)
    requires g.Length0 == 9 && g.Length1 == 8
    ensures forall x, y :: 0 <= x < 8 && 0 <= y < 8 ==>
      (DHash(g)[CellBit(x, y)] <==> ColorInt(g[x, y]) < ColorInt(g[x + 1, y]))
  {
    forall x, y | 0 <= x < 8 && 0 <= y < 8
      ensures DHash(g)[CellBit(x, y)] <==> ColorInt(g[x, y]) < ColorInt(g[x + 1, y])
    {
      DHashBit(g, x, y);
    }
  }

  /** A frame whose rows are each a single colour has difference hash `0UL`. */
  lemma DHashOfFlatRows(g: array2<Pixel>)
    requires g.Length0 == 9 && g.Length1 == 8
    requires forall x, y :: 0 <= x < 9 && 0 <= y < 8 ==> g[x, y] == g[0, y]
    ensures DHash(g) == Zero()
  {
    var bits := DifferenceBits(g);
    forall i | 0 <= i < 64
      ensures !bits[i]
    {
      assert g[i % 8, i / 8] == g[i % 8 + 1, i / 8];
    }
    MsbFirstAllClear(bits);
  }

  /**
   * `calcDHash`: visits rows `y` and columns `x` below 8 and, with
   * `bitCount` counting down from 63, ors `1UL shl bitCount` into the
   * result when the right neighbour is brighter.
   */
  method CalcDHash(g: array2<Pixel>) returns (resultBit: ULong)
    requires g.Length0 == 9 && g.Length1 == 8
    ensures resultBit == DHash(g)
    ensures forall x, y :: 0 <= x < 8 && 0 <= y < 8 ==>
      (resultBit[CellBit(x, y)] <==> ColorInt(g[x, y]) < ColorInt(g[x + 1, y]))
  {
    ghost var bits := DifferenceBits(g);
    resultBit := Zero();
    var bitCount := 63;
    var y := 0;
    while y < 8
      invariant 0 <= y <= 8
      invariant bitCount == 63 - 8 * y
      invariant resultBit == MsbFirst(bits[..8 * y])
    {
      var x := 0;
      while x < 8
        invariant 0 <= x <= 8
        invariant bitCount == 63 - (8 * y + x)
        invariant resultBit == MsbFirst(bits[..8 * y + x])
      {
        var currentColor := g[x, y];
        var currentRightColor := g[x + 1, y];
        ghost var i := 8 * y + x;
        CellIndex(x, y);
        MsbFirstStep(bits, i);
        if ColorInt(currentColor) < ColorInt(currentRightColor) {
          resultBit := Or(resultBit, ShlOne(bitCount));
        }
        bitCount := bitCount - 1;
        x := x + 1;
      }
      y := y + 1;
    }
    assert bits[..64] == bits;
    DHashBits(g);
  }

  // ---------------------------------------------------------------------
  // aHash

  /** The 64 pixels of an 8 x 8 grid in visiting order (row by row). */
  function Cells(g: array2<Pixel>): (cells: seq<Pixel>)
    requires g.Length0 == 8 && g.Length1 == 8
    reads g
    ensures |cells| == 64
  {
    seq(64, i requires 0 <= i < 64 reads g => g[i % 8, i / 8])
  }

  /** Sum of one channel over a sequence of pixels. */
  function ChannelTotal(cells: seq<Pixel>, c: ColorChannel): nat
  {
    if cells == [] then 0
    else ChannelTotal(cells[..|cells| - 1], c) + ChannelOf(cells[|cells| - 1], c)
  }

  /** A sum of values that all lie in `[lo, hi]` lies between `n * lo` and `n * hi`. */
  lemma {:induction false} ChannelTotalBounds(cells: seq<Pixel>, c: ColorChannel, lo: int, hi: int)
    requires forall i :: 0 <= i < |cells| ==> lo <= ChannelOf(cells[i], c) <= hi
    ensures |cells| * lo <= ChannelTotal(cells, c) <= |cells| * hi
  {
    if cells != [] {
      var n := |cells| - 1;
      ChannelTotalBounds(cells[..n], c, lo, hi);
      assert (n + 1) * lo == n * lo + lo && (n + 1) * hi == n * hi + hi;
    }
  }

  lemma ChannelTotalStep(cells: seq<Pixel>, i: nat)
    requires i < |cells|
    ensures forall c :: ChannelTotal(cells[..i + 1], c) == ChannelTotal(cells[..i], c) + ChannelOf(cells[i], c)
  {
    assert cells[..i + 1][..i] == cells[..i];
  }

  /**
   * `totalRed / 64` (and likewise for green and blue): the truncated mean
   * of one channel, which lies between the smallest and the largest value
   * of that channel in the grid.
   */
  function AverageChannel(g: array2<Pixel>, c: ColorChannel): (v: Channel)
    requires g.Length0 == 8 && g.Length1 == 8
    reads g
    ensures exists x, y :: 0 <= x < 8 && 0 <= y < 8 && ChannelOf(g[x, y], c) <= v
    ensures exists x, y :: 0 <= x < 8 && 0 <= y < 8 && v <= ChannelOf(g[x, y], c)
  {
    AverageBetweenExtremes(g, c);
    ChannelTotal(Cells(g), c) / 64
  }

  lemma AverageBetweenExtremes(g: array2<Pixel>, c: ColorChannel)
    requires g.Length0 == 8 && g.Length1 == 8
    ensures 0 <= ChannelTotal(Cells(g), c) / 64 < 256
    ensures exists x, y :: 0 <= x < 8 && 0 <= y < 8 && ChannelOf(g[x, y], c) <= ChannelTotal(Cells(g), c) / 64
    ensures exists x, y :: 0 <= x < 8 && 0 <= y < 8 && ChannelTotal(Cells(g), c) / 64 <= ChannelOf(g[x, y], c)
  {
    var cells := Cells(g);
    ChannelTotalBounds(cells, c, 0, 255);
    var lo, hi := MinMaxCell(cells, c);
    ChannelTotalBounds(cells, c, ChannelOf(cells[lo], c), ChannelOf(cells[hi], c));
    assert g[lo % 8, lo / 8] == cells[lo];
    assert g[hi % 8, hi / 8] == cells[hi];
  }

  /** Indices of a smallest and a largest value of channel `c`. */
  lemma {:induction false} MinMaxCell(cells: seq<Pixel>, c: ColorChannel) returns (lo: nat, hi: nat)
    requires cells != []
    ensures lo < |cells| && hi < |cells|
    ensures forall i :: 0 <= i < |cells| ==> ChannelOf(cells[lo], c) <= ChannelOf(cells[i], c) <= ChannelOf(cells[hi], c)
  {
    if |cells| == 1 {
      lo, hi := 0, 0;
    } else {
      var n := |cells| - 1;
      lo, hi := MinMaxCell(cells[..n], c);
      if ChannelOf(cells[n], c) < ChannelOf(cells[lo], c) {
        lo := n;
      }
      if ChannelOf(cells[hi], c) < ChannelOf(cells[n], c) {
        hi := n;
      }
    }
  }

  /** `Color.rgb(totalRed / 64, totalGreen / 64, totalBlue / 64)`. */
  function AverageColor(g: array2<Pixel>): Pixel
    requires g.Length0 == 8 && g.Length1 == 8
    reads g
  {
    Pixel(AverageChannel(g, Red), AverageChannel(g, Green), AverageChannel(g, Blue))
  }

  /** The 64 tests "is this cell brighter than `average`?", in visiting order. */
  function AverageBits(g: array2<Pixel>, average: Pixel): (bits: seq<bool>)
    requires g.Length0 == 8 && g.Length1 == 8
    reads g
    ensures |bits| == 64
  {
    seq(64, i requires 0 <= i < 64 reads g => ColorInt(average) < ColorInt(g[i % 8, i / 8]))
  }

  /** The average hash of an 8 x 8 monochrome frame. */
  function AHash(g: array2<Pixel>): ULong
    requires g.Length0 == 8 && g.Length1 == 8
    reads g
  {
    MsbFirst(AverageBits(g, AverageColor(g)))
  }

  /** Bit `63 - (8y + x)` of the average hash is set exactly when cell `(x, y)` is brighter than the average colour. */
  lemma AHashBit(g: array2<Pixel>, x: nat, y: nat)
    requires g.Length0 == 8 && g.Length1 == 8
    requires x < 8 && y < 8
    ensures AHash(g)[CellBit(x, y)] <==> ColorInt(AverageColor(g)) < ColorInt(g[x, y])
  {
    MsbFirstBit(AverageBits(g, AverageColor(g)), CellBit(x, y));
    CellIndex(x, y);
  }

  lemma AHashBits(g: array2<Pixel>)
    requires g.Length0 == 8 && g.Length1 == 8
    ensures forall x, y :: 0 <= x < 8 && 0 <= y < 8 ==>
      (AHash(g)[CellBit(x, y)] <==> ColorInt(AverageColor(g)) < ColorInt(g[x, y]))
  {
    forall x, y | 0 <= x < 8 && 0 <= y < 8
      ensures AHash(g)[CellBit(x, y)] <==> ColorInt(AverageColor(g)) < ColorInt(g[x, y])
    {
      AHashBit(g, x, y);
    }
  }

  /** A frame of a single colour averages to that colour and has average hash `0UL`. */
  lemma AHashOfUniformFrame(g: array2<Pixel>, p: Pixel)
    requires g.Length0 == 8 && g.Length1 == 8
    requires forall x, y :: 0 <= x < 8 && 0 <= y < 8 ==> g[x, y] == p
    ensures AverageColor(g) == p
    ensures AHash(g) == Zero()
  {
    var cells := Cells(g);
    forall c: ColorChannel {
      ChannelTotalBounds(cells, c, ChannelOf(p, c), ChannelOf(p, c));
    }
    MsbFirstAllClear(AverageBits(g, p));
  }

  /** The first loop of `calcAHash`: the sum of each channel over the 64 cells. */
  method SumChannels(g: array2<Pixel>) returns (totalRed: nat, totalGreen: nat, totalBlue: nat)
    requires g.Length0 == 8 && g.Length1 == 8
    ensures totalRed == ChannelTotal(Cells(g), Red)
    ensures totalGreen == ChannelTotal(Cells(g), Green)
    ensures totalBlue == ChannelTotal(Cells(g), Blue)
  {
    ghost var cells := Cells(g);
    totalRed, totalGreen, totalBlue := 0, 0, 0;
    var y := 0;
    while y < 8
      invariant 0 <= y <= 8
      invariant totalRed == ChannelTotal(cells[..8 * y], Red)
      invariant totalGreen == ChannelTotal(cells[..8 * y], Green)
      invariant totalBlue == ChannelTotal(cells[..8 * y], Blue)
    {
      var x := 0;
      while x < 8
        invariant 0 <= x <= 8
        invariant totalRed == ChannelTotal(cells[..8 * y + x], Red)
        invariant totalGreen == ChannelTotal(cells[..8 * y + x], Green)
        invariant totalBlue == ChannelTotal(cells[..8 * y + x], Blue)
      {
        var color := g[x, y];
        ghost var i := 8 * y + x;
        CellIndex(x, y);
        ChannelTotalStep(cells, i);
        totalRed := totalRed + color.red;
        totalGreen := totalGreen + color.green;
        totalBlue := totalBlue + color.blue;
        x := x + 1;
      }
      y := y + 1;
    }
    assert cells[..64] == cells;
  }

  /**
   * `calcAHash`: sums each channel over the grid, takes the truncated
   * mean colour, then visits the cells as `calcDHash` does, setting a bit
   * for each cell brighter than that mean.
   */
  method CalcAHash(g: array2<Pixel>) returns (resultBit: ULong)
    requires g.Length0 == 8 && g.Length1 == 8
    ensures resultBit == AHash(g)
    ensures forall x, y :: 0 <= x < 8 && 0 <= y < 8 ==>
      (resultBit[CellBit(x, y)] <==> ColorInt(AverageColor(g)) < ColorInt(g[x, y]))
  {
    var totalRed, totalGreen, totalBlue := SumChannels(g);
    AverageBetweenExtremes(g, Red);
    AverageBetweenExtremes(g, Green);
    AverageBetweenExtremes(g, Blue);
    var averageColor := Pixel(totalRed / 64, totalGreen / 64, totalBlue / 64);
    assert averageColor == AverageColor(g);

    ghost var bits := AverageBits(g, averageColor);
    resultBit := Zero();
    var bitCount := 63;
    var y := 0;
    while y < 8
      invariant 0 <= y <= 8
      invariant bitCount == 63 - 8 * y
      invariant resultBit == MsbFirst(bits[..8 * y])
    {
      var x := 0;
      while x < 8
        invariant 0 <= x <= 8
        invariant bitCount == 63 - (8 * y + x)
        invariant resultBit == MsbFirst(bits[..8 * y + x])
      {
        var currentColor := g[x, y];
        ghost var i := 8 * y + x;
        CellIndex(x, y);
        MsbFirstStep(bits, i);
        if ColorInt(averageColor) < ColorInt(currentColor) {
          resultBit := Or(resultBit, ShlOne(bitCount));
        }
        bitCount := bitCount - 1;
        x := x + 1;
      }
      y := y + 1;
    }
    assert bits[..64] == bits;
    AHashBits(g);
  }

  // ---------------------------------------------------------------------
  // compare

  /** How many of the first `n` bit positions hold the same value in `a` and `b`. */
  function AgreeingBits(a: ULong, b: ULong, n: nat): (m: nat)
    requires n <= 64
    ensures m <= n
  {
    if n == 0 then 0 else AgreeingBits(a, b, n - 1) + (if a[n - 1] == b[n - 1] then 1 else 0)
  }

  lemma {:induction false} XorCountsDisagreements(a: ULong, b: ULong, n: nat)
    requires n <= 64
    ensures CountOnes(Xor(a, b), n) + AgreeingBits(a, b, n) == n
  {
    if n > 0 {
      XorCountsDisagreements(a, b, n - 1);
    }
  }

  /**
   * `compare(a, b)` is `(64 - (a xor b).countOneBits()) / 64f`; the model
   * keeps its exact numerator, the number of bit positions on which the
   * two hashes agree (0 to 64), so the score is `agree / 64`.
   */
  function Compare(a: ULong, b: ULong): (agree: nat)
    ensures agree <= 64
    ensures agree == AgreeingBits(a, b, 64)
  {
    XorCountsDisagreements(a, b, 64);
    64 - PopCount(Xor(a, b))
  }

  lemma {:induction false} AgreeingBitsSelf(h: ULong, n: nat)
    requires n <= 64
    ensures AgreeingBits(h, h, n) == n
  {
    if n > 0 {
      AgreeingBitsSelf(h, n - 1);
    }
  }

  lemma {:induction false} AgreeingBitsInverse(h: ULong, n: nat)
    requires n <= 64
    ensures AgreeingBits(h, Inv(h), n) == 0
  {
    if n > 0 {
      AgreeingBitsInverse(h, n - 1);
    }
  }

  lemma {:induction false} AgreeingBitsSymmetric(a: ULong, b: ULong, n: nat)
    requires n <= 64
    ensures AgreeingBits(a, b, n) == AgreeingBits(b, a, n)
  {
    if n > 0 {
      AgreeingBitsSymmetric(a, b, n - 1);
    }
  }

  /** A hash compared with itself scores 1. */
  lemma CompareSelf(h: ULong)
    ensures Compare(h, h) == 64
  {
    AgreeingBitsSelf(h, 64);
  }

  /** A hash compared with its bitwise complement scores 0. */
  lemma CompareInverse(h: ULong)
    ensures Compare(h, Inv(h)) == 0
  {
    AgreeingBitsInverse(h, 64);
  }

  /** The score does not depend on the order of the arguments. */
  lemma CompareSymmetric(a: ULong, b: ULong)
    ensures Compare(a, b) == Compare(b, a)
  {
    AgreeingBitsSymmetric(a, b, 64);
  }
}
