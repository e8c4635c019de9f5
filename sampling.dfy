/** Sampling of the rasterised glyph into a binary grid: the loop at the end
    of `pixelateChar`. The RGBA buffer read back from the canvas is an input
    here; drawing the glyph into it is not part of this model. */
module Sampling {
  import opened Grid
  import opened Numbers

  /** The buffer holds four bytes (R, G, B, A) per pixel of an n × n image. */
  predicate IsImage(data: seq<Byte>, n: nat) {
    |data| == n * n * 4
  }

  /** Index of the red byte of pixel (x, y) in a row-major RGBA buffer of width n. */
  function PixelOffset(n: nat, y: nat, x: nat): nat {
    (y * n + x) * 4
  }

  /** All four bytes of every pixel of the image lie inside the buffer. */
  lemma PixelInBuffer(n: nat, y: nat, x: nat)
    requires y < n && x < n
    ensures PixelOffset(n, y, x) + 3 < n * n * 4
  {
    assert y * n <= (n - 1) * n by {
      MulLeq(y, n - 1, n);
    }
    assert y * n + x < n * n;
  }

  /** Sum of the red, green and blue bytes of pixel (x, y). */
  function RgbSum(data: seq<Byte>, n: nat, y: nat, x: nat): nat
    requires IsImage(data, n) && y < n && x < n
  {
    PixelInBuffer(n, y, x);
    var i := PixelOffset(n, y, x);
    data[i] as int + data[i + 1] + data[i + 2]
  }

  /** The sampled value of cell (x, y): 1 when the unweighted mean of its red,
      green and blue bytes is strictly darker than `threshold`, else 0. */
  function Sample(data: seq<Byte>, n: nat, threshold: int, y: nat, x: nat): int
    requires IsImage(data, n) && y < n && x < n
  {
    if (RgbSum(data, n, y, x) as real) / 3.0 < threshold as real then 1 else 0
  }

  /** Row `y` of the sampled grid. */
  function SampledRow(data: seq<Byte>, n: nat, threshold: int, y: nat): seq<int>
    requires IsImage(data, n) && y < n
  {
    seq(n, x requires 0 <= x < n => Sample(data, n, threshold, y, x))
  }

  /** The whole sampled grid, top row first. */
  function SampledGrid(data: seq<Byte>, n: nat, threshold: int): (g: Grid)
    requires IsImage(data, n)
    ensures |g| == n && IsSquare(g)
  {
    seq(n, y requires 0 <= y < n => SampledRow(data, n, threshold, y))
  }

  /** The mean comparison is exactly an integer comparison on the byte sum. */
  lemma MeanBelow(sum: nat, threshold: int)
    ensures (sum as real) / 3.0 < threshold as real <==> sum < 3 * threshold
  {
  }

  /** The sampling loop of `pixelateChar`: nested loops over rows and columns
      pushing one 0/1 value per pixel into a row, and each row into the grid. */
  method Pixelate(data: seq<Byte>, gridSize: nat, threshold: int) returns (pixels: Grid)
    requires IsImage(data, gridSize)
    ensures pixels == SampledGrid(data, gridSize, threshold)
    ensures |pixels| == gridSize && IsSquare(pixels)
    ensures forall y, x :: 0 <= y < gridSize && 0 <= x < gridSize ==>
              (pixels[y][x] == 1 <==> RgbSum(data, gridSize, y, x) < 3 * threshold) &&
              (pixels[y][x] == 0 <==> RgbSum(data, gridSize, y, x) >= 3 * threshold)
  {
    pixels := [];
    var y := 0;
    while y < gridSize
      invariant 0 <= y <= gridSize
      invariant |pixels| == y
      invariant forall k :: 0 <= k < y ==> pixels[k] == SampledRow(data, gridSize, threshold, k)
    {
      var row := [];
      var x := 0;
      while x < gridSize
        invariant 0 <= x <= gridSize
        invariant row == SampledRow(data, gridSize, threshold, y)[..x]
      {
        PixelInBuffer(gridSize, y, x);
        var i := (y * gridSize + x) * 4;
        var brightness := ((data[i] as int + data[i + 1] + data[i + 2]) as real) / 3.0;
        row := row + [if brightness < threshold as real then 1 else 0];
        x := x + 1;
      }
      pixels := pixels + [row];
      y := y + 1;
    }
    forall y, x | 0 <= y < gridSize && 0 <= x < gridSize
      ensures pixels[y][x] == 1 <==> RgbSum(data, gridSize, y, x) < 3 * threshold
    {
      MeanBelow(RgbSum(data, gridSize, y, x), threshold);
    }
  }

  /** Every cell is 0 or 1, and cell (x, y) is 1 exactly when R + G + B <
      3 · threshold for that pixel. */
  lemma SampledGridShape(data: seq<Byte>, n: nat, threshold: int)
    requires IsImage(data, n)
    ensures forall y, x :: 0 <= y < n && 0 <= x < n ==>
              var v := SampledGrid(data, n, threshold)[y][x];
              (v == 0 || v == 1) && (v == 1 <==> RgbSum(data, n, y, x) < 3 * threshold)
  {
    forall y, x | 0 <= y < n && 0 <= x < n
      ensures Sample(data, n, threshold, y, x) == 1 <==> RgbSum(data, n, y, x) < 3 * threshold
    {
      MeanBelow(RgbSum(data, n, y, x), threshold);
    }
  }

  /** Two buffers that agree on every red, green and blue byte give the same
      grid: the alpha byte of a pixel never affects its cell. */
  lemma AlphaIgnored(a: seq<Byte>, b: seq<Byte>, n: nat, threshold: int)
    requires IsImage(a, n) && IsImage(b, n)
    requires forall i :: 0 <= i < |a| && i % 4 != 3 ==> a[i] == b[i]
    ensures SampledGrid(a, n, threshold) == SampledGrid(b, n, threshold)
  {
    forall y, x | 0 <= y < n && 0 <= x < n
      ensures RgbSum(a, n, y, x) == RgbSum(b, n, y, x)
    {
      PixelInBuffer(n, y, x);
      var i := PixelOffset(n, y, x);
      assert i % 4 == 0 && (i + 1) % 4 == 1 && (i + 2) % 4 == 2;
    }
    forall y | 0 <= y < n
      ensures SampledRow(a, n, threshold, y) == SampledRow(b, n, threshold, y)
    {
    }
  }

  /** Raising the threshold never turns an ink cell back into background. */
  lemma ThresholdMonotone(data: seq<Byte>, n: nat, lo: int, hi: int)
    requires IsImage(data, n) && lo <= hi
    ensures Covers(SampledGrid(data, n, lo), SampledGrid(data, n, hi))
    ensures |FilledCells(SampledGrid(data, n, lo))| <= |FilledCells(SampledGrid(data, n, hi))|
  {
    SampledGridShape(data, n, lo);
    SampledGridShape(data, n, hi);
    CoversCount(SampledGrid(data, n, lo), SampledGrid(data, n, hi));
  }

  /** With threshold 0 (or below) nothing is darker than the cutoff: every cell is 0. */
  lemma ThresholdZeroBlank(data: seq<Byte>, n: nat, threshold: int)
    requires IsImage(data, n) && threshold <= 0
    ensures forall y, x :: 0 <= y < n && 0 <= x < n ==> SampledGrid(data, n, threshold)[y][x] == 0
    ensures FilledCells(SampledGrid(data, n, threshold)) == []
  {
    SampledGridShape(data, n, threshold);
    NoInkNoCells(SampledGrid(data, n, threshold));
  }

  /** A pure white pixel (R = G = B = 255) is never ink for any threshold up to
      255, because the comparison is strict. */
  lemma WhiteNeverInk(data: seq<Byte>, n: nat, threshold: int, y: nat, x: nat)
    requires IsImage(data, n) && y < n && x < n && threshold <= 255
    requires RgbSum(data, n, y, x) == 765
    ensures SampledGrid(data, n, threshold)[y][x] == 0
  {
    SampledGridShape(data, n, threshold);
  }

  /** A pure black pixel (R = G = B = 0) is ink for every positive threshold. */
  lemma BlackAlwaysInk(data: seq<Byte>, n: nat, threshold: int, y: nat, x: nat)
    requires IsImage(data, n) && y < n && x < n && threshold >= 1
    requires RgbSum(data, n, y, x) == 0
    ensures SampledGrid(data, n, threshold)[y][x] == 1
  {
    SampledGridShape(data, n, threshold);
  }
}
