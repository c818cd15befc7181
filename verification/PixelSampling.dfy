/**
 Sampling the central half of a captured image on a grid of at most 64 by 64.
 */
module PixelSampling {
  import opened Arithmetic

  const DIMENSION_LIMIT: nat := 2048
  const GRID: nat := 64

  type Byte = b: int | 0 <= b < 256

  function Max(a: int, b: int): int { if a < b then b else a }
  function Min(a: int, b: int): int { if a < b then a else b }

  /** One axis of the region: where it starts, how long it is, and how many samples lie along it. */
  function First(size: nat): nat { size / 4 }
  function Extent(size: nat): nat { Max(1, size / 2) }
  function Count(size: nat): nat { Min(GRID, Extent(size)) }

  function Scale(k: nat, extent: nat, count: nat): nat
    requires count > 0
  {
    k * extent / count
  }

  function Position(size: nat, k: nat): nat {
    First(size) + Scale(k, Extent(size), Count(size))
  }

  lemma ScaleBelow(k: nat, extent: nat, count: nat)
    requires k < count && extent > 0
    ensures Scale(k, extent, count) < extent
  {
    ProductMonotone(k, count - 1, extent);
    assert (count - 1) * extent == count * extent - extent;
    QuotientBelow(k * extent, extent, count);
  }

  lemma ScaleRises(j: nat, k: nat, extent: nat, count: nat)
    requires j < k && 0 < count <= extent
    ensures Scale(j, extent, count) < Scale(k, extent, count)
  {
    ProductMonotone(j + 1, k, extent);
    assert (j + 1) * extent == j * extent + extent;
    QuotientRises(j * extent, k * extent, count);
  }

  lemma PositionInside(size: nat, k: nat)
    requires size > 0 && k < Count(size)
    ensures First(size) <= Position(size, k) < First(size) + Extent(size) <= size
  {
    ScaleBelow(k, Extent(size), Count(size));
  }

  /** Along one axis no two samples share a position. */
  lemma PositionsDiffer(size: nat, j: nat, k: nat)
    requires j < k < Count(size)
    ensures Position(size, j) < Position(size, k)
  {
    ScaleRises(j, k, Extent(size), Count(size));
  }

  function SampleCount(width: nat, height: nat): nat {
    Count(height) * Count(width)
  }

  function Column(width: nat, n: nat): nat { n % Count(width) }
  function Row(width: nat, n: nat): nat { n / Count(width) }

  function ByteOffset(x: nat, y: nat, width: nat): nat {
    var rows: nat := y * width;
    (rows + x) * 4
  }

  function Offset(width: nat, height: nat, n: nat): nat {
    ByteOffset(Position(width, Column(width, n)), Position(height, Row(width, n)), width)
  }

  lemma InImage(x: nat, y: nat, width: nat, height: nat)
    requires x < width && y < height
    ensures ByteOffset(x, y, width) + 3 < width * height * 4
  {
    ProductMonotone(y + 1, height, width);
    assert (y + 1) * width == y * width + width;
  }

  lemma RowInGrid(width: nat, height: nat, n: nat)
    requires n < SampleCount(width, height)
    ensures Row(width, n) < Count(height) && Column(width, n) < Count(width)
  {
    QuotientBelow(n, Count(height), Count(width));
  }

  /** Every sample lies in the central region, and all four of its bytes in the image. */
  lemma SampleInside(width: nat, height: nat, n: nat)
    requires width > 0 && height > 0 && n < SampleCount(width, height)
    ensures First(width) <= Position(width, Column(width, n)) < First(width) + Extent(width) <= width
    ensures First(height) <= Position(height, Row(width, n)) < First(height) + Extent(height) <= height
    ensures Offset(width, height, n) + 3 < width * height * 4
  {
    RowInGrid(width, height, n);
    PositionInside(width, Column(width, n));
    PositionInside(height, Row(width, n));
    InImage(Position(width, Column(width, n)), Position(height, Row(width, n)), width, height);
  }

  lemma OffsetsAgree(width: nat, x: nat, y: nat, x': nat, y': nat)
    requires x < width && x' < width && ByteOffset(x, y, width) == ByteOffset(x', y', width)
    ensures x == x' && y == y'
  {
    if y < y' {
      ProductMonotone(y + 1, y', width);
    } else if y' < y {
      ProductMonotone(y' + 1, y, width);
    }
  }

  lemma SameGridCell(width: nat, m: nat, n: nat)
    requires Row(width, m) == Row(width, n) && Column(width, m) == Column(width, n)
    ensures m == n
  {
    var d := Count(width);
    assert m == m / d * d + m % d && n == n / d * d + n % d;
  }

  /** No pixel is sampled twice. */
  lemma SamplesDiffer(width: nat, height: nat, m: nat, n: nat)
    requires width > 0 && height > 0 && m < SampleCount(width, height) && n < SampleCount(width, height)
    ensures Offset(width, height, m) == Offset(width, height, n) ==> m == n
  {
    SampleInside(width, height, m);
    SampleInside(width, height, n);
    if Offset(width, height, m) == Offset(width, height, n) {
      var i, j, k, l := Column(width, m), Column(width, n), Row(width, m), Row(width, n);
      OffsetsAgree(width, Position(width, i), Position(height, k), Position(width, j), Position(height, l));
      RowInGrid(width, height, m);
      RowInGrid(width, height, n);
      SameColumn(width, i, j);
      SameColumn(height, k, l);
      SameGridCell(width, m, n);
    }
  }

  lemma SameColumn(size: nat, j: nat, k: nat)
    requires j < Count(size) && k < Count(size) && Position(size, j) == Position(size, k)
    ensures j == k
  {
    if j < k {
      PositionsDiffer(size, j, k);
    } else if k < j {
      PositionsDiffer(size, k, j);
    }
  }

  function Least(a: nat, b: nat): nat { if a <= b then a else b }

  /** How many samples there are along an axis, and where the `k`-th lies, written out. */
  lemma AxisMeaning(size: nat, k: nat)
    requires size > 0 && k < Count(size)
    ensures Count(size) == Least(64, if size < 2 then 1 else size / 2)
    ensures Position(size, k) == size / 4 + k * (if size < 2 then 1 else size / 2) / Least(64, if size < 2 then 1 else size / 2)
  {
  }

  // ------------------------------------------------------------------ totals

  datatype Color = Color(blue: Byte, green: Byte, red: Byte, alpha: Byte)

  predicate IsImage(pixels: seq<Byte>, width: nat, height: nat) {
    0 < width <= DIMENSION_LIMIT && 0 < height <= DIMENSION_LIMIT && |pixels| == width * height * 4
  }

  function ColorAt(pixels: seq<Byte>, o: nat): Color
    requires o + 3 < |pixels|
  {
    Color(pixels[o], pixels[o + 1], pixels[o + 2], pixels[o + 3])
  }

  function Sample(pixels: seq<Byte>, width: nat, height: nat, n: nat): Color
    requires IsImage(pixels, width, height) && n < SampleCount(width, height)
  {
    SampleInside(width, height, n);
    ColorAt(pixels, Offset(width, height, n))
  }

  /** The colours sampled, in row order. */
  function Samples(pixels: seq<Byte>, width: nat, height: nat): (samples: seq<Color>)
    requires IsImage(pixels, width, height)
    ensures |samples| == SampleCount(width, height)
    ensures forall n :: 0 <= n < |samples| ==> samples[n] == Sample(pixels, width, height, n)
  {
    seq(SampleCount(width, height), n requires 0 <= n < SampleCount(width, height) => Sample(pixels, width, height, n))
  }

  predicate IsOpaque(c: Color) { c.alpha == 255 }
  predicate IsNearBlack(c: Color) { IsOpaque(c) && c.blue <= 8 && c.green <= 8 && c.red <= 8 }
  function Brightness(c: Color): nat { if IsOpaque(c) then c.blue as int + c.green as int + c.red as int else 0 }

  /** Which samples are opaque, and which of them near black. */
  function Opaque(samples: seq<Color>): set<nat> {
    set k: nat | k < |samples| && IsOpaque(samples[k])
  }

  function NearBlack(samples: seq<Color>): set<nat> {
    set k: nat | k < |samples| && IsNearBlack(samples[k])
  }

  function TotalBrightness(samples: seq<Color>): nat {
    if samples == [] then 0 else TotalBrightness(samples[..|samples| - 1]) + Brightness(samples[|samples| - 1])
  }

  lemma OneMoreOpaque(samples: seq<Color>, n: nat)
    requires n < |samples|
    ensures |Opaque(samples[..n + 1])| == |Opaque(samples[..n])| + (if IsOpaque(samples[n]) then 1 else 0)
  {
    assert Opaque(samples[..n + 1]) == Opaque(samples[..n]) + (if IsOpaque(samples[n]) then {n} else {});
  }

  lemma OneMoreNearBlack(samples: seq<Color>, n: nat)
    requires n < |samples|
    ensures |NearBlack(samples[..n + 1])| == |NearBlack(samples[..n])| + (if IsNearBlack(samples[n]) then 1 else 0)
  {
    assert NearBlack(samples[..n + 1]) == NearBlack(samples[..n]) + (if IsNearBlack(samples[n]) then {n} else {});
  }

  lemma OneMore(samples: seq<Color>, n: nat)
    requires n < |samples|
    ensures |Opaque(samples[..n + 1])| == |Opaque(samples[..n])| + (if IsOpaque(samples[n]) then 1 else 0)
    ensures |NearBlack(samples[..n + 1])| == |NearBlack(samples[..n])| + (if IsNearBlack(samples[n]) then 1 else 0)
    ensures TotalBrightness(samples[..n + 1]) == TotalBrightness(samples[..n]) + Brightness(samples[n])
  {
    OneMoreOpaque(samples, n);
    OneMoreNearBlack(samples, n);
    assert samples[..n + 1][..n] == samples[..n];
  }

  /** Near-black samples are opaque, opaque ones are samples, and no channel exceeds 255. */
  lemma {:induction false} TotalsBounded(samples: seq<Color>)
    ensures NearBlack(samples) <= Opaque(samples)
    ensures |NearBlack(samples)| <= |Opaque(samples)| <= |samples|
    ensures TotalBrightness(samples) <= 765 * |Opaque(samples)|
    decreases |samples|
  {
    if samples != [] {
      var n := |samples| - 1;
      TotalsBounded(samples[..n]);
      OneMore(samples, n);
      assert samples[..n + 1] == samples;
    }
  }

  datatype Sampling = Sampling(isAvailable: bool, sampleCount: nat, opaqueFraction: real,
                               nearBlackFraction: real, meanChannel: real)

  const Unavailable := Sampling(false, 0, 0.0, 0.0, 0.0)

  /** What the samples of an image amount to. */
  predicate IsSummary(r: Sampling, samples: seq<Color>)
    requires |samples| > 0
  {
    var n, solid := |samples|, |Opaque(samples)|;
    && r.sampleCount == n && r.opaqueFraction == solid as real / n as real
    && (r.isAvailable <==> solid == n)
    && (r.isAvailable ==>
          && r.nearBlackFraction == |NearBlack(samples)| as real / n as real
          && r.meanChannel == TotalBrightness(samples) as real / (n * 3) as real)
    && (!r.isAvailable ==> r.nearBlackFraction == 0.0 && r.meanChannel == 0.0)
  }

  /** Reported fractions lie between 0 and 1, and the mean channel between 0 and 255. */
  lemma SummaryBounded(r: Sampling, samples: seq<Color>)
    requires |samples| > 0 && IsSummary(r, samples)
    ensures 0.0 <= r.opaqueFraction <= 1.0 && 0.0 <= r.nearBlackFraction <= 1.0 && 0.0 <= r.meanChannel <= 255.0
    ensures r.isAvailable <==> r.opaqueFraction == 1.0
  {
    TotalsBounded(samples);
    RatioBounded(|Opaque(samples)|, |samples|, 1);
    RatioBounded(|NearBlack(samples)|, |samples|, 1);
    RatioBounded(TotalBrightness(samples), |samples| * 3, 255);
    RatioIsOne(|Opaque(samples)|, |samples|);
  }

  /** The index of the first sample of a row. */
  function RowStart(width: nat, row: nat): nat {
    row * Count(width)
  }

  lemma GridCell(width: nat, height: nat, row: nat, column: nat)
    requires row < Count(height) && column < Count(width)
    ensures RowStart(width, row) + column < SampleCount(width, height)
    ensures var n := RowStart(width, row) + column; Row(width, n) == row && Column(width, n) == column
  {
    ProductMonotone(row + 1, Count(height), Count(width));
    DivisionIsUnique(row, column, Count(width));
  }

  lemma GridRow(width: nat, height: nat, row: nat)
    requires row < Count(height)
    ensures RowStart(width, row) + Count(width) == RowStart(width, row + 1) <= SampleCount(width, height)
  {
    ProductMonotone(row + 1, Count(height), Count(width));
  }

  lemma OffsetInGrid(width: nat, height: nat, row: nat, column: nat)
    requires row < Count(height) && column < Count(width)
    ensures RowStart(width, row) + column < SampleCount(width, height)
    ensures Offset(width, height, RowStart(width, row) + column)
         == ByteOffset(Position(width, column), Position(height, row), width)
  {
    GridCell(width, height, row, column);
  }

  lemma SampleIs(pixels: seq<Byte>, width: nat, height: nat, n: nat)
    requires IsImage(pixels, width, height) && n < SampleCount(width, height)
    ensures Offset(width, height, n) + 3 < |pixels|
    ensures Samples(pixels, width, height)[n] == ColorAt(pixels, Offset(width, height, n))
  {
    SampleInside(width, height, n);
  }

  datatype Totals = Totals(sampleCount: nat, opaqueCount: nat, nearBlackCount: nat, channelSum: nat)

  /** The totals of the first `sampleCount` samples. */
  predicate HasCounted(samples: seq<Color>, t: Totals) {
    && t.sampleCount <= |samples|
    && t.opaqueCount == |Opaque(samples[..t.sampleCount])| && t.nearBlackCount == |NearBlack(samples[..t.sampleCount])|
    && t.channelSum == TotalBrightness(samples[..t.sampleCount])
  }

  function Add(t: Totals, c: Color): Totals {
    Totals(t.sampleCount + 1, t.opaqueCount + (if IsOpaque(c) then 1 else 0),
           t.nearBlackCount + (if IsNearBlack(c) then 1 else 0), t.channelSum + Brightness(c))
  }

  lemma AddCounts(samples: seq<Color>, t: Totals)
    requires HasCounted(samples, t) && t.sampleCount < |samples|
    ensures HasCounted(samples, Add(t, samples[t.sampleCount]))
  {
    OneMore(samples, t.sampleCount);
  }

  /** The pixel in that row and column is the next sample. */
  lemma NextSample(pixels: seq<Byte>, width: nat, height: nat, row: nat, column: nat, t: Totals)
    requires IsImage(pixels, width, height) && row < Count(height) && column < Count(width)
    requires HasCounted(Samples(pixels, width, height), t) && t.sampleCount == RowStart(width, row) + column
    ensures ByteOffset(Position(width, column), Position(height, row), width) + 3 < |pixels|
    ensures HasCounted(Samples(pixels, width, height),
                       Add(t, ColorAt(pixels, ByteOffset(Position(width, column), Position(height, row), width))))
  {
    OffsetInGrid(width, height, row, column);
    SampleIs(pixels, width, height, t.sampleCount);
    AddCounts(Samples(pixels, width, height), t);
  }

  /** What the loops do with one pixel. */
  method CountPixel(pixels: seq<Byte>, offset: nat, t: Totals) returns (u: Totals)
    requires offset + 3 < |pixels|
    ensures u == Add(t, ColorAt(pixels, offset))
  {
    u := t.(sampleCount := t.sampleCount + 1);
    if pixels[offset + 3] != 255 { return; }
    var blue: int, green: int, red: int := pixels[offset], pixels[offset + 1], pixels[offset + 2];
    u := u.(opaqueCount := u.opaqueCount + 1, channelSum := u.channelSum + blue + green + red);
    if Max(Max(blue, green), red) <= 8 {
      u := u.(nearBlackCount := u.nearBlackCount + 1);
    }
  }

  /** The inner loop, over the columns of one row. */
  method SampleRow(pixels: seq<Byte>, width: nat, height: nat, row: nat, t: Totals) returns (u: Totals)
    requires IsImage(pixels, width, height) && row < Count(height) && t.sampleCount == RowStart(width, row)
    requires HasCounted(Samples(pixels, width, height), t)
    ensures HasCounted(Samples(pixels, width, height), u) && u.sampleCount == RowStart(width, row + 1)
  {
    GridRow(width, height, row);
    u := t;
    var y := Position(height, row);
    for column := 0 to Count(width)
      invariant u.sampleCount == RowStart(width, row) + column
      invariant HasCounted(Samples(pixels, width, height), u)
    {
      NextSample(pixels, width, height, row, column, u);
      u := CountPixel(pixels, ByteOffset(Position(width, column), y, width), u);
    }
  }

  /** Whether the arguments describe an image at all, and then what its samples amount to. */
  method SamplePixels(pixels: seq<Byte>, width: int, height: int) returns (r: Sampling)
    ensures width < 1 || height < 1 || width > 2048 || height > 2048 || |pixels| != width * height * 4 ==> r == Unavailable
    ensures 1 <= width <= 2048 && 1 <= height <= 2048 && |pixels| == width * height * 4 ==>
              IsImage(pixels, width, height) &&
              |Samples(pixels, width, height)| > 0 && IsSummary(r, Samples(pixels, width, height))
  {
    if width <= 0 || height <= 0 || width > DIMENSION_LIMIT || height > DIMENSION_LIMIT { return Unavailable; }
    if |pixels| != width * height * 4 { return Unavailable; }
    ghost var samples := Samples(pixels, width, height);
    GridCell(width, height, 0, 0);
    var t := Totals(0, 0, 0, 0);
    for row := 0 to Count(height)
      invariant t.sampleCount == RowStart(width, row)
      invariant HasCounted(samples, t)
    {
      t := SampleRow(pixels, width, height, row, t);
    }
    assert samples[..t.sampleCount] == samples;
    var opaqueFraction := t.opaqueCount as real / t.sampleCount as real;
    if t.opaqueCount != t.sampleCount { return Sampling(false, t.sampleCount, opaqueFraction, 0.0, 0.0); }
    r := Sampling(true, t.sampleCount, opaqueFraction, t.nearBlackCount as real / t.opaqueCount as real,
                  t.channelSum as real / (t.opaqueCount * 3) as real);
  }

  /** Sample `n`, in this row and column of the grid, is the pixel whose bytes start at `o`. */
  lemma SampleMeaning(pixels: seq<Byte>, width: nat, height: nat, row: nat, column: nat, n: nat, o: nat)
    requires IsImage(pixels, width, height) && row < Count(height) && column < Count(width)
    requires n == row * Count(width) + column && o == (Position(height, row) * width + Position(width, column)) * 4
    ensures |Samples(pixels, width, height)| == Count(height) * Count(width)
    ensures n < |Samples(pixels, width, height)| && o + 3 < |pixels|
    ensures var c := Samples(pixels, width, height)[n];
            c.blue == pixels[o] && c.green == pixels[o + 1] && c.red == pixels[o + 2] && c.alpha == pixels[o + 3]
  {
    OffsetInGrid(width, height, row, column);
    SampleIs(pixels, width, height, n);
  }

  /**
   What a summary says: the share of samples with alpha 255; and only if that is all of
   them, the share of those with no channel above 8 and the mean of all channels.
   */
  lemma SummaryMeaning(r: Sampling, samples: seq<Color>)
    requires |samples| > 0 && IsSummary(r, samples)
    ensures r.sampleCount == |samples|
    ensures r.opaqueFraction == |set k: nat | k < |samples| && samples[k].alpha == 255| as real / |samples| as real
    ensures r.isAvailable <==> forall k :: 0 <= k < |samples| ==> samples[k].alpha == 255
    ensures r.isAvailable ==>
              && r.nearBlackFraction
                 == |set k: nat | k < |samples| && samples[k].blue <= 8 && samples[k].green <= 8 && samples[k].red <= 8| as real / |samples| as real
              && r.meanChannel == ChannelSum(samples) as real / (3 * |samples|) as real
    ensures !r.isAvailable ==> r.nearBlackFraction == 0.0 && r.meanChannel == 0.0
  {
    assert Opaque(samples) == set k: nat | k < |samples| && samples[k].alpha == 255;
    AllOpaque(samples);
    if r.isAvailable {
      assert NearBlack(samples) == set k: nat | k < |samples| && samples[k].blue <= 8 && samples[k].green <= 8 && samples[k].red <= 8;
      BrightnessIsSum(samples);
    }
  }

  function ChannelSum(samples: seq<Color>): nat {
    if samples == [] then 0
    else ChannelSum(samples[..|samples| - 1])
         + (var c := samples[|samples| - 1]; c.blue as int + c.green as int + c.red as int)
  }

  lemma {:induction false} BrightnessIsSum(samples: seq<Color>)
    requires forall k :: 0 <= k < |samples| ==> samples[k].alpha == 255
    ensures TotalBrightness(samples) == ChannelSum(samples)
  {
    if samples != [] {
      BrightnessIsSum(samples[..|samples| - 1]);
    }
  }

  function Indices(n: nat): (r: set<nat>)
    ensures forall k: nat :: k in r <==> k < n
    ensures |r| == n
  {
    if n == 0 then {} else Indices(n - 1) + {n - 1}
  }

  lemma AllOpaque(samples: seq<Color>)
    ensures |Opaque(samples)| == |samples| <==> forall k :: 0 <= k < |samples| ==> samples[k].alpha == 255
  {
    if forall k :: 0 <= k < |samples| ==> samples[k].alpha == 255 {
      assert Opaque(samples) == Indices(|samples|);
    } else {
      var k: nat :| k < |samples| && samples[k].alpha != 255;
      FewerOpaque(Opaque(samples), Indices(|samples|), k);
    }
  }

  lemma FewerOpaque(some: set<nat>, all: set<nat>, k: nat)
    requires some <= all && k in all && k !in some
    ensures |some| < |all|
  {
    assert |all| == |some| + |all - some| && k in all - some;
  }
}
