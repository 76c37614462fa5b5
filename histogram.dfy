/** The counting part of the histogram view: four rows of 256 bins (red, green, blue and
    intensity) filled from the packed pixels of an image, the largest bin, and the steps of
    the y-axis tick loop. */
module HistogramView {
  import opened Pixels

  const Rows: int := 4
  const Levels: int := 256

  /** `new Color(rgb)` on a packed pixel of `BufferedImage.getRGB`: red in bits 16-23, green
      in bits 8-15, blue in bits 0-7. Euclidean division by a power of two is the arithmetic
      shift, and the Euclidean remainder by 256 is the mask `& 0xff`, also for negative
      (alpha-carrying) pixels. */
  function Unpack(rgb: int): (p: Rgb)
    ensures InRange(p)
    ensures 0 <= rgb < 0x100_0000 ==> rgb == p.r * 0x1_0000 + p.g * 0x100 + p.b
  {
    Rgb((rgb / 0x1_0000) % 0x100, (rgb / 0x100) % 0x100, rgb % 0x100)
  }

  /** The bin a pixel adds to in row `c`: its red, green or blue channel, or the intensity
      `(red + green + blue) / 3`. */
  function Bin(c: int, rgb: int): (v: int)
    requires 0 <= c < Rows
    ensures 0 <= v < Levels
  {
    var p := Unpack(rgb);
    if c == 0 then p.r else if c == 1 then p.g else if c == 2 then p.b else (p.r + p.g + p.b) / 3
  }

  /** A BufferedImage: every row as wide as row 0; `img[y][x]` is `getRGB(x, y)`. */
  ghost predicate IsImage(img: seq<seq<int>>) {
    forall y :: 0 <= y < |img| ==> |img[y]| == |img[0]|
  }

  function ImageWidth(img: seq<seq<int>>): nat { if |img| == 0 then 0 else |img[0]| }

  /** The pixels in the order the loops visit them: row by row, left to right. */
  function Flat(img: seq<seq<int>>): seq<int> {
    if img == [] then [] else Flat(img[..|img| - 1]) + img[|img| - 1]
  }

  /** How many of the pixels fall into bin v of row c. */
  function Count(ps: seq<int>, c: int, v: int): nat
    requires 0 <= c < Rows
  {
    if ps == [] then 0
    else Count(ps[..|ps| - 1], c, v) + (if Bin(c, ps[|ps| - 1]) == v then 1 else 0)
  }

  /** The bins 0 .. n-1 of row c added up. */
  function BinSum(ps: seq<int>, c: int, n: nat): nat
    requires 0 <= c < Rows
  {
    if n == 0 then 0 else BinSum(ps, c, n - 1) + Count(ps, c, n - 1)
  }

  // ---------------------------------------------------------------------------
  // Facts about the counts

  lemma CountSnoc(ps: seq<int>, p: int, c: int, v: int)
    requires 0 <= c < Rows
    ensures Count(ps + [p], c, v) == Count(ps, c, v) + (if Bin(c, p) == v then 1 else 0)
  {
    assert (ps + [p])[..|ps|] == ps;
  }

  lemma FlatSnoc(img: seq<seq<int>>, y: nat)
    requires y < |img|
    ensures Flat(img[..y + 1]) == Flat(img[..y]) + img[y]
  {
    assert img[..y + 1][..y] == img[..y];
  }

  /** One more pixel adds one to the total of the bins below its own. */
  lemma {:induction false} BinSumSnoc(ps: seq<int>, p: int, c: int, n: nat)
    requires 0 <= c < Rows
    ensures BinSum(ps + [p], c, n) == BinSum(ps, c, n) + (if Bin(c, p) < n then 1 else 0)
  {
    if n > 0 {
      BinSumSnoc(ps, p, c, n - 1);
      CountSnoc(ps, p, c, n - 1);
    }
  }

  /** Every pixel lands in exactly one bin of each row: a row adds up to the pixel count. */
  lemma {:induction false} BinsTotal(ps: seq<int>, c: int)
    requires 0 <= c < Rows
    ensures BinSum(ps, c, Levels as nat) == |ps|
  {
    if ps != [] {
      var init, p := ps[..|ps| - 1], ps[|ps| - 1];
      assert ps == init + [p];
      BinsTotal(init, c);
      BinSumSnoc(init, p, c, Levels as nat);
    } else {
      BinSumEmpty(c, Levels as nat);
    }
  }

  lemma {:induction false} BinSumEmpty(c: int, n: nat)
    requires 0 <= c < Rows
    ensures BinSum([], c, n) == 0
  {
    if n > 0 {
      BinSumEmpty(c, n - 1);
    }
  }

  lemma {:induction false} FlatLength(img: seq<seq<int>>)
    requires IsImage(img)
    ensures |Flat(img)| == |img| * ImageWidth(img)
  {
    if img != [] {
      var init := img[..|img| - 1];
      assert IsImage(init);
      FlatLength(init);
      if |init| == 0 {
        assert init == [];
      } else {
        assert ImageWidth(init) == ImageWidth(img);
      }
      MulSucc(|init|, ImageWidth(img));
    }
  }

  /** Each of the four rows of the histogram of an image adds up to width times height. */
  lemma RowTotals(img: seq<seq<int>>, c: int)
    requires IsImage(img) && 0 <= c < Rows
    ensures BinSum(Flat(img), c, Levels as nat) == |img| * ImageWidth(img)
  {
    BinsTotal(Flat(img), c);
    FlatLength(img);
  }

  /** The bin of a pixel that is present is not empty. */
  lemma {:induction false} CountOfMember(ps: seq<int>, k: nat, c: int)
    requires k < |ps| && 0 <= c < Rows
    ensures Count(ps, c, Bin(c, ps[k])) >= 1
  {
    var init := ps[..|ps| - 1];
    if k < |ps| - 1 {
      assert init[k] == ps[k];
      CountOfMember(init, k, c);
    }
  }

  /** The maximum of the bins: it bounds every bin and is one of them. */
  ghost predicate IsMaxBin(h: array2<int>, m: int)
    reads h
  {
    (forall c, v :: 0 <= c < h.Length0 && 0 <= v < h.Length1 ==> h[c, v] <= m) &&
    exists c, v :: 0 <= c < h.Length0 && 0 <= v < h.Length1 && h[c, v] == m
  }

  // ---------------------------------------------------------------------------
  // The panel's state

  class Histogram {
    var image: seq<seq<int>>
    var histogram: array2<int>

    /** The histogram holds the counts of the image's pixels. */
    ghost predicate Valid()
      reads this, histogram
    {
      IsImage(image) && histogram.Length0 == Rows && histogram.Length1 == Levels &&
      forall c, v :: 0 <= c < Rows && 0 <= v < Levels ==> histogram[c, v] == Count(Flat(image), c, v)
    }

    /** The constructor stores the image and computes its histogram (drawing the chart
        image is not part of this model). */
    constructor(img: seq<seq<int>>)
      requires IsImage(img)
      ensures image == img && Valid() && fresh(histogram)
    {
      image := img;
      histogram := new int[Rows, Levels];
      new;
      ComputeHistogram();
    }

    /** computeHistogram: a fresh `int[4][256]`, then one increment in each row per pixel. */
    method ComputeHistogram()
      requires IsImage(image)
      modifies this
      ensures image == old(image) && fresh(histogram) && Valid()
    {
      var bins := new int[Rows, Levels]((c, v) => 0);
      histogram := bins;
      ghost var seen: seq<int> := [];
      var y := 0;
      while y < |image|
        modifies bins
        invariant 0 <= y <= |image|
        invariant seen == Flat(image[..y])
        invariant forall c, v :: 0 <= c < Rows && 0 <= v < Levels ==> bins[c, v] == Count(seen, c, v)
      {
        CountRow(bins, image[y], seen);
        seen := seen + image[y];
        FlatSnoc(image, y);
        y := y + 1;
      }
      assert image[..y] == image;
    }

    /** getMaxHistogramValue: the largest bin, scanned from 0. */
    method GetMaxHistogramValue() returns (max: int)
      requires Valid()
      ensures IsMaxBin(histogram, max)
      ensures max == 0 <==> |Flat(image)| == 0
    {
      max := 0;
      var i := 0;
      while i < Levels
        invariant 0 <= i <= Levels && max >= 0
        invariant forall c, v :: 0 <= c < Rows && 0 <= v < i ==> histogram[c, v] <= max
        invariant max == 0 || exists c, v :: 0 <= c < Rows && 0 <= v < i && histogram[c, v] == max
      {
        var j := 0;
        while j < Rows
          invariant 0 <= j <= Rows && max >= 0
          invariant forall c, v :: 0 <= c < Rows && 0 <= v < i ==> histogram[c, v] <= max
          invariant forall c :: 0 <= c < j ==> histogram[c, i] <= max
          invariant max == 0 || exists c, v :: 0 <= c < Rows && 0 <= v <= i && histogram[c, v] == max
        {
          if histogram[j, i] > max {
            max := histogram[j, i];
          }
          j := j + 1;
        }
        i := i + 1;
      }
      if max == 0 {
        assert histogram[0, 0] == max;
      }
      if |Flat(image)| > 0 {
        var v := Bin(0, Flat(image)[0]);
        CountOfMember(Flat(image), 0, 0);
        assert histogram[0, v] >= 1;
      } else {
        forall c, v | 0 <= c < Rows && 0 <= v < Levels ensures histogram[c, v] == 0 {
          assert Flat(image) == [];
        }
      }
    }
  }

  /** The inner loop of computeHistogram: one increment in each row of bins per pixel of
      `row`, left to right. */
  method CountRow(bins: array2<int>, row: seq<int>, ghost seen: seq<int>)
    requires bins.Length0 == Rows && bins.Length1 == Levels
    requires forall c, v :: 0 <= c < Rows && 0 <= v < Levels ==> bins[c, v] == Count(seen, c, v)
    modifies bins
    ensures forall c, v :: 0 <= c < Rows && 0 <= v < Levels ==> bins[c, v] == Count(seen + row, c, v)
  {
    var x := 0;
    ghost var counted := seen;
    while x < |row|
      invariant 0 <= x <= |row|
      invariant counted == seen + row[..x]
      invariant forall c, v :: 0 <= c < Rows && 0 <= v < Levels ==> bins[c, v] == Count(counted, c, v)
    {
      var rgb := row[x];
      var color := Unpack(rgb);
      var red, green, blue := color.r, color.g, color.b;
      var intensity := (red + green + blue) / 3;
      bins[0, red] := bins[0, red] + 1;
      bins[1, green] := bins[1, green] + 1;
      bins[2, blue] := bins[2, blue] + 1;
      bins[3, intensity] := bins[3, intensity] + 1;
      PixelCounted(counted, rgb);
      assert row[..x + 1] == row[..x] + [rgb];
      counted := counted + [rgb];
      x := x + 1;
    }
    assert row[..x] == row;
  }

  /** The four increments of one pixel are the counts with that pixel added. */
  lemma PixelCounted(seen: seq<int>, rgb: int)
    ensures forall c, v :: 0 <= c < Rows && 0 <= v < Levels ==>
      Count(seen + [rgb], c, v) == Count(seen, c, v) + (if Bin(c, rgb) == v then 1 else 0)
  {
    forall c, v | 0 <= c < Rows && 0 <= v < Levels
      ensures Count(seen + [rgb], c, v) == Count(seen, c, v) + (if Bin(c, rgb) == v then 1 else 0)
    {
      CountSnoc(seen, rgb, c, v);
    }
  }

  // ---------------------------------------------------------------------------
  // The y-axis ticks

  /** The labels of the y-axis loop `for (i = 0; i <= max; i += max / 10)`. The step is
      `max / 10`, so the loop only ends when max is at least 10; i stays a 32-bit int when
      `max + max / 10` does. */
  method YAxisTicks(max: int) returns (ticks: seq<int>)
    requires 10 <= max && max + max / 10 <= IntMax
    ensures forall k :: 0 <= k < |ticks| ==> ticks[k] == k * (max / 10) && 0 <= ticks[k] <= max
    ensures |ticks| > 0 && (|ticks| - 1) * (max / 10) <= max < |ticks| * (max / 10)
    ensures 11 <= |ticks| <= 20
  {
    var step := max / 10;
    ticks := [];
    var i := 0;
    while i <= max
      invariant i == |ticks| * step && (|ticks| > 0 ==> (|ticks| - 1) * step <= max)
      invariant i == |ticks| * step && IsInt32(i) && i <= max + step
      invariant forall k :: 0 <= k < |ticks| ==> ticks[k] == k * step && 0 <= ticks[k] <= max
      decreases max - i
    {
      ticks := ticks + [i];
      MulSucc(|ticks| - 1, step);
      i := i + step;
    }
    TickCount(max, step, |ticks|);
  }

  /** The value of `i` in the y-axis loop after n passes: n steps of `max / 10`. */
  function TickAfter(max: int, n: nat): int {
    n * (max / 10)
  }

  /** As written, for max of 1 to 9 the step `max / 10` is 0: `i` is 0 after every pass, so the
      test `i <= max` never fails and the loop never ends. (For max 0 the body's `i * ... / max`
      divides by zero on the first pass.) */
  lemma TickStepStalls(max: int)
    requires 0 <= max <= 9
    ensures max / 10 == 0
    ensures forall n: nat :: TickAfter(max, n) == 0 <= max
  {
  }

  /** A bin never holds more than the image has pixels ... */
  lemma {:induction false} CountAtMost(ps: seq<int>, c: int, v: int)
    requires 0 <= c < Rows
    ensures Count(ps, c, v) <= |ps|
  {
    if ps != [] {
      CountAtMost(ps[..|ps| - 1], c, v);
    }
  }

  /** ... so for an image of fewer than 10 pixels every bin, and with it the maximum the
      constructor passes to the tick loop, is below 10, and the loop's step is 0. */
  lemma SmallImageStalls(img: seq<seq<int>>)
    requires IsImage(img) && |img| * ImageWidth(img) < 10
    ensures forall c, v :: 0 <= c < Rows && 0 <= v < Levels ==>
      Count(Flat(img), c, v) < 10 && Count(Flat(img), c, v) / 10 == 0
  {
    FlatLength(img);
    forall c, v | 0 <= c < Rows && 0 <= v < Levels
      ensures Count(Flat(img), c, v) < 10
    {
      CountAtMost(Flat(img), c, v);
    }
  }

  /** The step the tick loop evidently intends: a tenth of max, but at least 1. */
  function TickStep(max: int): (step: int)
    requires 0 <= max
    ensures 1 <= step && step <= max + 1
    ensures 10 <= max ==> step == max / 10
  {
    if max / 10 == 0 then 1 else max / 10
  }

  /** The tick loop with the corrected step: it ends for every max >= 0, labels every multiple
      of the step up to max, and gives the labels the source gives whenever max >= 10. */
  method CorrectedYAxisTicks(max: int) returns (ticks: seq<int>)
    requires 0 <= max && max + TickStep(max) <= IntMax
    ensures forall k :: 0 <= k < |ticks| ==> ticks[k] == k * TickStep(max) && 0 <= ticks[k] <= max
    ensures |ticks| > 0 && (|ticks| - 1) * TickStep(max) <= max < |ticks| * TickStep(max)
    ensures 10 <= max ==> 11 <= |ticks| <= 20
    ensures max < 10 ==> |ticks| == max + 1
  {
    var step := TickStep(max);
    ticks := [];
    var i := 0;
    while i <= max
      invariant i == |ticks| * step && (|ticks| > 0 ==> (|ticks| - 1) * step <= max)
      invariant i == |ticks| * step && IsInt32(i) && i <= max + step
      invariant forall k :: 0 <= k < |ticks| ==> ticks[k] == k * step && 0 <= ticks[k] <= max
      decreases max - i
    {
      ticks := ticks + [i];
      MulSucc(|ticks| - 1, step);
      i := i + step;
    }
    if 10 <= max {
      TickCount(max, step, |ticks|);
    }
  }

  /** Stopping at the first multiple of `max / 10` above max takes 11 to 20 labels. */
  lemma TickCount(max: int, step: int, n: nat)
    requires 10 <= max && step == max / 10
    requires n > 0 && (n - 1) * step <= max < n * step
    ensures 11 <= n <= 20
  {
    assert 10 * step <= max < 10 * step + 10;
    if n <= 10 {
      MulLe(n, 10, step);
    }
    if n > 20 {
      MulLe(20, n - 1, step);
    }
  }
}
