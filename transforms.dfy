/** What each whole-image transform of the engine computes, as functions of the source grid:
    the per-pixel formulas, the flips as index maps, the convolution with its border policy,
    and the row-major cut-off at the first cell whose computation dereferences a null cell.
    The store's methods (module ImageStore) are proved to compute exactly these grids. */
module Transforms {
  import opened Pixels

  // ---------------------------------------------------------------------------
  // Per-pixel operations

  /** The channel chosen by the `rgb` operation's string switch. */
  datatype Channel = Red | Green | Blue

  /** The switch of `rgb`: "red", "green" or "blue", anything else is an IllegalArgumentException. */
  function ParseChannel(s: string): (c: Result<Channel>)
    ensures c.Ok? <==> s in {"red", "green", "blue"}
    ensures c.Err? ==> c.error == IllegalArgument
    ensures c == Ok(Red) <==> s == "red"
    ensures c == Ok(Green) <==> s == "green"
    ensures c == Ok(Blue) <==> s == "blue"
  {
    if s == "red" then Ok(Red)
    else if s == "green" then Ok(Green)
    else if s == "blue" then Ok(Blue)
    else Err(IllegalArgument)
  }

  function ChannelValue(c: Channel, p: Rgb): (v: int)
    ensures InRange(p) ==> ChannelInRange(v)
  {
    match c
    case Red => p.r
    case Green => p.g
    case Blue => p.b
  }

  function Gray(v: int): Rgb { Rgb(v, v, v) }

  predicate IsGray(q: Rgb) { q.r == q.g == q.b }

  /** `Math.max(red, Math.max(green, blue))`, replicated to the three channels. */
  function ValuePixel(p: Rgb): (q: Rgb)
    ensures IsGray(q)
    ensures q.r >= p.r && q.r >= p.g && q.r >= p.b
    ensures q.r == p.r || q.r == p.g || q.r == p.b
  {
    var m := if p.g >= p.b then p.g else p.b;
    Gray(if p.r >= m then p.r else m)
  }

  /** `(red + green + blue) / 3`, replicated. The channels of every colour are in 0..255, so
      the sum is never negative and Java's truncating division agrees with Dafny's. */
  function IntensityPixel(p: Rgb): (q: Rgb)
    requires InRange(p)
    ensures IsGray(q) && InRange(q)
    ensures 3 * q.r <= p.r + p.g + p.b < 3 * q.r + 3
  {
    Gray((p.r + p.g + p.b) / 3)
  }

  /** A `double[3][3]` colour matrix: the source reads `matrix[c][k]` for c, k < 3. */
  predicate IsColorMatrix(m: seq<seq<real>>) {
    |m| >= 3 && forall c :: 0 <= c < 3 ==> |m[c]| >= 3
  }

  /** One output channel before the cast: `r * row[0] + g * row[1] + b * row[2]`. */
  function WeightedSum(row: seq<real>, p: Rgb): real
    requires |row| >= 3
  {
    p.r as real * row[0] + p.g as real * row[1] + p.b as real * row[2]
  }

  /** colorTransform for one pixel: each channel is the truncated whole sum, clamped. */
  function TransformPixel(m: seq<seq<real>>, p: Rgb): (q: Rgb)
    requires IsColorMatrix(m)
    ensures InRange(q)
    ensures forall c :: 0 <= c < 3 && WeightedSum(m[c], p) >= MaxChannel as real ==>
              [q.r, q.g, q.b][c] == MaxChannel
    ensures forall c :: 0 <= c < 3 && WeightedSum(m[c], p) < 1.0 ==> [q.r, q.g, q.b][c] == 0
    ensures forall c :: 0 <= c < 3 && 0.0 <= WeightedSum(m[c], p) < MaxChannel as real ==>
              [q.r, q.g, q.b][c] == WeightedSum(m[c], p).Floor
  {
    Rgb(ChannelOfReal(WeightedSum(m[0], p)),
        ChannelOfReal(WeightedSum(m[1], p)),
        ChannelOfReal(WeightedSum(m[2], p)))
  }

  const Identity3: seq<seq<real>> := [[1.0, 0.0, 0.0], [0.0, 1.0, 0.0], [0.0, 0.0, 1.0]]

  /** The identity matrix maps every colour to itself. */
  lemma TransformIdentity(p: Rgb)
    requires InRange(p)
    ensures TransformPixel(Identity3, p) == p
  {
    TruncOfInt(p.r);
    TruncOfInt(p.g);
    TruncOfInt(p.b);
    assert WeightedSum(Identity3[0], p) == p.r as real;
    assert WeightedSum(Identity3[1], p) == p.g as real;
    assert WeightedSum(Identity3[2], p) == p.b as real;
  }

  /** brighten for one channel: `max(c + inc, 0)` for a negative increment and
      `min(c + inc, 255)` otherwise, in unbounded integers. For a colour channel this is the
      sum clamped to 0..255 whatever the sign of the increment. */
  function BrightenChannel(inc: int, c: int): (r: int)
    ensures ChannelInRange(c) ==> r == Clamp(c + inc, 0, MaxChannel)
    ensures inc >= 0 ==> r <= MaxChannel
    ensures inc < 0 ==> r >= 0
  {
    if inc < 0 then (if c + inc > 0 then c + inc else 0)
    else (if c + inc < MaxChannel then c + inc else MaxChannel)
  }

  /** The same formula with Java's 32-bit `c + increment`, as the source writes it. The sign
      of the increment still picks the bound that holds, but only that one: a wrapped sum can
      fall below 0 when inc >= 0, or rise above 255 when inc < 0. */
  function BrightenChannelInt32(inc: int, c: int): (r: int)
    ensures IsInt32(r)
    ensures inc >= 0 ==> r <= MaxChannel
    ensures inc < 0 ==> r >= 0
  {
    var s := Wrap32(c + inc);
    if inc < 0 then (if s > 0 then s else 0)
    else (if s < MaxChannel then s else MaxChannel)
  }

  /** Without overflow the two agree ... */
  lemma BrightenInt32Agrees(inc: int, c: int)
    requires IsInt32(inc) && ChannelInRange(c) && c + inc <= IntMax
    ensures BrightenChannelInt32(inc, c) == BrightenChannel(inc, c)
  {
    assert IsInt32(c + inc);
  }

  /** ... but an increment near Integer.MAX_VALUE wraps `c + increment` negative, so
      `Math.min(c + increment, 255)` is negative and `new Color` throws. */
  lemma BrightenInt32Overflows()
    ensures BrightenChannelInt32(IntMax, 1) == IntMin
    ensures NewColor(BrightenChannelInt32(IntMax, 1), 0, 0).Err?
    ensures BrightenChannel(IntMax, 1) == MaxChannel
  {
    assert Wrap32(1 + IntMax) == IntMin;
  }

  function BrightenPixel(inc: int, p: Rgb): (q: Rgb)
    ensures InRange(p) ==> InRange(q)
    ensures InRange(p) ==>
      q == Rgb(Clamp(p.r + inc, 0, MaxChannel), Clamp(p.g + inc, 0, MaxChannel), Clamp(p.b + inc, 0, MaxChannel))
  {
    Rgb(BrightenChannel(inc, p.r), BrightenChannel(inc, p.g), BrightenChannel(inc, p.b))
  }

  /** Darkening by i (brightening by -i) and then brightening by i clamps twice, channel by
      channel: it restores a channel of at least i, and turns a smaller one into i. */
  lemma DarkenThenBrighten(i: int, p: Rgb)
    requires InRange(p)
    ensures var q := BrightenPixel(i, BrightenPixel(-i, p));
      q == Rgb(Clamp(Clamp(p.r - i, 0, MaxChannel) + i, 0, MaxChannel),
               Clamp(Clamp(p.g - i, 0, MaxChannel) + i, 0, MaxChannel),
               Clamp(Clamp(p.b - i, 0, MaxChannel) + i, 0, MaxChannel))
    ensures var q := BrightenPixel(i, BrightenPixel(-i, p));
      forall ch :: ChannelValue(ch, p) >= i >= 0 ==> ChannelValue(ch, q) == ChannelValue(ch, p)
    ensures var q := BrightenPixel(i, BrightenPixel(-i, p));
      forall ch :: ChannelValue(ch, p) < i <= MaxChannel ==> ChannelValue(ch, q) == i
  {
  }

  /** The per-pixel transforms of the engine, one per public operation. */
  datatype PixelOp =
    | ComponentOp(ch: Channel)
    | ValueOp
    | IntensityOp
    | TransformOp(m: seq<seq<real>>)
    | BrightenOp(inc: int)

  predicate ValidOp(op: PixelOp) { op.TransformOp? ==> IsColorMatrix(op.m) }

  function ApplyOp(op: PixelOp, p: Rgb): (q: Rgb)
    requires ValidOp(op) && InRange(p)
    ensures InRange(q)
  {
    match op
    case ComponentOp(ch) => Gray(ChannelValue(ch, p))
    case ValueOp => ValuePixel(p)
    case IntensityOp => IntensityPixel(p)
    case TransformOp(m) => TransformPixel(m, p)
    case BrightenOp(inc) => BrightenPixel(inc, p)
  }

  // ---------------------------------------------------------------------------
  // Per-pixel transforms on a whole grid

  /** Every cell up to and including (i, j) in row-major order is non-null: the loop that
      dereferences each source cell in turn gets past cell (i, j). */
  ghost predicate FilledThrough(g: Grid, i: int, j: int) {
    forall a, b :: InGrid(g, a, b) && (Before(a, b, i, j) || (a == i && b == j)) ==> g[a][b].Some?
  }

  /** The destination grid of a per-pixel transform: cell (i, j) is the transformed source
      colour when the loop reached it, and null when a null source cell stopped the loop
      at or before it. */
  ghost function MapGrid(op: PixelOp, g: Grid): (d: Grid)
    requires ValidOp(op) && WellFormed(g)
    ensures |d| == |g| && forall i :: 0 <= i < |g| ==> |d[i]| == |g[i]|
  {
    seq(|g|, i requires 0 <= i < |g| =>
      seq(|g[i]|, j requires 0 <= j < |g[i]| =>
        if FilledThrough(g, i, j) then Some(ApplyOp(op, g[i][j].value)) else None))
  }

  lemma MapGridWellFormed(op: PixelOp, g: Grid)
    requires ValidOp(op) && WellFormed(g)
    ensures WellFormed(MapGrid(op, g))
  {
  }

  /** On a grid without null cells the transform is applied to every pixel. */
  lemma MapGridFilled(op: PixelOp, g: Grid)
    requires ValidOp(op) && WellFormed(g) && AllFilled(g)
    ensures AllFilled(MapGrid(op, g))
    ensures forall i, j :: InGrid(g, i, j) ==> MapGrid(op, g)[i][j] == Some(ApplyOp(op, g[i][j].value))
  {
  }

  /** A null cell at (i, j) nulls every later cell of the destination; when it is the first
      null cell, every earlier one is computed. */
  lemma MapGridStopsAtNull(op: PixelOp, g: Grid, i: int, j: int)
    requires ValidOp(op) && WellFormed(g) && InGrid(g, i, j) && g[i][j].None?
    ensures forall a, b :: InGrid(g, a, b) && !Before(a, b, i, j) ==> MapGrid(op, g)[a][b].None?
    ensures (forall a, b :: InGrid(g, a, b) && Before(a, b, i, j) ==> g[a][b].Some?) ==>
      forall a, b :: InGrid(g, a, b) && Before(a, b, i, j) ==> MapGrid(op, g)[a][b] == Some(ApplyOp(op, g[a][b].value))
  {
    if forall a, b :: InGrid(g, a, b) && Before(a, b, i, j) ==> g[a][b].Some? {
      forall a, b | InGrid(g, a, b) && Before(a, b, i, j)
        ensures MapGrid(op, g)[a][b] == Some(ApplyOp(op, g[a][b].value))
      {
        assert FilledThrough(g, a, b);
      }
    }
  }

  /** Colour transform by the identity matrix leaves a complete grid unchanged. */
  lemma MapGridIdentity(g: Grid)
    requires WellFormed(g) && AllFilled(g)
    ensures MapGrid(TransformOp(Identity3), g) == g
  {
    var d := MapGrid(TransformOp(Identity3), g);
    forall i | 0 <= i < |g| ensures d[i] == g[i] {
      forall j | 0 <= j < |g[i]| ensures d[i][j] == g[i][j] {
        TransformIdentity(g[i][j].value);
      }
    }
  }

  /** A channel extraction of a complete grid is grey everywhere, with the chosen channel. */
  lemma ComponentGrid(ch: Channel, g: Grid)
    requires WellFormed(g) && AllFilled(g)
    ensures forall i, j :: InGrid(g, i, j) ==>
      MapGrid(ComponentOp(ch), g)[i][j] == Some(Gray(ChannelValue(ch, g[i][j].value)))
  {
  }

  // ---------------------------------------------------------------------------
  // Flips

  /** Horizontal flip: column w of each row comes from column W-1-w. */
  function FlipH(g: Grid): (d: Grid)
    requires IsRect(g)
    ensures |d| == |g| && IsRect(d) && Width(d) == Width(g)
    ensures forall i, j :: 0 <= i < |g| && 0 <= j < Width(g) ==> d[i][j] == g[i][Width(g) - 1 - j]
  {
    seq(|g|, i requires 0 <= i < |g| => seq(Width(g), j requires 0 <= j < Width(g) => g[i][Width(g) - 1 - j]))
  }

  /** Vertical flip: row h comes from row H-1-h. */
  function FlipV(g: Grid): (d: Grid)
    requires IsRect(g)
    ensures |d| == |g| && IsRect(d) && Width(d) == Width(g)
    ensures forall i, j :: 0 <= i < |g| && 0 <= j < Width(g) ==> d[i][j] == g[|g| - 1 - i][j]
  {
    var d := seq(|g|, i requires 0 <= i < |g| => seq(Width(g), j requires 0 <= j < Width(g) => g[|g| - 1 - i][j]));
    assert forall i :: 0 <= i < |d| ==> |d[i]| == Width(g);
    d
  }

  lemma FlipHInvolution(g: Grid)
    requires IsRect(g)
    ensures FlipH(FlipH(g)) == g
  {
    var d := FlipH(FlipH(g));
    forall i | 0 <= i < |g| ensures d[i] == g[i] {
      assert |d[i]| == |g[i]|;
      forall j | 0 <= j < |g[i]| ensures d[i][j] == g[i][j] {
        assert d[i][j] == FlipH(g)[i][Width(g) - 1 - j];
      }
    }
  }

  lemma FlipVInvolution(g: Grid)
    requires IsRect(g)
    ensures FlipV(FlipV(g)) == g
  {
    var d := FlipV(FlipV(g));
    forall i | 0 <= i < |g| ensures d[i] == g[i] {
      assert |d[i]| == |g[i]|;
      forall j | 0 <= j < |g[i]| ensures d[i][j] == g[i][j] {
        assert d[i][j] == FlipV(g)[|g| - 1 - i][j];
      }
    }
  }

  lemma FlipWellFormed(g: Grid)
    requires WellFormed(g)
    ensures WellFormed(FlipH(g)) && WellFormed(FlipV(g))
  {
    var dh, dv := FlipH(g), FlipV(g);
    forall i, j | InGrid(dh, i, j) && dh[i][j].Some? ensures InRange(dh[i][j].value) {
      assert InGrid(g, i, Width(g) - 1 - j);
    }
    forall i, j | InGrid(dv, i, j) && dv[i][j].Some? ensures InRange(dv[i][j].value) {
      assert InGrid(g, |g| - 1 - i, j);
    }
  }

  // ---------------------------------------------------------------------------
  // Convolution

  /** A kernel with `matrix.length` rows, each at least that long (the source indexes
      `matrix[row][col]` for row, col < matrix.length). */
  predicate IsKernel(k: seq<seq<real>>) {
    forall i :: 0 <= i < |k| ==> |k[i]| >= |k|
  }

  /** The source coordinate the kernel cell (row, col) reads for output pixel (h, w), with
      `mid = matrix.length / 2`. */
  function SrcRow(k: seq<seq<real>>, h: int, row: int): int { h - |k| / 2 + row }

  ghost predicate InImage(g: Grid, r: int, c: int) { 0 <= r < |g| && 0 <= c < Width(g) }

  /** Every in-bounds cell the window of (h, w) reads is non-null. */
  ghost predicate WindowFilled(k: seq<seq<real>>, g: Grid, h: int, w: int)
    requires IsRect(g)
  {
    forall row, col :: 0 <= row < |k| && 0 <= col < |k| && InImage(g, SrcRow(k, h, row), SrcRow(k, w, col)) ==>
      g[SrcRow(k, h, row)][SrcRow(k, w, col)].Some?
  }

  /** No negative weight among the cells the source reads (blur, but not sharpen). */
  predicate NonNegativeKernel(k: seq<seq<real>>)
    requires IsKernel(k)
  {
    forall i, j :: 0 <= i < |k| && 0 <= j < |k| ==> 0.0 <= k[i][j]
  }

  /** One term of the sum: the weighted channel of an in-bounds cell; a cell outside the
      image contributes nothing (no padding, no renormalisation). */
  function Term(k: seq<seq<real>>, g: Grid, h: int, w: int, row: nat, col: nat, ch: Channel): (t: real)
    requires IsKernel(k) && IsRect(g) && row < |k| && col < |k|
    ensures !InImage(g, SrcRow(k, h, row), SrcRow(k, w, col)) ==> t == 0.0
    ensures CellsInRange(g) && 0.0 <= k[row][col] ==> 0.0 <= t
  {
    var r, c := SrcRow(k, h, row), SrcRow(k, w, col);
    if 0 <= r < |g| && 0 <= c < Width(g) then
      match g[r][c]
      case Some(p) =>
        assert InGrid(g, r, c);
        k[row][col] * ChannelValue(ch, p) as real
      case None => 0.0
    else 0.0
  }


  /** The terms of kernel row `row`, columns 0 .. n-1. */
  function RowSum(k: seq<seq<real>>, g: Grid, h: int, w: int, row: nat, n: nat, ch: Channel): (s: real)
    requires IsKernel(k) && IsRect(g) && row < |k| && n <= |k|
    ensures CellsInRange(g) && NonNegativeKernel(k) ==> 0.0 <= s
  {
    if n == 0 then 0.0 else RowSum(k, g, h, w, row, n - 1, ch) + Term(k, g, h, w, row, n - 1, ch)
  }

  /** The terms of kernel rows 0 .. n-1. */
  function WindowSum(k: seq<seq<real>>, g: Grid, h: int, w: int, n: nat, ch: Channel): (s: real)
    requires IsKernel(k) && IsRect(g) && n <= |k|
    ensures CellsInRange(g) && NonNegativeKernel(k) ==> 0.0 <= s
  {
    if n == 0 then 0.0 else WindowSum(k, g, h, w, n - 1, ch) + RowSum(k, g, h, w, n - 1, |k|, ch)
  }

  /** kernelComp: each channel's whole sum is truncated, then clamped. */
  function ConvPixel(k: seq<seq<real>>, g: Grid, h: int, w: int): (q: Rgb)
    requires IsKernel(k) && IsRect(g)
    ensures InRange(q)
    ensures forall ch :: ChannelValue(ch, q) == ChannelOfReal(WindowSum(k, g, h, w, |k|, ch))
    ensures forall ch :: 0.0 <= WindowSum(k, g, h, w, |k|, ch) < MaxChannel as real ==>
              ChannelValue(ch, q) == WindowSum(k, g, h, w, |k|, ch).Floor
  {
    Rgb(ChannelOfReal(WindowSum(k, g, h, w, |k|, Red)),
        ChannelOfReal(WindowSum(k, g, h, w, |k|, Green)),
        ChannelOfReal(WindowSum(k, g, h, w, |k|, Blue)))
  }

  ghost predicate WindowsFilledThrough(k: seq<seq<real>>, g: Grid, i: int, j: int)
    requires IsRect(g)
  {
    forall a, b :: InImage(g, a, b) && (Before(a, b, i, j) || (a == i && b == j)) ==> WindowFilled(k, g, a, b)
  }

  /** The destination grid of `filter`: convolved pixels up to the first window that reads
      a null cell, null from there on. */
  ghost function Convolve(k: seq<seq<real>>, g: Grid): (d: Grid)
    requires IsKernel(k) && IsRect(g)
    ensures |d| == |g| && IsRect(d) && Width(d) == Width(g)
  {
    seq(|g|, i requires 0 <= i < |g| =>
      seq(Width(g), j requires 0 <= j < Width(g) =>
        if WindowsFilledThrough(k, g, i, j) then Some(ConvPixel(k, g, i, j)) else None))
  }

  lemma ConvolveWellFormed(k: seq<seq<real>>, g: Grid)
    requires IsKernel(k) && IsRect(g)
    ensures WellFormed(Convolve(k, g))
  {
  }

  /** In a complete grid every window is filled. */
  lemma FilledWindows(k: seq<seq<real>>, g: Grid, h: int, w: int)
    requires IsRect(g) && AllFilled(g)
    ensures WindowFilled(k, g, h, w)
  {
    forall row, col | 0 <= row < |k| && 0 <= col < |k| && InImage(g, SrcRow(k, h, row), SrcRow(k, w, col))
      ensures g[SrcRow(k, h, row)][SrcRow(k, w, col)].Some?
    {
      assert InGrid(g, SrcRow(k, h, row), SrcRow(k, w, col));
    }
  }

  const Unit: seq<seq<real>> := [[1.0]]

  /** The 1x1 kernel [[1]] reads only the pixel itself. */
  lemma UnitKernelPixel(g: Grid, h: int, w: int)
    requires IsRect(g) && CellsInRange(g) && InGrid(g, h, w) && g[h][w].Some?
    ensures ConvPixel(Unit, g, h, w) == g[h][w].value
  {
    var p := g[h][w].value;
    assert InRange(p);
    TruncOfInt(p.r);
    TruncOfInt(p.g);
    TruncOfInt(p.b);
    assert Width(g) == |g[h]|;
    forall ch ensures WindowSum(Unit, g, h, w, 1, ch) == ChannelValue(ch, p) as real {
      assert Term(Unit, g, h, w, 0, 0, ch) == 1.0 * ChannelValue(ch, p) as real;
      assert RowSum(Unit, g, h, w, 0, 1, ch) == Term(Unit, g, h, w, 0, 0, ch);
    }
  }

  /** Convolution with [[1]] is the identity on a complete grid. */
  lemma ConvolveUnit(g: Grid)
    requires WellFormed(g) && AllFilled(g)
    ensures Convolve(Unit, g) == g
  {
    var d := Convolve(Unit, g);
    forall i | 0 <= i < |g| ensures d[i] == g[i] {
      forall j | 0 <= j < |g[i]| ensures d[i][j] == g[i][j] {
        forall a, b | InImage(g, a, b) && (Before(a, b, i, j) || (a == i && b == j))
          ensures WindowFilled(Unit, g, a, b)
        {
          FilledWindows(Unit, g, a, b);
        }
        UnitKernelPixel(g, i, j);
      }
    }
  }

  /** The 3x3 blur kernel of the front ends. */
  const Blur: seq<seq<real>> := [[0.0625, 0.125, 0.0625], [0.125, 0.25, 0.125], [0.0625, 0.125, 0.0625]]

  /** The border policy: at a corner only four of the nine blur cells are inside the image and
      their weights (9/16) are not renormalised, so a uniform image darkens there. */
  lemma BlurCornerOfUniform(v: int)
    requires ChannelInRange(v)
    ensures var c := Some(Rgb(v, v, v));
      WindowSum(Blur, [[c, c], [c, c]], 0, 0, 3, Red) == 9.0 * v as real / 16.0
  {
    var c := Some(Rgb(v, v, v));
    var g: Grid := [[c, c], [c, c]];
    var x := v as real;
    assert RowSum(Blur, g, 0, 0, 0, 3, Red) == 0.0 by {
      assert RowSum(Blur, g, 0, 0, 0, 1, Red) == 0.0;
      assert RowSum(Blur, g, 0, 0, 0, 2, Red) == 0.0;
    }
    assert RowSum(Blur, g, 0, 0, 1, 3, Red) == 0.25 * x + 0.125 * x by {
      assert RowSum(Blur, g, 0, 0, 1, 1, Red) == 0.0;
      assert RowSum(Blur, g, 0, 0, 1, 2, Red) == 0.25 * x;
    }
    assert RowSum(Blur, g, 0, 0, 2, 3, Red) == 0.125 * x + 0.0625 * x by {
      assert RowSum(Blur, g, 0, 0, 2, 1, Red) == 0.0;
      assert RowSum(Blur, g, 0, 0, 2, 2, Red) == 0.125 * x;
    }
    assert WindowSum(Blur, g, 0, 0, 1, Red) == 0.0;
    assert WindowSum(Blur, g, 0, 0, 2, Red) == 0.25 * x + 0.125 * x;
  }
}
