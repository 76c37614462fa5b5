/** The engine's registry of named images and the operations on it. Each transform evaluates
    the source's height and width, puts a fresh all-null `Color[height][width]` under the
    destination name, reads the source by name (which is that fresh grid when the two names
    are equal), and fills the destination cell by cell in nested loops; a null cell stops the
    loop with a NullPointerException and leaves the destination partly filled. */
module ImageStore {
  import opened Pixels
  import opened Transforms
  import opened PlainPpm

  /** Every stored grid is rectangular and holds only colours in 0..255 (or nulls). */
  ghost predicate StoreValid(imgs: map<string, Grid>) {
    forall n :: n in imgs ==> WellFormed(imgs[n])
  }

  /** The store after an operation, and the exception the operation ended with. */
  datatype Outcome = Outcome(images: map<string, Grid>, error: Option<Error>)

  /** `getHeight(name)` then `getWidth(name)`: a missing name is a NullPointerException, a grid
      without rows an ArrayIndexOutOfBoundsException (`image[0]`). */
  function DimsError(imgs: map<string, Grid>, name: string): (e: Option<Error>)
    ensures e.None? <==> name in imgs && |imgs[name]| > 0
    ensures e.Some? ==> (e.value == NullPointer <==> name !in imgs)
    ensures e.Some? ==> e.value in {NullPointer, IndexOutOfBounds}
  {
    if name !in imgs then Some(NullPointer)
    else if |imgs[name]| == 0 then Some(IndexOutOfBounds)
    else None
  }

  /** The grid a transform reads after its `put`: the source itself, or the fresh all-null grid
      when the destination name is the source name. */
  ghost function ReadBack(imgs: map<string, Grid>, name: string, dest: string): (g: Grid)
    requires StoreValid(imgs) && name in imgs && |imgs[name]| > 0
    ensures WellFormed(g) && |g| == |imgs[name]| && Width(g) == Width(imgs[name])
  {
    if dest == name then NullGrid(|imgs[name]|, Width(imgs[name])) else imgs[name]
  }

  /** rgb, value, intensity, colorTransform and brighten. */
  ghost function Pixelwise(op: PixelOp, imgs: map<string, Grid>, name: string, dest: string): (o: Outcome)
    requires ValidOp(op) && StoreValid(imgs)
    ensures StoreValid(o.images)
  {
    if DimsError(imgs, name).Some? then Outcome(imgs, DimsError(imgs, name))
    else
      var src := ReadBack(imgs, name, dest);
      MapGridWellFormed(op, src);
      Outcome(imgs[dest := MapGrid(op, src)], if AllFilled(src) then None else Some(NullPointer))
  }

  /** flip: no cell is dereferenced, so a null cell is copied like any other. */
  ghost function Flipped(horizontal: bool, imgs: map<string, Grid>, name: string, dest: string): (o: Outcome)
    requires StoreValid(imgs)
    ensures StoreValid(o.images)
  {
    if DimsError(imgs, name).Some? then Outcome(imgs, DimsError(imgs, name))
    else
      var src := ReadBack(imgs, name, dest);
      FlipWellFormed(src);
      Outcome(imgs[dest := if horizontal then FlipH(src) else FlipV(src)], None)
  }

  /** Every window of the image reads only non-null cells. */
  ghost predicate AllWindowsFilled(k: seq<seq<real>>, g: Grid)
    requires IsRect(g)
  {
    forall a, b :: InImage(g, a, b) ==> WindowFilled(k, g, a, b)
  }

  /** filter. */
  ghost function Filtered(k: seq<seq<real>>, imgs: map<string, Grid>, name: string, dest: string): (o: Outcome)
    requires IsKernel(k) && StoreValid(imgs)
    ensures StoreValid(o.images)
  {
    if DimsError(imgs, name).Some? then Outcome(imgs, DimsError(imgs, name))
    else
      var src := ReadBack(imgs, name, dest);
      ConvolveWellFormed(k, src);
      Outcome(imgs[dest := Convolve(k, src)], if AllWindowsFilled(k, src) then None else Some(NullPointer))
  }

  /** loadImage: the store changes only once the header has been read. */
  ghost function LoadOutcome(text: string, imgs: map<string, Grid>, name: string): (o: Outcome)
    requires StoreValid(imgs)
    ensures StoreValid(o.images)
  {
    var d := DecodePlain(text);
    Outcome(if d.grid.Some? then imgs[name := d.grid.value] else imgs, d.error)
  }

  // ---------------------------------------------------------------------------
  // Grids held in arrays

  /** The grid a `Color[][]` buffer holds. */
  function Contents(a: array2<Cell>): (g: Grid)
    reads a
    ensures |g| == a.Length0 && forall i :: 0 <= i < |g| ==> |g[i]| == a.Length1
    ensures forall i, j :: 0 <= i < a.Length0 && 0 <= j < a.Length1 ==> g[i][j] == a[i, j]
  {
    seq(a.Length0, i requires 0 <= i < a.Length0 reads a =>
      seq(a.Length1, j requires 0 <= j < a.Length1 reads a => a[i, j]))
  }

  /** Grids with the same shape and the same cells are equal. */
  lemma SameGrid(x: Grid, y: Grid)
    requires |x| == |y| && forall i :: 0 <= i < |x| ==> |x[i]| == |y[i]|
    requires forall i, j :: InGrid(x, i, j) ==> x[i][j] == y[i][j]
    ensures x == y
  {
    forall i | 0 <= i < |x| ensures x[i] == y[i] {
      forall j | 0 <= j < |x[i]| ensures x[i][j] == y[i][j] {
        assert InGrid(x, i, j);
      }
    }
  }

  /** A `put` registers its name; the number of names grows by one exactly when the name is new. */
  lemma PutSize(imgs: map<string, Grid>, dest: string, g: Grid)
    ensures dest in imgs[dest := g]
    ensures |imgs[dest := g].Keys| == |imgs.Keys| + (if dest in imgs then 0 else 1)
  {
    var after := imgs[dest := g];
    if dest in imgs {
      assert after.Keys == imgs.Keys;
    } else {
      assert after.Keys == imgs.Keys + {dest};
    }
  }

  /** Row-major order on a grid of the given width is the order of the flat index. */
  lemma RowMajor(a: nat, b: nat, h: nat, w: nat, width: nat)
    requires b < width && w < width
    ensures a * width + b < h * width + w <==> Before(a, b, h, w)
  {
    if a < h {
      MulLe(a + 1, h, width);
      assert a * width + b < (a + 1) * width;
    } else if a > h {
      MulLe(h + 1, a, width);
      assert h * width + w < (h + 1) * width;
    }
  }

  /** The destination of a per-pixel transform whose loop got to (h, w) and stopped there,
      at a null cell or at the end. */
  lemma MapGridUpTo(op: PixelOp, g: Grid, h: int, w: int)
    requires ValidOp(op) && WellFormed(g)
    requires forall a, b :: InGrid(g, a, b) && Before(a, b, h, w) ==> g[a][b].Some?
    requires (InGrid(g, h, w) && g[h][w].None?) || (h == |g| && w == 0)
    ensures forall a, b :: InGrid(g, a, b) ==>
      MapGrid(op, g)[a][b] == if Before(a, b, h, w) then Some(ApplyOp(op, g[a][b].value)) else None
  {
    forall a, b | InGrid(g, a, b) ensures
      MapGrid(op, g)[a][b] == if Before(a, b, h, w) then Some(ApplyOp(op, g[a][b].value)) else None
    {
      if Before(a, b, h, w) {
        assert FilledThrough(g, a, b);
      } else {
        assert InGrid(g, h, w) && g[h][w].None?;
        assert !FilledThrough(g, a, b);
      }
    }
  }

  /** The same for the convolution. */
  lemma ConvolveUpTo(k: seq<seq<real>>, g: Grid, h: int, w: int)
    requires IsKernel(k) && IsRect(g)
    requires forall a, b :: InImage(g, a, b) && Before(a, b, h, w) ==> WindowFilled(k, g, a, b)
    requires (InImage(g, h, w) && !WindowFilled(k, g, h, w)) || (h == |g| && w == 0)
    ensures forall a, b :: InImage(g, a, b) ==>
      Convolve(k, g)[a][b] == if Before(a, b, h, w) then Some(ConvPixel(k, g, a, b)) else None
  {
    forall a, b | InImage(g, a, b) ensures
      Convolve(k, g)[a][b] == if Before(a, b, h, w) then Some(ConvPixel(k, g, a, b)) else None
    {
      if Before(a, b, h, w) {
        assert WindowsFilledThrough(k, g, a, b);
      } else {
        assert InImage(g, h, w) && !WindowFilled(k, g, h, w);
        assert !WindowsFilledThrough(k, g, a, b);
      }
    }
  }

  /** The loops of a horizontal flip, writing into the destination buffer: visiting (h, w)
      copies both cells of the mirrored pair (h, w) and (h, W-1-w). */
  method FlipHorizontalLoops(src: Grid, buf: array2<Cell>)
    requires IsRect(src) && buf.Length0 == |src| && buf.Length1 == Width(src)
    modifies buf
    ensures forall a, b :: 0 <= a < buf.Length0 && 0 <= b < buf.Length1 ==> buf[a, b] == FlipH(src)[a][b]
  {
    var height, width := buf.Length0, buf.Length1;
    var h := 0;
    while h < height
      invariant 0 <= h <= height
      invariant forall a, b :: 0 <= a < h && 0 <= b < width ==> buf[a, b] == src[a][width - 1 - b]
    {
      var w := 0;
      while w < width
        invariant 0 <= w <= width
        invariant forall a, b :: 0 <= a < h && 0 <= b < width ==> buf[a, b] == src[a][width - 1 - b]
        invariant forall b :: 0 <= b < width && (b < w || width - 1 - b < w) ==> buf[h, b] == src[h][width - 1 - b]
      {
        var left := src[h][w];
        var right := src[h][width - w - 1];
        buf[h, w] := right;
        buf[h, width - w - 1] := left;
        w := w + 1;
      }
      h := h + 1;
    }
  }

  /** The loops of a vertical flip: columns outside, rows inside; visiting (h, w) copies both
      cells of the mirrored pair (h, w) and (H-1-h, w). */
  method FlipVerticalLoops(src: Grid, buf: array2<Cell>)
    requires IsRect(src) && buf.Length0 == |src| && buf.Length1 == Width(src)
    modifies buf
    ensures forall a, b :: 0 <= a < buf.Length0 && 0 <= b < buf.Length1 ==> buf[a, b] == FlipV(src)[a][b]
  {
    var height, width := buf.Length0, buf.Length1;
    var w := 0;
    while w < width
      invariant 0 <= w <= width
      invariant forall a, b :: 0 <= a < height && 0 <= b < w ==> buf[a, b] == src[height - 1 - a][b]
    {
      var h := 0;
      while h < height
        invariant 0 <= h <= height
        invariant forall a, b :: 0 <= a < height && 0 <= b < w ==> buf[a, b] == src[height - 1 - a][b]
        invariant forall a :: 0 <= a < height && (a < h || height - 1 - a < h) ==> buf[a, w] == src[height - 1 - a][w]
      {
        var top := src[h][w];
        var bottom := src[height - h - 1][w];
        buf[h, w] := bottom;
        buf[height - h - 1, w] := top;
        h := h + 1;
      }
      w := w + 1;
    }
  }

  /** The next term of a kernel row, for a non-null cell inside the image. */
  lemma TermsAt(k: seq<seq<real>>, g: Grid, h: int, w: int, row: nat, col: nat, p: Rgb)
    requires IsKernel(k) && IsRect(g) && row < |k| && col < |k|
    requires InImage(g, SrcRow(k, h, row), SrcRow(k, w, col)) && g[SrcRow(k, h, row)][SrcRow(k, w, col)] == Some(p)
    ensures RowSum(k, g, h, w, row, col + 1, Red) == RowSum(k, g, h, w, row, col, Red) + k[row][col] * p.r as real
    ensures RowSum(k, g, h, w, row, col + 1, Green) == RowSum(k, g, h, w, row, col, Green) + k[row][col] * p.g as real
    ensures RowSum(k, g, h, w, row, col + 1, Blue) == RowSum(k, g, h, w, row, col, Blue) + k[row][col] * p.b as real
  {
  }

  /** A kernel cell outside the image adds nothing. */
  lemma OutsideTerms(k: seq<seq<real>>, g: Grid, h: int, w: int, row: nat, col: nat)
    requires IsKernel(k) && IsRect(g) && row < |k| && col < |k|
    requires !InImage(g, SrcRow(k, h, row), SrcRow(k, w, col))
    ensures forall ch :: RowSum(k, g, h, w, row, col + 1, ch) == RowSum(k, g, h, w, row, col, ch)
  {
  }

  /** kernelComp: the weighted channel sums over the window of (curHeight, curWidth), cells
      outside the image skipped; the first null cell inside the image throws. */
  method KernelComp(image: Grid, curHeight: int, curWidth: int, matrix: seq<seq<real>>) returns (c: Result<Rgb>)
    requires IsRect(image) && IsKernel(matrix)
    ensures WindowFilled(matrix, image, curHeight, curWidth) ==> c == Ok(ConvPixel(matrix, image, curHeight, curWidth))
    ensures !WindowFilled(matrix, image, curHeight, curWidth) ==> c == Err(NullPointer)
  {
    var n := |matrix|;
    var mid := n / 2;
    var red, green, blue := 0.0, 0.0, 0.0;
    var row := 0;
    while row < n
      invariant 0 <= row <= n
      invariant red == WindowSum(matrix, image, curHeight, curWidth, row, Red)
      invariant green == WindowSum(matrix, image, curHeight, curWidth, row, Green)
      invariant blue == WindowSum(matrix, image, curHeight, curWidth, row, Blue)
      invariant forall r, q ::
        (0 <= r < row && 0 <= q < n && InImage(image, SrcRow(matrix, curHeight, r), SrcRow(matrix, curWidth, q))) ==>
        image[SrcRow(matrix, curHeight, r)][SrcRow(matrix, curWidth, q)].Some?
    {
      var col := 0;
      ghost var red0, green0, blue0 := red, green, blue;
      while col < n
        invariant 0 <= col <= n
        invariant red == red0 + RowSum(matrix, image, curHeight, curWidth, row, col, Red)
        invariant green == green0 + RowSum(matrix, image, curHeight, curWidth, row, col, Green)
        invariant blue == blue0 + RowSum(matrix, image, curHeight, curWidth, row, col, Blue)
        invariant forall r, q ::
          (0 <= r < row && 0 <= q < n && InImage(image, SrcRow(matrix, curHeight, r), SrcRow(matrix, curWidth, q))) ==>
          image[SrcRow(matrix, curHeight, r)][SrcRow(matrix, curWidth, q)].Some?
        invariant forall q ::
          (0 <= q < col && InImage(image, SrcRow(matrix, curHeight, row), SrcRow(matrix, curWidth, q))) ==>
          image[SrcRow(matrix, curHeight, row)][SrcRow(matrix, curWidth, q)].Some?
      {
        var curRow := curHeight - mid + row;
        var curCol := curWidth - mid + col;
        if curRow >= 0 && curRow < |image| && curCol >= 0 && curCol < Width(image) {
          match image[curRow][curCol]
          case None =>
            assert !WindowFilled(matrix, image, curHeight, curWidth) by {
              assert InImage(image, SrcRow(matrix, curHeight, row), SrcRow(matrix, curWidth, col));
            }
            return Err(NullPointer);
          case Some(p) =>
            TermsAt(matrix, image, curHeight, curWidth, row, col, p);
            red := red + matrix[row][col] * p.r as real;
            green := green + matrix[row][col] * p.g as real;
            blue := blue + matrix[row][col] * p.b as real;
        } else {
          OutsideTerms(matrix, image, curHeight, curWidth, row, col);
        }
        col := col + 1;
      }
      row := row + 1;
    }
    return Ok(Rgb(Clamp(Trunc(red), 0, MaxChannel), Clamp(Trunc(green), 0, MaxChannel), Clamp(Trunc(blue), 0, MaxChannel)));
  }

  /** The encoder's text for the pixels emitted so far grows by one line per pixel. */
  lemma PixelLinesSnoc(ps: seq<Rgb>, c: Rgb)
    requires forall k :: 0 <= k < |ps| ==> InRange(ps[k])
    requires InRange(c)
    ensures JoinLines(PixelLines(ps + [c])) == JoinLines(PixelLines(ps)) + PixelLine(c) + "\n"
  {
    assert PixelLines(ps + [c]) == PixelLines(ps) + [PixelLine(c)];
    JoinLinesSnoc(PixelLines(ps), PixelLine(c));
  }

  lemma {:induction false} JoinLinesAppend(xs: seq<string>, ys: seq<string>)
    ensures JoinLines(xs + ys) == JoinLines(xs) + JoinLines(ys)
  {
    if xs != [] {
      assert (xs + ys)[1..] == xs[1..] + ys;
      JoinLinesAppend(xs[1..], ys);
    } else {
      assert xs + ys == ys;
    }
  }

  /** The header and the pixel lines are the encoding. */
  lemma EncodingOfParts(p: Grid)
    requires WellFormed(p) && AllFilled(p)
    ensures EncodePlain(p) ==
      "P3\n" + (NatToString(Width(p)) + " " + NatToString(|p|) + "\n") + "255\n" + JoinLines(PixelLines(Flatten(p)))
  {
    var line := NatToString(Width(p)) + " " + NatToString(|p|);
    var body := JoinLines(PixelLines(Flatten(p)));
    assert EncodeLines(p) == ["P3", line, "255"] + PixelLines(Flatten(p));
    assert EncodePlain(p) == JoinLines(["P3", line, "255"] + PixelLines(Flatten(p)));
    JoinThreeLines("P3", line, "255", PixelLines(Flatten(p)));
    assert "P3" + "\n" == "P3\n" && "255" + "\n" == "255\n";
    Assoc("P3\n" + (line + "\n"), "255\n", body);
    Assoc("P3\n", line + "\n", "255\n" + body);
  }

  /** A second `put` under the same name replaces the first; a well-formed grid keeps the
      store valid. */
  lemma PutTwice(imgs: map<string, Grid>, dest: string, first: Grid, second: Grid)
    ensures imgs[dest := first][dest := second] == imgs[dest := second]
    ensures StoreValid(imgs) && WellFormed(second) ==> StoreValid(imgs[dest := second])
  {
  }

  /** The first h rows of a grid keep its shape and ranges. */
  lemma PrefixRows(g: Grid, h: nat)
    requires h <= |g|
    ensures WellFormed(g) ==> WellFormed(g[..h])
    ensures AllFilled(g) ==> AllFilled(g[..h])
  {
    forall a, b | InGrid(g[..h], a, b) ensures InGrid(g, a, b) && g[..h][a][b] == g[a][b] { }
  }

  /** Reading pixel (h, w), the one at flat index h * width + w, fills that cell only. */
  lemma GridOfSnoc(cells: seq<Rgb>, c: Rgb, h: nat, w: nat, height: nat, width: nat)
    requires h < height && w < width && |cells| == h * width + w
    ensures forall a, b :: 0 <= a < height && 0 <= b < width ==>
      GridOf(cells + [c], height, width)[a][b] ==
        if a == h && b == w then Some(c) else GridOf(cells, height, width)[a][b]
  {
    forall a, b | 0 <= a < height && 0 <= b < width ensures
      GridOf(cells + [c], height, width)[a][b] ==
        if a == h && b == w then Some(c) else GridOf(cells, height, width)[a][b]
    {
      RowMajor(a, b, h, w, width);
      if w + 1 < width {
        RowMajor(a, b, h, w + 1, width);
      } else {
        RowMajor(a, b, h + 1, 0, width);
        assert (h + 1) * width == h * width + w + 1;
      }
    }
  }

  /** A successful triple after the cells read so far extends them by one. */
  lemma ReadCellsNext(toks: seq<string>, cells: seq<Rgb>, c: Rgb)
    requires ReadCells(toks, |cells|) == CellsRead(cells, None)
    requires ReadTriple(toks, 4 + 3 * |cells|) == Ok(c)
    ensures ReadCells(toks, |cells + [c]|) == CellsRead(cells + [c], None)
  {
    ReadCellsStep(toks, |cells|, c);
    assert |cells + [c]| == |cells| + 1;
  }

  /** A failing triple in the middle of the body: the reading stops there. */
  lemma BodyStopped(toks: seq<string>, cells: seq<Rgb>, h: nat, w: nat, height: nat, width: nat)
    requires h < height && w < width && |cells| == h * width + w
    requires ReadCells(toks, |cells|) == CellsRead(cells, None) && ReadTriple(toks, 4 + 3 * |cells|).Err?
    ensures ReadCells(toks, height * width) == CellsRead(cells, Some(ReadTriple(toks, 4 + 3 * |cells|).error))
  {
    MulLe(h + 1, height, width);
    ReadCellsStopped(toks, |cells| + 1, height * width);
  }

  /** The loops shared by the per-pixel transforms: read each source cell in row-major order
      and write the transformed colour to the same cell of the destination buffer, until a
      null cell throws. */
  method PixelwiseLoops(op: PixelOp, src: Grid, buf: array2<Cell>) returns (complete: bool)
    requires ValidOp(op) && WellFormed(src) && buf.Length0 == |src| && buf.Length1 == Width(src)
    requires forall a, b :: 0 <= a < buf.Length0 && 0 <= b < buf.Length1 ==> buf[a, b] == None
    modifies buf
    ensures complete <==> AllFilled(src)
    ensures forall a, b :: 0 <= a < buf.Length0 && 0 <= b < buf.Length1 ==> buf[a, b] == MapGrid(op, src)[a][b]
  {
    var height, width := buf.Length0, buf.Length1;
    var h := 0;
    while h < height
      invariant 0 <= h <= height
      invariant forall a, b :: InGrid(src, a, b) && Before(a, b, h, 0) ==> src[a][b].Some?
      invariant forall a, b :: 0 <= a < height && 0 <= b < width ==>
        buf[a, b] == if Before(a, b, h, 0) then Some(ApplyOp(op, src[a][b].value)) else None
    {
      var w := 0;
      while w < width
        invariant 0 <= w <= width
        invariant forall a, b :: InGrid(src, a, b) && Before(a, b, h, w) ==> src[a][b].Some?
        invariant forall a, b :: 0 <= a < height && 0 <= b < width ==>
          buf[a, b] == if Before(a, b, h, w) then Some(ApplyOp(op, src[a][b].value)) else None
      {
        var cell := src[h][w];
        if cell.None? {
          MapGridUpTo(op, src, h, w);
          assert InGrid(src, h, w);
          return false;
        }
        buf[h, w] := Some(ApplyOp(op, cell.value));
        w := w + 1;
      }
      h := h + 1;
    }
    MapGridUpTo(op, src, height, 0);
    return true;
  }

  /** The text built after the first h rows: the header, then one line per pixel of those rows. */
  ghost predicate Saved(p: Grid, h: nat, header: string, builder: string) {
    h <= |p| && WellFormed(p[..h]) && AllFilled(p[..h]) &&
    builder == header + JoinLines(PixelLines(Flatten(p[..h])))
  }

  /** The loops of filter: each destination cell is kernelComp of its window in the source,
      in row-major order, until a window reads a null cell. */
  method FilterLoops(matrix: seq<seq<real>>, image: Grid, buf: array2<Cell>) returns (complete: bool)
    requires IsKernel(matrix) && IsRect(image) && buf.Length0 == |image| && buf.Length1 == Width(image)
    requires forall a, b :: 0 <= a < buf.Length0 && 0 <= b < buf.Length1 ==> buf[a, b] == None
    modifies buf
    ensures complete <==> AllWindowsFilled(matrix, image)
    ensures forall a, b :: 0 <= a < buf.Length0 && 0 <= b < buf.Length1 ==> buf[a, b] == Convolve(matrix, image)[a][b]
  {
    var height, width := buf.Length0, buf.Length1;
    var h := 0;
    while h < height
      invariant 0 <= h <= height
      invariant forall a, b :: InImage(image, a, b) && Before(a, b, h, 0) ==> WindowFilled(matrix, image, a, b)
      invariant forall a, b :: 0 <= a < height && 0 <= b < width ==>
        buf[a, b] == if Before(a, b, h, 0) then Some(ConvPixel(matrix, image, a, b)) else None
    {
      var w := 0;
      while w < width
        invariant 0 <= w <= width
        invariant forall a, b :: InImage(image, a, b) && Before(a, b, h, w) ==> WindowFilled(matrix, image, a, b)
        invariant forall a, b :: 0 <= a < height && 0 <= b < width ==>
          buf[a, b] == if Before(a, b, h, w) then Some(ConvPixel(matrix, image, a, b)) else None
      {
        var c := KernelComp(image, h, w, matrix);
        if c.Err? {
          ConvolveUpTo(matrix, image, h, w);
          return false;
        }
        buf[h, w] := Some(c.value);
        w := w + 1;
      }
      h := h + 1;
    }
    ConvolveUpTo(matrix, image, height, 0);
    return true;
  }

  /** Row h, complete, extends the flattened prefix of the grid by its colours. */
  lemma FlattenNextRow(p: Grid, h: nat, row: seq<Rgb>)
    requires WellFormed(p) && h < |p| && AllFilled(p[..h])
    requires |row| == |p[h]| && forall b :: 0 <= b < |row| ==> p[h][b] == Some(row[b])
    ensures WellFormed(p[..h + 1]) && AllFilled(p[..h + 1])
    ensures Flatten(p[..h + 1]) == Flatten(p[..h]) + row
  {
    var q := p[..h + 1];
    PrefixRows(p, h + 1);
    assert AllFilled(q) by {
      forall a, b | InGrid(q, a, b) ensures q[a][b].Some? {
        if a < h { assert InGrid(p[..h], a, b); }
      }
    }
    assert q[..|q| - 1] == p[..h];
    assert RowColours(q[|q| - 1]) == row;
  }

  /** After row h has been emitted, the text holds the lines of the pixels of rows 0..h. */
  /** Row h of a well-formed grid: its colours are in range, and a null in it leaves the grid
      incomplete. */
  lemma RowOf(p: Grid, h: nat)
    requires WellFormed(p) && h < |p|
    ensures forall b :: 0 <= b < |p[h]| && p[h][b].Some? ==> InRange(p[h][b].value)
    ensures (exists b :: 0 <= b < |p[h]| && p[h][b].None?) ==> !AllFilled(p)
  {
    forall b | 0 <= b < |p[h]| && p[h][b].Some? ensures InRange(p[h][b].value) {
      assert InGrid(p, h, b);
    }
    if exists b :: 0 <= b < |p[h]| && p[h][b].None? {
      var b :| 0 <= b < |p[h]| && p[h][b].None?;
      assert InGrid(p, h, b);
    }
  }

  lemma SaveRowDone(p: Grid, h: nat, row: seq<Rgb>, header: string, builder: string)
    requires WellFormed(p) && h < |p| && Saved(p, h, header, builder)
    requires |row| == |p[h]| && forall b :: 0 <= b < |row| ==> p[h][b] == Some(row[b])
    requires forall k :: 0 <= k < |row| ==> InRange(row[k])
    ensures Saved(p, h + 1, header, builder + JoinLines(PixelLines(row)))
  {
    FlattenNextRow(p, h, row);
    AppendRowText(header, builder, Flatten(p[..h]), row, Flatten(p[..h + 1]));
  }

  /** Appending the lines of a row to the text of the pixels before it. */
  lemma AppendRowText(header: string, builder: string, done: seq<Rgb>, row: seq<Rgb>, all: seq<Rgb>)
    requires forall k :: 0 <= k < |done| ==> InRange(done[k])
    requires forall k :: 0 <= k < |row| ==> InRange(row[k])
    requires all == done + row
    requires builder == header + JoinLines(PixelLines(done))
    ensures forall k :: 0 <= k < |all| ==> InRange(all[k])
    ensures builder + JoinLines(PixelLines(row)) == header + JoinLines(PixelLines(all))
  {
    PixelLinesAppend(done, row);
    var before, after := PixelLines(done), PixelLines(row);
    JoinLinesAppend(before, after);
    Assoc(header, JoinLines(before), JoinLines(after));
  }

  /** The row loop of saveImage: append the lines of each row to `builder`, until a null cell
      throws. */
  method SaveLoops(p: Grid, header: string) returns (complete: bool, builder: string)
    requires WellFormed(p)
    ensures complete <==> AllFilled(p)
    ensures complete ==> builder == header + JoinLines(PixelLines(Flatten(p)))
  {
    builder := header;
    var h := 0;
    assert p[..0] == [];
    while h < |p|
      invariant 0 <= h <= |p|
      invariant Saved(p, h, header, builder)
    {
      RowOf(p, h);
      var rowComplete, rowText;
      ghost var row;
      rowComplete, rowText, row := SaveRow(p[h]);
      if !rowComplete {
        return false, builder;
      }
      SaveRowDone(p, h, row, header, builder);
      builder := builder + rowText;
      h := h + 1;
    }
    assert p[..|p|] == p;
    assert Saved(p, |p|, header, builder);
    return true, builder;
  }

  /** The inner loop of saveImage over one row: one line per pixel, until a null cell. */
  method SaveRow(cells: seq<Cell>) returns (complete: bool, text: string, ghost row: seq<Rgb>)
    requires forall b :: 0 <= b < |cells| && cells[b].Some? ==> InRange(cells[b].value)
    ensures complete <==> forall b :: 0 <= b < |cells| ==> cells[b].Some?
    ensures complete ==> |row| == |cells| && (forall b :: 0 <= b < |cells| ==> cells[b] == Some(row[b]))
    ensures complete ==> (forall k :: 0 <= k < |row| ==> InRange(row[k])) && text == JoinLines(PixelLines(row))
  {
    text := "";
    row := [];
    var w := 0;
    while w < |cells|
      invariant 0 <= w <= |cells|
      invariant |row| == w && forall b :: 0 <= b < w ==> cells[b] == Some(row[b])
      invariant forall k :: 0 <= k < |row| ==> InRange(row[k])
      invariant text == JoinLines(PixelLines(row))
    {
      var cell := cells[w];
      if cell.None? {
        return false, text, row;
      }
      var c := cell.value;
      PixelLinesSnoc(row, c);
      RowSnoc(cells, row, c);
      text := text + PixelLine(c) + "\n";
      row := row + [c];
      w := w + 1;
    }
    return true, text, row;
  }

  lemma RowSnoc(cells: seq<Cell>, row: seq<Rgb>, c: Rgb)
    requires |row| < |cells| && cells[|row|] == Some(c)
    requires forall b :: 0 <= b < |row| ==> cells[b] == Some(row[b])
    ensures forall b :: 0 <= b < |row + [c]| ==> cells[b] == Some((row + [c])[b])
  {
  }

  lemma PixelLinesAppend(xs: seq<Rgb>, ys: seq<Rgb>)
    requires forall k :: 0 <= k < |xs| ==> InRange(xs[k])
    requires forall k :: 0 <= k < |ys| ==> InRange(ys[k])
    ensures forall k :: 0 <= k < |xs + ys| ==> InRange((xs + ys)[k])
    ensures PixelLines(xs + ys) == PixelLines(xs) + PixelLines(ys)
  {
  }

  /** The body loops of loadImage: `height * width` triples are read into the buffer row by
      row, until one fails. */
  method ReadBodyLoops(toks: seq<string>, buf: array2<Cell>) returns (rc: CellsRead)
    requires forall a, b :: 0 <= a < buf.Length0 && 0 <= b < buf.Length1 ==> buf[a, b] == None
    modifies buf
    ensures rc == ReadCells(toks, buf.Length0 * buf.Length1)
    ensures forall a, b :: 0 <= a < buf.Length0 && 0 <= b < buf.Length1 ==>
      buf[a, b] == GridOf(rc.cells, buf.Length0, buf.Length1)[a][b]
  {
    var height, width := buf.Length0, buf.Length1;
    var cells: seq<Rgb> := [];
    var h := 0;
    while h < height
      invariant 0 <= h <= height
      invariant |cells| == h * width
      invariant ReadCells(toks, |cells|) == CellsRead(cells, None)
      invariant forall a, b :: 0 <= a < height && 0 <= b < width ==> buf[a, b] == GridOf(cells, height, width)[a][b]
    {
      var failed;
      cells, failed := ReadRow(toks, buf, h, cells);
      if failed.Some? {
        return CellsRead(cells, failed);
      }
      h := h + 1;
    }
    return CellsRead(cells, None);
  }

  /** The inner loop of loadImage's body: the triples of row h, until one fails. */
  method ReadRow(toks: seq<string>, buf: array2<Cell>, h: nat, cells0: seq<Rgb>) returns (cells: seq<Rgb>, failed: Option<Error>)
    requires h < buf.Length0 && |cells0| == h * buf.Length1
    requires ReadCells(toks, |cells0|) == CellsRead(cells0, None)
    requires forall a, b :: 0 <= a < buf.Length0 && 0 <= b < buf.Length1 ==>
      buf[a, b] == GridOf(cells0, buf.Length0, buf.Length1)[a][b]
    modifies buf
    ensures failed.None? ==> |cells| == (h + 1) * buf.Length1 && ReadCells(toks, |cells|) == CellsRead(cells, None)
    ensures failed.Some? ==> ReadCells(toks, buf.Length0 * buf.Length1) == CellsRead(cells, failed)
    ensures forall a, b :: 0 <= a < buf.Length0 && 0 <= b < buf.Length1 ==>
      buf[a, b] == GridOf(cells, buf.Length0, buf.Length1)[a][b]
  {
    var height, width := buf.Length0, buf.Length1;
    cells := cells0;
    var pos := 4 + 3 * |cells|;
    var w := 0;
    while w < width
      invariant 0 <= w <= width
      invariant pos == 4 + 3 * |cells| && |cells| == h * width + w
      invariant ReadCells(toks, |cells|) == CellsRead(cells, None)
      invariant forall a, b :: 0 <= a < height && 0 <= b < width ==> buf[a, b] == GridOf(cells, height, width)[a][b]
    {
      var r := NextInt(toks, pos);
      var g := if r.Ok? then NextInt(toks, pos + 1) else r;
      var b := if g.Ok? then NextInt(toks, pos + 2) else g;
      var c := if b.Ok? then NewColor(r.value, g.value, b.value) else Err(b.error);
      assert c == ReadTriple(toks, pos);
      if c.Err? {
        BodyStopped(toks, cells, h, w, height, width);
        return cells, Some(c.error);
      }
      buf[h, w] := Some(c.value);
      GridOfSnoc(cells, c.value, h, w, height, width);
      ReadCellsNext(toks, cells, c.value);
      cells := cells + [c.value];
      pos := pos + 3;
      w := w + 1;
    }
    MulSucc(h, width);
    return cells, None;
  }

  // ---------------------------------------------------------------------------
  // The registry

  /** ImageProcessingModelImpl: a mutable map from image names to `Color[][]` grids. */
  class Model {
    var images: map<string, Grid>

    ghost predicate Valid()
      reads this
    {
      StoreValid(images)
    }

    /** The default constructor: an empty registry. */
    constructor()
      ensures Valid() && images == map[]
    {
      images := map[];
    }

    /** getHeight: the number of rows; a missing name is a NullPointerException. */
    function GetHeight(name: string): (r: Result<nat>)
      reads this
      ensures r.Ok? <==> name in images
      ensures r.Ok? ==> r.value == |images[name]|
      ensures r.Err? ==> r.error == NullPointer
    {
      if name in images then Ok(|images[name]|) else Err(NullPointer)
    }

    /** getWidth: the length of row 0; a grid without rows has no row 0. */
    function GetWidth(name: string): (r: Result<nat>)
      reads this
      ensures r.Ok? <==> name in images && |images[name]| > 0
      ensures r.Ok? ==> r.value == Width(images[name])
      ensures r.Err? ==> r.error == (if name in images then IndexOutOfBounds else NullPointer)
    {
      if name !in images then Err(NullPointer)
      else if |images[name]| == 0 then Err(IndexOutOfBounds)
      else Ok(|images[name][0]|)
    }

    /** pixelRGB: the cell at (row, col), which may be null. */
    function PixelRgb(row: int, col: int, name: string): (r: Result<Cell>)
      reads this
      ensures r.Ok? <==> name in images && InGrid(images[name], row, col)
      ensures r.Ok? ==> r.value == images[name][row][col]
      ensures r.Err? ==> r.error == (if name in images then IndexOutOfBounds else NullPointer)
    {
      if name !in images then Err(NullPointer)
      else if 0 <= row < |images[name]| && 0 <= col < |images[name][row]| then Ok(images[name][row][col])
      else Err(IndexOutOfBounds)
    }

    /** getSize: the number of registered names. */
    function GetSize(): (n: nat)
      reads this
      ensures n == |images.Keys|
    {
      |images.Keys|
    }

    /** existingID. */
    function ExistingId(id: string): (b: bool)
      reads this
      ensures b <==> id in images
    {
      id in images
    }

    /** The shared body of the per-pixel transforms. */
    method ApplyPixelwise(op: PixelOp, name: string, dest: string) returns (err: Option<Error>)
      requires Valid() && ValidOp(op)
      modifies this
      ensures Valid()
      ensures Outcome(images, err) == Pixelwise(op, old(images), name, dest)
      ensures old(DimsError(images, name)).None? ==>
        ExistingId(dest) && GetSize() == old(GetSize()) + (if old(ExistingId(dest)) then 0 else 1)
    {
      err := DimsError(images, name);
      if err.Some? {
        return;
      }
      var height, width := |images[name]|, |images[name][0]|;
      var buf := new Cell[height, width]((i, j) => None);
      images := images[dest := NullGrid(height, width)];
      var src := images[name];
      assert src == ReadBack(old(images), name, dest);
      var complete := PixelwiseLoops(op, src, buf);
      SameGrid(Contents(buf), MapGrid(op, src));
      MapGridWellFormed(op, src);
      PutTwice(old(images), dest, NullGrid(height, width), MapGrid(op, src));
      images := images[dest := Contents(buf)];
      PutSize(old(images), dest, Contents(buf));
      err := if complete then None else Some(NullPointer);
    }

    /** rgb: the switch on the channel name comes first, so an unknown name changes nothing. */
    method Rgb(selector: string, name: string, dest: string) returns (err: Option<Error>)
      requires Valid()
      modifies this
      ensures Valid()
      ensures ParseChannel(selector).Err? ==> err == Some(IllegalArgument) && images == old(images)
      ensures ParseChannel(selector).Ok? ==>
        Outcome(images, err) == Pixelwise(ComponentOp(ParseChannel(selector).value), old(images), name, dest)
    {
      var ch := ParseChannel(selector);
      if ch.Err? {
        return Some(ch.error);
      }
      err := ApplyPixelwise(ComponentOp(ch.value), name, dest);
    }

    method Value(name: string, dest: string) returns (err: Option<Error>)
      requires Valid()
      modifies this
      ensures Valid()
      ensures Outcome(images, err) == Pixelwise(ValueOp, old(images), name, dest)
    {
      err := ApplyPixelwise(ValueOp, name, dest);
    }

    method Intensity(name: string, dest: string) returns (err: Option<Error>)
      requires Valid()
      modifies this
      ensures Valid()
      ensures Outcome(images, err) == Pixelwise(IntensityOp, old(images), name, dest)
    {
      err := ApplyPixelwise(IntensityOp, name, dest);
    }

    method ColorTransform(matrix: seq<seq<real>>, name: string, dest: string) returns (err: Option<Error>)
      requires Valid() && IsColorMatrix(matrix)
      modifies this
      ensures Valid()
      ensures Outcome(images, err) == Pixelwise(TransformOp(matrix), old(images), name, dest)
    {
      err := ApplyPixelwise(TransformOp(matrix), name, dest);
    }

    /** brighten, with the sum `c + increment` taken in unbounded integers. */
    method Brighten(increment: int, name: string, dest: string) returns (err: Option<Error>)
      requires Valid()
      modifies this
      ensures Valid()
      ensures Outcome(images, err) == Pixelwise(BrightenOp(increment), old(images), name, dest)
    {
      err := ApplyPixelwise(BrightenOp(increment), name, dest);
    }

    /** flip: each visit of (h, w) writes both cells of a mirrored pair, both read from the
        source, so the second visit of a pair writes the values the first one wrote. */
    method Flip(horizontal: bool, name: string, dest: string) returns (err: Option<Error>)
      requires Valid()
      modifies this
      ensures Valid()
      ensures Outcome(images, err) == Flipped(horizontal, old(images), name, dest)
      ensures old(DimsError(images, name)).None? ==>
        ExistingId(dest) && GetSize() == old(GetSize()) + (if old(ExistingId(dest)) then 0 else 1)
    {
      err := DimsError(images, name);
      if err.Some? {
        return;
      }
      var height, width := |images[name]|, |images[name][0]|;
      var buf := new Cell[height, width]((i, j) => None);
      images := images[dest := NullGrid(height, width)];
      var src := images[name];
      assert src == ReadBack(old(images), name, dest);
      if horizontal {
        FlipHorizontalLoops(src, buf);
        SameGrid(Contents(buf), FlipH(src));
      } else {
        FlipVerticalLoops(src, buf);
        SameGrid(Contents(buf), FlipV(src));
      }
      FlipWellFormed(src);
      PutTwice(old(images), dest, NullGrid(height, width), Contents(buf));
      images := images[dest := Contents(buf)];
      PutSize(old(images), dest, Contents(buf));
    }

    /** filter: a kernel given as rows of at least `matrix.length` weights. */
    method Filter(matrix: seq<seq<real>>, name: string, dest: string) returns (err: Option<Error>)
      requires Valid() && IsKernel(matrix)
      modifies this
      ensures Valid()
      ensures Outcome(images, err) == Filtered(matrix, old(images), name, dest)
      ensures old(DimsError(images, name)).None? ==>
        ExistingId(dest) && GetSize() == old(GetSize()) + (if old(ExistingId(dest)) then 0 else 1)
    {
      err := DimsError(images, name);
      if err.Some? {
        return;
      }
      var height, width := |images[name]|, |images[name][0]|;
      var buf := new Cell[height, width]((i, j) => None);
      images := images[dest := NullGrid(height, width)];
      var image := images[name];
      assert image == ReadBack(old(images), name, dest);
      var complete := FilterLoops(matrix, image, buf);
      SameGrid(Contents(buf), Convolve(matrix, image));
      ConvolveWellFormed(matrix, image);
      PutTwice(old(images), dest, NullGrid(height, width), Convolve(matrix, image));
      images := images[dest := Contents(buf)];
      PutSize(old(images), dest, Contents(buf));
      err := if complete then None else Some(NullPointer);
    }

    /** saveImage for a `.ppm` file name: the text written. A null cell throws before anything
        is written. */
    method SavePlain(name: string) returns (r: Result<string>)
      requires Valid()
      ensures name !in images ==> r == Err(NullPointer)
      ensures name in images && |images[name]| == 0 ==> r == Err(IndexOutOfBounds)
      ensures name in images && |images[name]| > 0 ==>
        (r.Ok? <==> AllFilled(images[name])) && (r.Err? ==> r.error == NullPointer)
      ensures r.Ok? ==> name in images && AllFilled(images[name]) && r.value == EncodePlain(images[name])
    {
      if name !in images {
        return Err(NullPointer);
      }
      var p := images[name];
      if |p| == 0 {
        return Err(IndexOutOfBounds);
      }
      var height, width := |p|, |p[0]|;
      var builder := "P3\n" + (NatToString(width) + " " + NatToString(height) + "\n") + "255\n";
      var complete;
      complete, builder := SaveLoops(p, builder);
      if !complete {
        return Err(NullPointer);
      }
      EncodingOfParts(p);
      return Ok(builder);
    }

    /** loadImage on a file whose content is `text`; the result says whether the "should begin
        with P3" warning was printed. */
    /** The line loop of loadImage: the text with its comment lines dropped, each kept line
        followed by a separator, or the exception `charAt(0)` throws on an empty line. */
    static method ReadLines(text: string) returns (r: Result<string>)
      ensures r.Err? <==> HasEmptyLine(Lines(text))
      ensures r.Err? ==> r.error == IndexOutOfBounds
      ensures r.Ok? ==> r.value == Uncommented(Lines(text))
    {
      var ls := Lines(text);
      var builder := "";
      var i := 0;
      while i < |ls|
        invariant 0 <= i <= |ls|
        invariant builder == Uncommented(ls[..i])
        invariant forall q :: 0 <= q < i ==> ls[q] != ""
      {
        var s := ls[i];
        if |s| == 0 {
          assert HasEmptyLine(ls);
          return Err(IndexOutOfBounds);
        }
        if s[0] != '#' {
          builder := builder + s + "\n";
        }
        assert ls[..i + 1][..i] == ls[..i];
        i := i + 1;
      }
      assert ls[..i] == ls;
      return Ok(builder);
    }

    method LoadImage(text: string, name: string) returns (warned: bool, err: Option<Error>)
      requires Valid()
      modifies this
      ensures Valid()
      ensures Outcome(images, err) == LoadOutcome(text, old(images), name)
      ensures warned == DecodePlain(text).warned
    {
      var rebuilt := ReadLines(text);
      if rebuilt.Err? {
        return false, Some(rebuilt.error);
      }
      var toks := Tokens(rebuilt.value);
      if |toks| == 0 {
        return false, Some(NoSuchElement);
      }
      warned := toks[0] != "P3";
      var width := NextInt(toks, 1);
      if width.Err? {
        return warned, Some(width.error);
      }
      var height := NextInt(toks, 2);
      if height.Err? {
        return warned, Some(height.error);
      }
      var biggest := NextInt(toks, 3);
      if biggest.Err? {
        return warned, Some(biggest.error);
      }
      if width.value < 0 || height.value < 0 {
        return warned, Some(NegativeArraySize);
      }
      err := ReadBody(toks, width.value, height.value, name);
    }

    /** The body loops of loadImage: the header is read, the destination is registered, and
        `height * width` triples are read into it row by row. */
    method ReadBody(toks: seq<string>, width: nat, height: nat, name: string) returns (err: Option<Error>)
      requires Valid()
      modifies this
      ensures Valid()
      ensures var rc := ReadCells(toks, height * width);
        images == old(images)[name := GridOf(rc.cells, height, width)] && err == rc.error
    {
      var buf := new Cell[height, width]((i, j) => None);
      images := images[name := NullGrid(height, width)];
      var rc := ReadBodyLoops(toks, buf);
      SameGrid(Contents(buf), GridOf(rc.cells, height, width));
      GridOfWellFormed(rc.cells, height, width);
      PutTwice(old(images), name, NullGrid(height, width), Contents(buf));
      images := images[name := Contents(buf)];
      return rc.error;
    }

  }
}
