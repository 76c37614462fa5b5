/** The in-memory picture of one image: a colour, a cell of a grid (a colour or a Java null),
    a rectangular row-major grid, the exceptions the engine can raise, and the integer helpers
    (truncation of a double to int, clamping, 32-bit wrap-around) the transforms share. */
module Pixels {

  datatype Option<+T> = None | Some(value: T)

  datatype Result<+T> = Ok(value: T) | Err(error: Error)

  /** The Java exceptions the engine lets escape, by kind. */
  datatype Error =
    | NullPointer        // a name that is not registered, or a null cell dereferenced
    | IndexOutOfBounds   // getWidth on a grid without rows, charAt(0) on an empty line, a cell off the grid
    | IllegalArgument    // an unknown channel name, or a colour channel outside 0..255
    | NoSuchElement      // the scanner has no next token
    | InputMismatch      // the scanner's next token is not a 32-bit integer
    | NegativeArraySize  // a negative width or height in a header

  /** A java.awt.Color, seen through getRed/getGreen/getBlue. */
  datatype Rgb = Rgb(r: int, g: int, b: int)

  const MaxChannel: int := 255

  predicate ChannelInRange(c: int) { 0 <= c <= MaxChannel }

  /** The range check of the java.awt.Color constructor. */
  predicate InRange(p: Rgb) { ChannelInRange(p.r) && ChannelInRange(p.g) && ChannelInRange(p.b) }

  /** `new Color(r, g, b)`: throws IllegalArgumentException for a channel outside 0..255. */
  function NewColor(r: int, g: int, b: int): (c: Result<Rgb>)
    ensures c.Ok? <==> ChannelInRange(r) && ChannelInRange(g) && ChannelInRange(b)
    ensures c.Ok? ==> InRange(c.value) && c.value == Rgb(r, g, b)
    ensures c.Err? ==> c.error == IllegalArgument
  {
    if ChannelInRange(r) && ChannelInRange(g) && ChannelInRange(b) then Ok(Rgb(r, g, b))
    else Err(IllegalArgument)
  }

  /** One element of a `Color[][]`: a colour, or null. */
  type Cell = Option<Rgb>

  /** A `Color[height][width]`, row-major: `g[h][w]` is row h, column w. */
  type Grid = seq<seq<Cell>>

  /** Every row has the width of row 0 (Java's `new Color[h][w]` is always rectangular). */
  ghost predicate IsRect(g: Grid) {
    forall i :: 0 <= i < |g| ==> |g[i]| == |g[0]|
  }

  /** The width the engine reads, `image[0].length`; a grid without rows reports 0 here,
      where Java would throw (callers check for that case first). */
  function Width(g: Grid): nat { if |g| == 0 then 0 else |g[0]| }

  ghost predicate InGrid(g: Grid, i: int, j: int) { 0 <= i < |g| && 0 <= j < |g[i]| }

  /** Every non-null cell holds a colour the Color constructor accepts. */
  ghost predicate CellsInRange(g: Grid) {
    forall i, j :: InGrid(g, i, j) && g[i][j].Some? ==> InRange(g[i][j].value)
  }

  /** What every grid in the store satisfies. */
  ghost predicate WellFormed(g: Grid) { IsRect(g) && CellsInRange(g) }

  /** No cell is null. */
  ghost predicate AllFilled(g: Grid) {
    forall i, j :: InGrid(g, i, j) ==> g[i][j].Some?
  }

  /** The grid of all-null cells that `new Color[h][w]` allocates. */
  function NullGrid(h: nat, w: nat): (g: Grid)
    ensures |g| == h && IsRect(g) && Width(g) == (if h == 0 then 0 else w)
    ensures forall i, j :: InGrid(g, i, j) ==> g[i][j] == None
  {
    seq(h, i => seq(w, j => None))
  }

  /** Row-major order on positions: (i, j) is visited before (h, w). */
  predicate Before(i: int, j: int, h: int, w: int) { i < h || (i == h && j < w) }

  // ---------------------------------------------------------------------------
  // Integer arithmetic of the transforms

  /** Java's `Math.max(Math.min(x, hi), lo)` with lo <= hi. */
  function Clamp(x: int, lo: int, hi: int): (r: int)
    requires lo <= hi
    ensures lo <= r <= hi
    ensures lo <= x <= hi ==> r == x
    ensures x < lo ==> r == lo
    ensures x > hi ==> r == hi
  {
    if x < lo then lo else if x > hi then hi else x
  }

  /** Java's `(int)` cast of a double: truncation toward zero. (The cast also saturates at the
      32-bit bounds, but every use is followed by a clamp to 0..255, which hides that.) */
  function Trunc(x: real): (r: int)
    ensures 0.0 <= x ==> 0 <= r && r as real <= x < r as real + 1.0
    ensures x < 0.0 ==> r <= 0 && r as real - 1.0 < x <= r as real
  {
    if x >= 0.0 then x.Floor else -((-x).Floor)
  }

  lemma TruncOfInt(n: int)
    ensures Trunc(n as real) == n
  {
  }

  /** Clamp(Trunc(x)) to the channel range, the step every real-weighted transform ends with. */
  function ChannelOfReal(x: real): (c: int)
    ensures ChannelInRange(c)
    ensures x >= MaxChannel as real ==> c == MaxChannel
    ensures x < 1.0 ==> c == 0
    ensures 0.0 <= x < MaxChannel as real ==> c == x.Floor
  {
    Clamp(Trunc(x), 0, MaxChannel)
  }

  const IntMin: int := -0x8000_0000
  const IntMax: int := 0x7fff_ffff

  predicate IsInt32(x: int) { IntMin <= x <= IntMax }

  /** Java `int` addition: the mathematical sum reduced to 32-bit two's complement. */
  function Wrap32(x: int): (r: int)
    ensures IsInt32(r)
    ensures IsInt32(x) ==> r == x
    ensures (r - x) % 0x1_0000_0000 == 0
  {
    var m := (x - IntMin) % 0x1_0000_0000;
    m + IntMin
  }

  // ---------------------------------------------------------------------------
  // Products that the grid and histogram proofs step through

  lemma MulLe(a: nat, b: nat, w: nat)
    requires a <= b
    ensures a * w <= b * w
  {
    assert b * w == a * w + (b - a) * w;
  }

  lemma MulSucc(n: nat, w: nat)
    ensures (n + 1) * w == n * w + w
  {
  }
}
