/** The plain PPM ("P3") text format of the Netpbm suite, as the engine reads and writes it:
    Java's line splitting and whitespace tokenising, the decoder's outcome (which may leave a
    partly filled grid behind), the encoder's text, and the round trip between the two. */
module PlainPpm {
  import opened Pixels

  // ---------------------------------------------------------------------------
  // Lines, as java.util.Scanner.nextLine splits them

  /** The line separators of Scanner.nextLine ("\r\n" counts as one). */
  predicate IsLineTerminator(c: char) {
    c == '\n' || c == '\r' || c == '\U{2028}' || c == '\U{2029}' || c == '\U{0085}'
  }

  predicate NoTerminator(s: string) { forall i :: 0 <= i < |s| ==> !IsLineTerminator(s[i]) }

  /** The length of the first line of s, without its terminator. */
  function LineEnd(s: string): (n: nat)
    ensures n <= |s| && NoTerminator(s[..n])
    ensures n < |s| ==> IsLineTerminator(s[n])
  {
    if s == [] || IsLineTerminator(s[0]) then 0
    else
      var n := 1 + LineEnd(s[1..]);
      assert s[..n] == [s[0]] + s[1..][..n - 1];
      n
  }

  /** The lines `while (sc.hasNextLine()) sc.nextLine()` returns: a final terminator does not
      start another (empty) line. */
  function Lines(s: string): (ls: seq<string>)
    ensures forall i :: 0 <= i < |ls| ==> NoTerminator(ls[i])
    ensures ls == [] <==> s == []
    decreases |s|
  {
    if s == [] then []
    else
      var n := LineEnd(s);
      if n == |s| then [s]
      else
        var skip := if s[n] == '\r' && n + 1 < |s| && s[n + 1] == '\n' then 2 else 1;
        [s[..n]] + Lines(s[n + skip..])
  }

  /** Lines each followed by "\n", as the encoder appends them. */
  function JoinLines(ls: seq<string>): string {
    if ls == [] then "" else ls[0] + "\n" + JoinLines(ls[1..])
  }

  lemma {:induction false} LineEndOfJoin(l: string, rest: string)
    requires NoTerminator(l)
    ensures LineEnd(l + "\n" + rest) == |l|
  {
    if l != [] {
      assert (l + "\n" + rest)[1..] == l[1..] + "\n" + rest;
      LineEndOfJoin(l[1..], rest);
    }
  }

  /** Splitting joined lines gives them back. */
  lemma {:induction false} LinesOfJoin(ls: seq<string>)
    requires forall i :: 0 <= i < |ls| ==> NoTerminator(ls[i])
    ensures Lines(JoinLines(ls)) == ls
  {
    if ls != [] {
      var s := JoinLines(ls);
      var rest := JoinLines(ls[1..]);
      assert s == ls[0] + "\n" + rest;
      LineEndOfJoin(ls[0], rest);
      assert s[|ls[0]|] == '\n';
      assert s[..|ls[0]|] == ls[0];
      assert s[|ls[0]| + 1..] == rest;
      LinesOfJoin(ls[1..]);
    }
  }

  lemma {:induction false} JoinLinesSnoc(ls: seq<string>, l: string)
    ensures JoinLines(ls + [l]) == JoinLines(ls) + l + "\n"
  {
    if ls != [] {
      assert (ls + [l])[1..] == ls[1..] + [l];
      JoinLinesSnoc(ls[1..], l);
    } else {
      assert ls + [l] == [l];
    }
  }

  // ---------------------------------------------------------------------------
  // The decoder's first pass: comment lines dropped, the rest joined

  /** A line the decoder drops (its first character is '#'). */
  predicate IsComment(l: string) { |l| > 0 && l[0] == '#' }

  /** The StringBuilder after the line loop: every kept line followed by a line separator
      (System.lineSeparator(); any choice is whitespace to the tokeniser, "\n" here). */
  function Uncommented(ls: seq<string>): (text: string)
    ensures text == [] || text[|text| - 1] == '\n'
  {
    if ls == [] then ""
    else Uncommented(ls[..|ls| - 1]) + (if IsComment(ls[|ls| - 1]) then "" else ls[|ls| - 1] + "\n")
  }

  /** `s.charAt(0)` throws on the first empty line, before any token is read. */
  predicate HasEmptyLine(ls: seq<string>) { exists i :: 0 <= i < |ls| && ls[i] == "" }

  /** A file of comment lines only rebuilds to the empty text. */
  lemma {:induction false} UncommentedOfComments(ls: seq<string>)
    requires forall i :: 0 <= i < |ls| ==> IsComment(ls[i])
    ensures Uncommented(ls) == ""
  {
    if ls != [] {
      UncommentedOfComments(ls[..|ls| - 1]);
    }
  }

  /** The rebuilt text of two runs of lines is the rebuilt text of each, one after the other. */
  lemma {:induction false} UncommentedAppend(a: seq<string>, b: seq<string>)
    ensures Uncommented(a + b) == Uncommented(a) + Uncommented(b)
    decreases |b|
  {
    if b == [] {
      assert a + b == a;
    } else {
      var init, last := b[..|b| - 1], b[|b| - 1];
      var tail := if IsComment(last) then "" else last + "\n";
      assert (a + b)[..|a + b| - 1] == a + init;
      assert (a + b)[|a + b| - 1] == last;
      assert Uncommented(a + b) == Uncommented(a + init) + tail;
      assert Uncommented(b) == Uncommented(init) + tail;
      UncommentedAppend(a, init);
    }
  }

  /** A comment line anywhere in the file drops only itself. */
  lemma UncommentedDropsComment(a: seq<string>, c: string, b: seq<string>)
    requires IsComment(c)
    ensures Uncommented(a + [c] + b) == Uncommented(a + b)
  {
    UncommentedAppend(a + [c], b);
    UncommentedAppend(a, [c]);
    UncommentedAppend(a, b);
    assert [c][..0] == [];
  }

  lemma {:induction false} UncommentedOfPlain(ls: seq<string>)
    requires forall i :: 0 <= i < |ls| ==> !IsComment(ls[i])
    ensures Uncommented(ls) == JoinLines(ls)
  {
    if ls != [] {
      var init := ls[..|ls| - 1];
      UncommentedOfPlain(init);
      JoinLinesSnoc(init, ls[|ls| - 1]);
      assert init + [ls[|ls| - 1]] == ls;
    }
  }

  // ---------------------------------------------------------------------------
  // Tokens, as java.util.Scanner splits them (delimiter \p{javaWhitespace}+)

  /** Character.isWhitespace: ASCII blanks and separators, and the Unicode space, line and
      paragraph separators except the non-breaking ones. */
  predicate IsWhitespace(c: char) {
    c == ' ' || ('\t' <= c <= '\r') || ('\U{001C}' <= c <= '\U{001F}') || c == '\U{1680}' ||
    ('\U{2000}' <= c <= '\U{2006}') || ('\U{2008}' <= c <= '\U{200A}') || c == '\U{2028}' || c == '\U{2029}' ||
    c == '\U{205F}' || c == '\U{3000}'
  }

  /** Digits, signs and the comment mark are never delimiters, so a number is one token. */
  lemma NumeralsAreNotWhitespace(c: char)
    ensures IsDigit(c) || c == '-' || c == '+' || c == '#' ==> !IsWhitespace(c)
  {
  }

  predicate IsWord(t: string) { |t| > 0 && forall i :: 0 <= i < |t| ==> !IsWhitespace(t[i]) }

  /** The length of the token at the start of s. */
  function TokenEnd(s: string): (n: nat)
    ensures n <= |s|
    ensures n < |s| ==> IsWhitespace(s[n])
    ensures forall i :: 0 <= i < n ==> !IsWhitespace(s[i])
  {
    if s == [] || IsWhitespace(s[0]) then 0 else 1 + TokenEnd(s[1..])
  }

  function Tokens(s: string): (ts: seq<string>)
    ensures forall i :: 0 <= i < |ts| ==> IsWord(ts[i])
    ensures ts == [] <==> forall i :: 0 <= i < |s| ==> IsWhitespace(s[i])
    decreases |s|
  {
    if s == [] then []
    else if IsWhitespace(s[0]) then Tokens(s[1..])
    else
      var n := TokenEnd(s);
      [s[..n]] + Tokens(s[n..])
  }

  lemma {:induction false} TokenEndOfWord(t: string, rest: string)
    requires IsWord(t) && (rest == [] || IsWhitespace(rest[0]))
    ensures TokenEnd(t + rest) == |t|
  {
    if |t| > 1 {
      assert (t + rest)[1..] == t[1..] + rest;
      TokenEndOfWord(t[1..], rest);
    } else {
      assert (t + rest)[1..] == rest;
    }
  }

  /** A word followed by whitespace (or nothing) is the next token. */
  lemma TokensOfWord(t: string, rest: string)
    requires IsWord(t) && (rest == [] || IsWhitespace(rest[0]))
    ensures Tokens(t + rest) == [t] + Tokens(rest)
  {
    TokenEndOfWord(t, rest);
    var s := t + rest;
    assert s[..|t|] == t && s[|t|..] == rest;
  }

  lemma TokensOfSpace(c: char, rest: string)
    requires IsWhitespace(c)
    ensures Tokens([c] + rest) == Tokens(rest)
  {
    assert ([c] + rest)[1..] == rest;
  }

  // ---------------------------------------------------------------------------
  // Integers: Integer.toString (non-negative) and Scanner.nextInt

  predicate IsDigit(c: char) { '0' <= c <= '9' }

  predicate AllDigits(s: string) { forall i :: 0 <= i < |s| ==> IsDigit(s[i]) }

  function DigitChar(d: nat): (c: char)
    requires d < 10
    ensures IsDigit(c) && c as int - '0' as int == d
  {
    ['0', '1', '2', '3', '4', '5', '6', '7', '8', '9'][d]
  }

  /** The decimal value of a string of digits. */
  function DigitsValue(s: string): nat
    requires AllDigits(s)
  {
    if s == [] then 0 else 10 * DigitsValue(s[..|s| - 1]) + (s[|s| - 1] as int - '0' as int)
  }

  /** `Integer.toString(n)` for n >= 0: decimal, no leading zeros. */
  function NatToString(n: nat): (s: string)
    ensures |s| > 0 && AllDigits(s)
    ensures n > 0 ==> s[0] != '0'
    ensures |s| == 1 <==> n < 10
  {
    if n < 10 then [DigitChar(n)] else NatToString(n / 10) + [DigitChar(n % 10)]
  }

  /** Integer.parseInt reads back what Integer.toString wrote. */
  lemma {:induction false} NatToStringValue(n: nat)
    ensures IsWord(NatToString(n)) && AllDigits(NatToString(n))
    ensures DigitsValue(NatToString(n)) == n
  {
    if n >= 10 {
      var s := NatToString(n);
      NatToStringValue(n / 10);
      assert s[..|s| - 1] == NatToString(n / 10);
    }
  }

  /** A token Scanner.nextInt reads as a decimal integer: an optional sign and ASCII digits.
      (Locale grouping separators and non-ASCII digits are not part of this model.) */
  predicate IsIntToken(t: string) {
    if |t| > 0 && (t[0] == '-' || t[0] == '+') then |t| > 1 && AllDigits(t[1..])
    else |t| > 0 && AllDigits(t)
  }

  function TokenValue(t: string): int
    requires IsIntToken(t)
  {
    if t[0] == '-' then -(DigitsValue(t[1..]) as int)
    else if t[0] == '+' then DigitsValue(t[1..])
    else DigitsValue(t)
  }

  /** `sc.nextInt()` on token `pos`: NoSuchElementException past the end, InputMismatchException
      for a token that is no 32-bit integer. */
  function NextInt(toks: seq<string>, pos: nat): (r: Result<int>)
    ensures r.Ok? ==> IsInt32(r.value)
    ensures r.Err? ==> (r.error == NoSuchElement <==> pos >= |toks|)
    ensures r.Err? ==> r.error in {NoSuchElement, InputMismatch}
  {
    if pos >= |toks| then Err(NoSuchElement)
    else if IsIntToken(toks[pos]) && IsInt32(TokenValue(toks[pos])) then Ok(TokenValue(toks[pos]))
    else Err(InputMismatch)
  }

  lemma NextIntOfNat(toks: seq<string>, pos: nat, n: nat)
    requires pos < |toks| && toks[pos] == NatToString(n) && n <= IntMax
    ensures NextInt(toks, pos) == Ok(n)
  {
    NatToStringValue(n);
    var t := NatToString(n);
    assert IsDigit(t[0]);
  }

  // ---------------------------------------------------------------------------
  // The decoder

  /** Three `nextInt` calls and `new Color(r, g, b)`, for the pixel whose red token is `pos`. */
  function ReadTriple(toks: seq<string>, pos: nat): (c: Result<Rgb>)
    ensures c.Ok? ==> InRange(c.value)
  {
    match NextInt(toks, pos)
    case Err(e) => Err(e)
    case Ok(r) =>
      match NextInt(toks, pos + 1)
      case Err(e) => Err(e)
      case Ok(g) =>
        match NextInt(toks, pos + 2)
        case Err(e) => Err(e)
        case Ok(b) => NewColor(r, g, b)
  }

  /** The pixels read while decoding, and the exception that stopped the reading, if any. */
  datatype CellsRead = CellsRead(cells: seq<Rgb>, error: Option<Error>)

  /** The first n pixels of the body, row-major; pixel k's triple starts at token 4 + 3k
      (after P3, width, height and maxval). Reading stops at the first failing triple. */
  function ReadCells(toks: seq<string>, n: nat): (c: CellsRead)
    ensures |c.cells| <= n
    ensures c.error.None? <==> |c.cells| == n
    ensures forall k :: 0 <= k < |c.cells| ==> InRange(c.cells[k])
  {
    if n == 0 then CellsRead([], None)
    else
      var prev := ReadCells(toks, n - 1);
      if prev.error.Some? then prev
      else
        match ReadTriple(toks, 4 + 3 * (n - 1))
        case Ok(p) => CellsRead(prev.cells + [p], None)
        case Err(e) => CellsRead(prev.cells, Some(e))
  }

  /** Once reading has stopped, asking for more pixels changes nothing. */
  lemma {:induction false} ReadCellsStopped(toks: seq<string>, m: nat, n: nat)
    requires m <= n && ReadCells(toks, m).error.Some?
    ensures ReadCells(toks, n) == ReadCells(toks, m)
    decreases n
  {
    if n > m {
      ReadCellsStopped(toks, m, n - 1);
    }
  }

  /** The `Color[height][width]` after the body loop: the pixels read so far in row-major
      order, null from the first unread cell on. */
  function GridOf(cells: seq<Rgb>, height: nat, width: nat): (g: Grid)
    ensures |g| == height && forall i :: 0 <= i < height ==> |g[i]| == width
  {
    seq(height, i requires 0 <= i < height => seq(width, j requires 0 <= j < width =>
      if i * width + j < |cells| then Some(cells[i * width + j]) else None))
  }

  /** The grid of pixels that passed the Color range check is one the store accepts. */
  lemma GridOfWellFormed(cells: seq<Rgb>, height: nat, width: nat)
    requires forall k :: 0 <= k < |cells| ==> InRange(cells[k])
    ensures WellFormed(GridOf(cells, height, width))
  {
  }

  /** What loadImage does: whether it printed the "should begin with P3" warning, the grid it
      put under the name (None: the store is unchanged), and the exception it ended with. */
  datatype Loaded = Loaded(warned: bool, grid: Option<Grid>, error: Option<Error>)

  /** The header tokens after the magic number, then the body. The grid is put only once width,
      height and maxval were read as integers and neither dimension is negative; it then has
      `height` rows of `width` cells. */
  function DecodeHeader(toks: seq<string>): (d: Loaded)
    requires |toks| > 0
    ensures d.warned <==> toks[0] != "P3"
    ensures d.grid.Some? <==>
      NextInt(toks, 1).Ok? && NextInt(toks, 2).Ok? && NextInt(toks, 3).Ok? &&
      NextInt(toks, 1).value >= 0 && NextInt(toks, 2).value >= 0
    ensures d.grid.Some? ==>
      WellFormed(d.grid.value) && |d.grid.value| == NextInt(toks, 2).value &&
      forall i :: 0 <= i < |d.grid.value| ==> |d.grid.value[i]| == NextInt(toks, 1).value
    ensures d.grid.None? ==> d.error.Some?
  {
    var warned := toks[0] != "P3";
    match NextInt(toks, 1)
    case Err(e) => Loaded(warned, None, Some(e))
    case Ok(width) =>
      match NextInt(toks, 2)
      case Err(e) => Loaded(warned, None, Some(e))
      case Ok(height) =>
        match NextInt(toks, 3)
        case Err(e) => Loaded(warned, None, Some(e))
        case Ok(_) =>
          if width < 0 || height < 0 then Loaded(warned, None, Some(NegativeArraySize))
          else DecodeBody(toks, warned, height, width)
  }

  /** After the header: `height * width` triples into a fresh `Color[height][width]`. */
  function DecodeBody(toks: seq<string>, warned: bool, height: nat, width: nat): (d: Loaded)
    ensures d.grid.Some? && WellFormed(d.grid.value)
  {
    var rc := ReadCells(toks, height * width);
    GridOfWellFormed(rc.cells, height, width);
    Loaded(warned, Some(GridOf(rc.cells, height, width)), rc.error)
  }

  /** loadImage on a file whose content is `text`. The maxval token must be an integer but is
      otherwise ignored; a missing P3 only warns. */
  function DecodePlain(text: string): (d: Loaded)
    ensures d.grid.Some? ==> WellFormed(d.grid.value)
  {
    var ls := Lines(text);
    if HasEmptyLine(ls) then Loaded(false, None, Some(IndexOutOfBounds))
    else
      var toks := Tokens(Uncommented(ls));
      if |toks| == 0 then Loaded(false, None, Some(NoSuchElement))
      else DecodeHeader(toks)
  }

  // ---------------------------------------------------------------------------
  // The encoder

  /** `red + " " + green + " " + blue + " "`, one line per pixel. */
  function PixelLine(p: Rgb): (l: string)
    requires InRange(p)
    ensures NoTerminator(l) && l != "" && !IsComment(l)
  {
    var r, g, b := NatToString(p.r), NatToString(p.g), NatToString(p.b);
    NatToStringValue(p.r);
    NatToStringValue(p.g);
    NatToStringValue(p.b);
    SpacedThree(r, g, b, ' ', ' ', ' ');
    TokensOfSpaced([r, g, b], [' ', ' ', ' '], "");
    assert Spaced([r, g, b], [' ', ' ', ' ']) + "" == r + " " + g + " " + b + " ";
    assert DigitsOrSpaces(" ");
    DigitsOrSpacesConcat(r, " ");
    DigitsOrSpacesConcat(r + " ", g);
    DigitsOrSpacesConcat(r + " " + g, " ");
    DigitsOrSpacesConcat(r + " " + g + " ", b);
    DigitsOrSpacesConcat(r + " " + g + " " + b, " ");
    assert (r + " " + g + " " + b + " ")[0] == r[0];
    DigitLinePlain(r + " " + g + " " + b + " ");
    r + " " + g + " " + b + " "
  }

  function PixelLines(ps: seq<Rgb>): (ls: seq<string>)
    requires forall k :: 0 <= k < |ps| ==> InRange(ps[k])
    ensures |ls| == |ps|
  {
    seq(|ps|, k requires 0 <= k < |ps| => PixelLine(ps[k]))
  }

  /** The colours of a complete grid in row-major order. */
  function Flatten(g: Grid): (ps: seq<Rgb>)
    requires AllFilled(g)
    ensures CellsInRange(g) ==> forall k :: 0 <= k < |ps| ==> InRange(ps[k])
  {
    if g == [] then []
    else
      var init := g[..|g| - 1];
      var last := g[|g| - 1];
      assert AllFilled(init) && (CellsInRange(g) ==> CellsInRange(init)) by {
        forall i, j | InGrid(init, i, j) ensures init[i][j] == g[i][j] { assert InGrid(g, i, j); }
      }
      assert forall j :: 0 <= j < |last| ==> last[j].Some? && (CellsInRange(g) ==> InRange(last[j].value)) by {
        forall j | 0 <= j < |last| ensures last[j].Some? && (CellsInRange(g) ==> InRange(last[j].value)) {
          assert InGrid(g, |g| - 1, j);
        }
      }
      Flatten(init) + RowColours(last)
  }

  function RowColours(row: seq<Cell>): seq<Rgb>
    requires forall j :: 0 <= j < |row| ==> row[j].Some?
  {
    seq(|row|, j requires 0 <= j < |row| => row[j].value)
  }

  /** The lines of saveImage's text: P3, `width height`, 255, then one line per pixel. */
  function EncodeLines(g: Grid): (ls: seq<string>)
    requires WellFormed(g) && AllFilled(g)
    ensures |ls| == 3 + |g| * Width(g)
    ensures forall i :: 0 <= i < |ls| ==> NoTerminator(ls[i]) && ls[i] != "" && !IsComment(ls[i])
  {
    HeaderLinePlain(Width(g), |g|);
    FlattenLength(g);
    ["P3", NatToString(Width(g)) + " " + NatToString(|g|), "255"] + PixelLines(Flatten(g))
  }

  /** The `width height` line is one non-empty line and no comment. */
  lemma HeaderLinePlain(w: nat, h: nat)
    ensures var l := NatToString(w) + " " + NatToString(h);
      NoTerminator(l) && l != "" && !IsComment(l)
  {
    var sw, sh := NatToString(w), NatToString(h);
    NatToStringValue(w);
    NatToStringValue(h);
    assert DigitsOrSpaces(" ");
    DigitsOrSpacesConcat(sw, " ");
    DigitsOrSpacesConcat(sw + " ", sh);
    assert (sw + " " + sh)[0] == sw[0];
    DigitLinePlain(sw + " " + sh);
  }

  /** The text saveImage writes for a `.ppm` file name. */
  function EncodePlain(g: Grid): (text: string)
    requires WellFormed(g) && AllFilled(g)
    ensures Lines(text) == EncodeLines(g)
  {
    LinesOfJoin(EncodeLines(g));
    JoinLines(EncodeLines(g))
  }

  /** The facts about a grid that carry over to the grid without its last row. */
  lemma InitOf(g: Grid)
    requires |g| > 0
    ensures var init := g[..|g| - 1];
      (IsRect(g) ==> IsRect(init) && (|g| > 1 ==> Width(init) == Width(g))) &&
      (AllFilled(g) ==> AllFilled(init)) &&
      (CellsInRange(g) ==> CellsInRange(init))
  {
    var init := g[..|g| - 1];
    forall i, j | InGrid(init, i, j) ensures InGrid(g, i, j) && init[i][j] == g[i][j] { }
  }

  lemma {:induction false} FlattenLength(g: Grid)
    requires IsRect(g) && AllFilled(g)
    ensures |Flatten(g)| == |g| * Width(g)
  {
    if g != [] {
      var init := g[..|g| - 1];
      var last := g[|g| - 1];
      var n, w := |init|, Width(g);
      InitOf(g);
      FlattenLength(init);
      assert |last| == w;
      assert |Flatten(g)| == |Flatten(init)| + |last|;
      if n == 0 {
        assert init == [];
      } else {
        assert |Flatten(init)| == n * w;
      }
      MulSucc(n, w);
    }
  }

  /** Cell (i, j) of a complete grid is colour i * width + j of its flattening. */
  lemma {:induction false} FlattenAt(g: Grid, i: nat, j: nat)
    requires IsRect(g) && AllFilled(g) && i < |g| && j < Width(g)
    ensures i * Width(g) + j < |Flatten(g)| && Flatten(g)[i * Width(g) + j] == g[i][j].value
  {
    var w := Width(g);
    var init := g[..|g| - 1];
    InitOf(g);
    FlattenLength(g);
    FlattenLength(init);
    assert |g[|g| - 1]| == w;
    if i < |g| - 1 {
      FlattenAt(init, i, j);
      MulLe(i + 1, |g| - 1, w);
      assert i * w + j < (i + 1) * w;
    } else if |g| == 1 {
      assert init == [];
    } else {
      assert |Flatten(init)| == i * w;
    }
  }

  // ---------------------------------------------------------------------------
  // The round trip

  /** The tokens of the pixel lines: three per pixel, red first. */
  function PixelTokens(ps: seq<Rgb>): seq<string>
    requires forall k :: 0 <= k < |ps| ==> InRange(ps[k])
  {
    if ps == [] then []
    else
      assert InRange(ps[0]);
      [NatToString(ps[0].r), NatToString(ps[0].g), NatToString(ps[0].b)] + PixelTokens(ps[1..])
  }

  lemma {:induction false} PixelTokensAt(ps: seq<Rgb>, k: nat)
    requires forall q :: 0 <= q < |ps| ==> InRange(ps[q])
    requires k < |ps|
    ensures |PixelTokens(ps)| == 3 * |ps|
    ensures PixelTokens(ps)[3 * k] == NatToString(ps[k].r)
    ensures PixelTokens(ps)[3 * k + 1] == NatToString(ps[k].g)
    ensures PixelTokens(ps)[3 * k + 2] == NatToString(ps[k].b)
  {
    var p := ps[0];
    var tail := PixelTokens(ps[1..]);
    assert PixelTokens(ps) == [NatToString(p.r), NatToString(p.g), NatToString(p.b)] + tail;
    if |ps| > 1 {
      PixelTokensAt(ps[1..], if k > 0 then k - 1 else 0);
    } else {
      assert ps[1..] == [];
    }
    if k > 0 {
      assert ps[k] == ps[1..][k - 1];
      assert 3 * k == 3 * (k - 1) + 3;
    }
  }

  /** A word and one whitespace character: the word is the next token. */
  lemma TokensOfWordSep(t: string, c: char, rest: string)
    requires IsWord(t) && IsWhitespace(c)
    ensures Tokens(t + [c] + rest) == [t] + Tokens(rest)
  {
    assert t + [c] + rest == t + ([c] + rest);
    TokensOfWord(t, [c] + rest);
    TokensOfSpace(c, rest);
  }

  /** Words, each followed by its own whitespace character. */
  function Spaced(ws: seq<string>, seps: seq<char>): string
    requires |ws| == |seps|
  {
    if ws == [] then "" else ws[0] + [seps[0]] + Spaced(ws[1..], seps[1..])
  }

  /** Tokenising words separated by whitespace gives the words back. */
  lemma {:induction false} TokensOfSpaced(ws: seq<string>, seps: seq<char>, tail: string)
    requires |ws| == |seps|
    requires forall k :: 0 <= k < |ws| ==> IsWord(ws[k]) && IsWhitespace(seps[k])
    ensures Tokens(Spaced(ws, seps) + tail) == ws + Tokens(tail)
  {
    if ws != [] {
      var rest := Spaced(ws[1..], seps[1..]) + tail;
      assert Spaced(ws, seps) + tail == ws[0] + [seps[0]] + rest;
      TokensOfWordSep(ws[0], seps[0], rest);
      TokensOfSpaced(ws[1..], seps[1..], tail);
      ConsAppend(ws, Tokens(tail));
    } else {
      assert Spaced(ws, seps) + tail == tail;
    }
  }

  lemma ConsAppend<T>(xs: seq<T>, ys: seq<T>)
    requires xs != []
    ensures [xs[0]] + (xs[1..] + ys) == xs + ys
  {
    assert xs == [xs[0]] + xs[1..];
  }

  lemma Assoc<T>(a: seq<T>, b: seq<T>, c: seq<T>)
    ensures (a + b) + c == a + (b + c)
  {
  }

  /** The three header lines and then the rest, each followed by a newline. */
  lemma JoinThreeLines(x: string, y: string, z: string, rest: seq<string>)
    ensures JoinLines([x, y, z] + rest) == (x + "\n") + ((y + "\n") + ((z + "\n") + JoinLines(rest)))
  {
    var ls := [x, y, z] + rest;
    assert ls[1..] == [y, z] + rest && ls[1..][1..] == [z] + rest && ls[1..][1..][1..] == rest;
    assert JoinLines([z] + rest) == (z + "\n") + JoinLines(rest);
    assert JoinLines([y, z] + rest) == (y + "\n") + JoinLines([z] + rest);
  }

  lemma SpacedFour(w1: string, w2: string, w3: string, w4: string, c1: char, c2: char, c3: char, c4: char)
    ensures Spaced([w1, w2, w3, w4], [c1, c2, c3, c4]) == (w1 + [c1]) + ((w2 + [c2]) + ((w3 + [c3]) + (w4 + [c4])))
  {
    assert [w1, w2, w3, w4][1..] == [w2, w3, w4] && [c1, c2, c3, c4][1..] == [c2, c3, c4];
    assert [w2, w3, w4][1..] == [w3, w4] && [c2, c3, c4][1..] == [c3, c4];
    assert [w3, w4][1..] == [w4] && [c3, c4][1..] == [c4];
    assert Spaced([w4], [c4]) == w4 + [c4];
    assert Spaced([w3, w4], [c3, c4]) == (w3 + [c3]) + (w4 + [c4]);
    assert Spaced([w2, w3, w4], [c2, c3, c4]) == (w2 + [c2]) + ((w3 + [c3]) + (w4 + [c4]));
  }

  lemma SpacedThree(w1: string, w2: string, w3: string, c1: char, c2: char, c3: char)
    ensures Spaced([w1, w2, w3], [c1, c2, c3]) == w1 + [c1] + w2 + [c2] + w3 + [c3]
  {
    assert [w1, w2, w3][1..] == [w2, w3] && [c1, c2, c3][1..] == [c2, c3];
    assert [w2, w3][1..] == [w3] && [c2, c3][1..] == [c3];
    assert Spaced([w3], [c3]) == w3 + [c3];
  }

  lemma TokensOfPixelLine(p: Rgb, tail: string)
    requires InRange(p)
    ensures Tokens(PixelLine(p) + tail) ==
            [NatToString(p.r), NatToString(p.g), NatToString(p.b)] + Tokens(tail)
  {
    NatToStringValue(p.r);
    NatToStringValue(p.g);
    NatToStringValue(p.b);
    var r, g, b := NatToString(p.r), NatToString(p.g), NatToString(p.b);
    SpacedThree(r, g, b, ' ', ' ', ' ');
    assert PixelLine(p) == Spaced([r, g, b], [' ', ' ', ' ']);
    TokensOfSpaced([r, g, b], [' ', ' ', ' '], tail);
  }

  lemma {:induction false} TokensOfPixelLines(ps: seq<Rgb>)
    requires forall k :: 0 <= k < |ps| ==> InRange(ps[k])
    ensures Tokens(JoinLines(PixelLines(ps))) == PixelTokens(ps)
  {
    if ps != [] {
      var ls := PixelLines(ps);
      assert ls[1..] == PixelLines(ps[1..]);
      TokensOfPixelLines(ps[1..]);
      TokensOfPixelLine(ps[0], "\n" + JoinLines(ls[1..]));
      TokensOfSpace('\n', JoinLines(ls[1..]));
      assert JoinLines(ls) == PixelLine(ps[0]) + ("\n" + JoinLines(ls[1..]));
    }
  }

  function HeaderWords(g: Grid): seq<string> {
    ["P3", NatToString(Width(g)), NatToString(|g|), "255"]
  }

  const HeaderSeps: seq<char> := ['\n', ' ', '\n', '\n']

  lemma EncodingIsSpaced(g: Grid)
    requires WellFormed(g) && AllFilled(g)
    ensures EncodePlain(g) == Spaced(HeaderWords(g), HeaderSeps) + JoinLines(PixelLines(Flatten(g)))
  {
    var w, h := NatToString(Width(g)), NatToString(|g|);
    var body := JoinLines(PixelLines(Flatten(g)));
    JoinThreeLines("P3", w + " " + h, "255", PixelLines(Flatten(g)));
    SpacedFour("P3", w, h, "255", '\n', ' ', '\n', '\n');
    var p, a, b, q := "P3" + "\n", w + " ", h + "\n", "255" + "\n";
    calc {
      Spaced(HeaderWords(g), HeaderSeps) + body;
      (p + (a + (b + q))) + body;
      { Assoc(p, a + (b + q), body); }
      p + ((a + (b + q)) + body);
      { Assoc(a, b + q, body); Assoc(b, q, body); }
      p + (a + (b + (q + body)));
      { Assoc(a, b, q + body); Assoc(w + " ", h, "\n"); }
      p + ((w + " " + h + "\n") + (q + body));
      EncodePlain(g);
    }
  }

  lemma TokensOfEncoding(g: Grid)
    requires WellFormed(g) && AllFilled(g)
    ensures Tokens(EncodePlain(g)) == HeaderWords(g) + PixelTokens(Flatten(g))
  {
    var ps := Flatten(g);
    EncodingIsSpaced(g);
    HeaderTokens(Width(g), |g|, JoinLines(PixelLines(ps)));
    TokensOfPixelLines(ps);
  }

  /** The four header words, each followed by its separator, tokenise back to themselves. */
  lemma HeaderTokens(w: nat, h: nat, body: string)
    ensures var ws := ["P3", NatToString(w), NatToString(h), "255"];
      Tokens(Spaced(ws, HeaderSeps) + body) == ws + Tokens(body)
  {
    NatToStringValue(w);
    NatToStringValue(h);
    var ws := ["P3", NatToString(w), NatToString(h), "255"];
    assert IsWord(ws[0]) && IsWord(ws[3]);
    TokensOfSpaced(ws, HeaderSeps, body);
  }

  lemma ReadTripleOfPixel(toks: seq<string>, pos: nat, p: Rgb)
    requires InRange(p) && pos + 2 < |toks|
    requires toks[pos] == NatToString(p.r) && toks[pos + 1] == NatToString(p.g)
    requires toks[pos + 2] == NatToString(p.b)
    ensures ReadTriple(toks, pos) == Ok(p)
  {
    NextIntOfNat(toks, pos, p.r);
    NextIntOfNat(toks, pos + 1, p.g);
    NextIntOfNat(toks, pos + 2, p.b);
  }

  /** Pixel k of an encoding's body is read back from its three tokens. */
  lemma ReadTripleAt(toks: seq<string>, ps: seq<Rgb>, k: nat)
    requires forall q :: 0 <= q < |ps| ==> InRange(ps[q])
    requires k < |ps| && |toks| >= 4 && toks[4..] == PixelTokens(ps)
    ensures ReadTriple(toks, 4 + 3 * k) == Ok(ps[k])
  {
    PixelTokensAt(ps, k);
    var body := toks[4..];
    assert toks[4 + 3 * k] == body[3 * k];
    assert toks[4 + 3 * k + 1] == body[3 * k + 1];
    assert toks[4 + 3 * k + 2] == body[3 * k + 2];
    ReadTripleOfPixel(toks, 4 + 3 * k, ps[k]);
  }

  /** One more successful triple extends what was read by one pixel. */
  lemma ReadCellsStep(toks: seq<string>, m: nat, p: Rgb)
    requires ReadCells(toks, m).error.None?
    requires ReadTriple(toks, 4 + 3 * m) == Ok(p)
    ensures ReadCells(toks, m + 1) == CellsRead(ReadCells(toks, m).cells + [p], None)
  {
    assert 4 + 3 * ((m + 1) - 1) == 4 + 3 * m;
  }

  lemma TakeSnoc<T>(xs: seq<T>, n: nat)
    requires 0 < n <= |xs|
    ensures xs[..n] == xs[..n - 1] + [xs[n - 1]]
  {
  }

  /** The body tokens of an encoding read back as its pixels. */
  lemma {:induction false} ReadCellsOfPixels(toks: seq<string>, ps: seq<Rgb>, n: nat)
    requires forall k :: 0 <= k < |ps| ==> InRange(ps[k])
    requires n <= |ps| && |toks| >= 4 && toks[4..] == PixelTokens(ps)
    ensures ReadCells(toks, n) == CellsRead(ps[..n], None)
  {
    if n > 0 {
      var m := n - 1;
      ReadCellsOfPixels(toks, ps, m);
      ReadTripleAt(toks, ps, m);
      ReadCellsStep(toks, m, ps[m]);
      TakeSnoc(ps, n);
    }
  }

  predicate DigitsOrSpaces(l: string) { forall i :: 0 <= i < |l| ==> IsDigit(l[i]) || l[i] == ' ' }

  lemma DigitsOrSpacesConcat(a: string, b: string)
    requires DigitsOrSpaces(a) && DigitsOrSpaces(b)
    ensures DigitsOrSpaces(a + b)
  {
    forall i | 0 <= i < |a + b| ensures IsDigit((a + b)[i]) || (a + b)[i] == ' ' {
      if i >= |a| { assert (a + b)[i] == b[i - |a|]; }
    }
  }

  /** Decimal words joined by spaces, starting with a word: a line the decoder keeps. */
  lemma DigitLinePlain(l: string)
    requires DigitsOrSpaces(l) && |l| > 0 && IsDigit(l[0])
    ensures NoTerminator(l) && l != "" && !IsComment(l)
  {
  }

  /** Regrouping the flattening of a complete grid by its width gives the grid back. */
  lemma GridOfFlatten(g: Grid)
    requires IsRect(g) && AllFilled(g)
    ensures |Flatten(g)| == |g| * Width(g)
    ensures GridOf(Flatten(g), |g|, Width(g)) == g
  {
    FlattenLength(g);
    var d := GridOf(Flatten(g), |g|, Width(g));
    forall i | 0 <= i < |g| ensures d[i] == g[i] {
      forall j | 0 <= j < Width(g) ensures d[i][j] == g[i][j] {
        FlattenAt(g, i, j);
      }
    }
  }

  /** The body reader never looks at token 0. */
  lemma {:induction false} ReadCellsIgnoresFirst(toks: seq<string>, other: seq<string>, n: nat)
    requires |toks| == |other| > 0 && toks[1..] == other[1..]
    ensures ReadCells(toks, n) == ReadCells(other, n)
  {
    if n > 0 {
      ReadCellsIgnoresFirst(toks, other, n - 1);
      ReadTripleIgnoresFirst(toks, other, 4 + 3 * (n - 1));
    }
  }

  lemma ReadTripleIgnoresFirst(toks: seq<string>, other: seq<string>, pos: nat)
    requires |toks| == |other| > 0 && toks[1..] == other[1..] && pos >= 1
    ensures ReadTriple(toks, pos) == ReadTriple(other, pos)
  {
    NextIntIgnoresFirst(toks, other, pos);
    NextIntIgnoresFirst(toks, other, pos + 1);
    NextIntIgnoresFirst(toks, other, pos + 2);
  }

  lemma NextIntIgnoresFirst(toks: seq<string>, other: seq<string>, pos: nat)
    requires |toks| == |other| > 0 && toks[1..] == other[1..] && pos >= 1
    ensures NextInt(toks, pos) == NextInt(other, pos)
  {
    if pos < |toks| {
      assert toks[pos] == toks[1..][pos - 1];
      assert other[pos] == other[1..][pos - 1];
    }
  }

  /** A first token other than P3 only makes loadImage print its warning: the decoding goes
      on exactly as for P3. */
  lemma MagicOnlyWarns(toks: seq<string>, magic: string)
    requires |toks| > 0 && toks[0] == "P3"
    ensures var d := DecodeHeader([magic] + toks[1..]);
      d == DecodeHeader(toks).(warned := magic != "P3")
  {
    var other := [magic] + toks[1..];
    assert other[1..] == toks[1..];
    NextIntIgnoresFirst(other, toks, 1);
    NextIntIgnoresFirst(other, toks, 2);
    NextIntIgnoresFirst(other, toks, 3);
    forall n: nat ensures ReadCells(other, n) == ReadCells(toks, n) {
      ReadCellsIgnoresFirst(other, toks, n);
    }
  }

  /** A header of P3 and three integers, width and height not negative. */
  lemma DecodeHeaderValid(toks: seq<string>, w: nat, h: nat)
    requires |toks| >= 4 && toks[0] == "P3"
    requires NextInt(toks, 1) == Ok(w) && NextInt(toks, 2) == Ok(h) && NextInt(toks, 3).Ok?
    ensures var rc := ReadCells(toks, h * w);
      DecodeHeader(toks) == Loaded(false, Some(GridOf(rc.cells, h, w)), rc.error)
  {
  }

  /** A header and pixel tokens as the encoder writes them decode to the pixels, regrouped. */
  lemma DecodeHeaderOfBody(ps: seq<Rgb>, w: nat, h: nat)
    requires forall k :: 0 <= k < |ps| ==> InRange(ps[k])
    requires |ps| == h * w && w <= IntMax && h <= IntMax
    ensures DecodeHeader(["P3", NatToString(w), NatToString(h), "255"] + PixelTokens(ps)) ==
            Loaded(false, Some(GridOf(ps, h, w)), None)
  {
    var toks := ["P3", NatToString(w), NatToString(h), "255"] + PixelTokens(ps);
    NextIntOfNat(toks, 1, w);
    NextIntOfNat(toks, 2, h);
    NextIntOfNat(toks, 3, 255);
    DecodeHeaderValid(toks, w, h);
    assert toks[4..] == PixelTokens(ps);
    ReadCellsOfPixels(toks, ps, h * w);
    assert ps[..h * w] == ps;
  }

  /** The header and body tokens of an encoding decode to its grid. */
  lemma DecodeHeaderOfEncoding(g: Grid)
    requires WellFormed(g) && AllFilled(g) && |g| <= IntMax && Width(g) <= IntMax
    ensures DecodeHeader(HeaderWords(g) + PixelTokens(Flatten(g))) == Loaded(false, Some(g), None)
  {
    GridOfFlatten(g);
    DecodeHeaderOfBody(Flatten(g), Width(g), |g|);
  }

  /** Decoding the text the encoder writes gives back the grid, without a warning, for every
      complete grid with at least one row (the encoder needs row 0 for the width). */
  lemma RoundTrip(g: Grid)
    requires WellFormed(g) && AllFilled(g) && |g| > 0 && |g| <= IntMax && Width(g) <= IntMax
    ensures DecodePlain(EncodePlain(g)) == Loaded(false, Some(g), None)
  {
    var ls := EncodeLines(g);
    assert !HasEmptyLine(ls);
    UncommentedOfPlain(ls);
    TokensOfEncoding(g);
    DecodeHeaderOfEncoding(g);
  }
}
