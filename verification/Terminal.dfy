/** The text terminal: an unbounded page of lines, and the 18 by 78 grid that shows its end. */
module TextPage {
  import opened Bytes
  import opened Chunks

  const ROWS: nat := 18
  const COLS: nat := 78
  const TAB_STOP: nat := 4
  const BLANK: Byte := 32
  const NEWLINE: Byte := 10
  const RETURN: Byte := 13
  const TAB: Byte := 9

  datatype Cell = Cell(ch: Byte, attr: Byte)

  /** A foreground and a background colour in one byte. */
  function VgaAttr(fg: nat, bg: nat): Byte
    requires fg < 16 && bg < 16
  {
    16 * bg + fg
  }

  const STYLE_DEFAULT: Byte := VgaAttr(0xB, 0)
  const CURSOR: Cell := Cell(BLANK, VgaAttr(0, 0xB))

  // ---- the page ------------------------------------------------------------------

  /** Lines of text, the last one still being written. */
  type Lines = seq<seq<Cell>>

  ghost predicate Fits(lines: Lines) {
    lines != [] && forall i | 0 <= i < |lines| :: |lines[i]| <= COLS
  }

  function Last(lines: Lines): seq<Cell>
    requires lines != []
  {
    lines[|lines| - 1]
  }

  ghost predicate PageOk(lines: Lines) {
    Fits(lines) && |Last(lines)| < COLS
  }

  function Append(lines: Lines, cell: Cell): Lines
    requires lines != []
  {
    lines[|lines| - 1 := Last(lines) + [cell]]
  }

  /** The column a tab moves to: the next multiple of 4, but not past the last column. */
  function NextStop(col: nat): nat {
    var next := (col + TAB_STOP) / TAB_STOP * TAB_STOP;
    if next >= COLS then COLS - 1 else next
  }

  function Spaces(lines: Lines, n: nat, style: Byte): (r: Lines)
    requires lines != []
    ensures |r| == |lines|
    decreases n
  {
    if n == 0 then lines else Spaces(Append(lines, Cell(BLANK, style)), n - 1, style)
  }

  /** A full line is followed by a new one. */
  function Wrapped(lines: Lines): Lines
    requires lines != []
  {
    if |Last(lines)| >= COLS then lines + [[]] else lines
  }

  /** Typing one character. */
  function Put(lines: Lines, c: Byte, style: Byte): (r: Lines)
    requires lines != []
    ensures |r| >= |lines|
  {
    if c == NEWLINE || c == RETURN then lines + [[]]
    else if c == TAB then
      var col := |Last(lines)|;
      if NextStop(col) > col then Spaces(lines, NextStop(col) - col, style) else lines
    else Wrapped(Append(lines, Cell(c, style)))
  }

  /** A tab moves right, to a multiple of 4 or to the last column, where it stays. */
  lemma NextStopRange(col: nat)
    requires col < COLS
    ensures col <= NextStop(col) < 78 && (NextStop(col) == col <==> col == 77)
    ensures NextStop(col) == 77 || NextStop(col) % 4 == 0
    ensures NextStop(col) <= col + 4
  {
  }

  lemma {:induction false} SpacesOk(lines: Lines, n: nat, style: Byte)
    requires Fits(lines) && |Last(lines)| + n <= COLS
    ensures Fits(Spaces(lines, n, style))
    ensures |Last(Spaces(lines, n, style))| == |Last(lines)| + n
    decreases n
  {
    if n > 0 {
      SpacesOk(Append(lines, Cell(BLANK, style)), n - 1, style);
    }
  }

  lemma PutOk(lines: Lines, c: Byte, style: Byte)
    requires PageOk(lines)
    ensures PageOk(Put(lines, c, style))
  {
    NextStopRange(|Last(lines)|);
    if c == TAB {
      SpacesOk(lines, NextStop(|Last(lines)|) - |Last(lines)|, style);
    }
  }

  function PutAll(lines: Lines, text: seq<Byte>, style: Byte): (r: Lines)
    requires lines != []
    ensures r != []
    decreases |text|
  {
    if text == [] then lines else PutAll(Put(lines, text[0], style), text[1..], style)
  }

  function Blanks(n: nat, style: Byte): (r: seq<Cell>)
    ensures |r| == n
    decreases n
  {
    if n == 0 then [] else [Cell(BLANK, style)] + Blanks(n - 1, style)
  }

  /** What a character puts on the page at column `col`: line breaks leave no cell, a tab
      the blanks up to its stop. */
  function InkOf(c: Byte, col: nat, style: Byte): seq<Cell> {
    if c == NEWLINE || c == RETURN then []
    else if c == TAB then if NextStop(col) > col then Blanks(NextStop(col) - col, style) else []
    else [Cell(c, style)]
  }

  /** The column after it. */
  function ColAfter(c: Byte, col: nat): nat {
    if c == NEWLINE || c == RETURN then 0
    else if c == TAB then if NextStop(col) > col then NextStop(col) else col
    else if col + 1 >= COLS then 0 else col + 1
  }

  function Ink(text: seq<Byte>, col: nat, style: Byte): seq<Cell>
    decreases |text|
  {
    if text == [] then [] else InkOf(text[0], col, style) + Ink(text[1..], ColAfter(text[0], col), style)
  }

  lemma {:induction false} FlatLast(lines: Lines)
    requires lines != []
    ensures Flat(lines) == Flat(lines[..|lines| - 1]) + Last(lines)
  {
    if |lines| == 1 {
      assert lines[1..] == [] && lines[..0] == [];
    } else {
      FlatLast(lines[1..]);
      assert lines[1..][..|lines| - 2] == lines[..|lines| - 1][1..];
    }
  }

  lemma FlatAppend(lines: Lines, cell: Cell)
    requires lines != []
    ensures Flat(Append(lines, cell)) == Flat(lines) + [cell]
    ensures Flat(lines + [[]]) == Flat(lines)
  {
    var typed := Append(lines, cell);
    FlatLast(lines);
    FlatLast(typed);
    FlatLast(lines + [[]]);
    assert (lines + [[]])[..|lines|] == lines && typed[..|typed| - 1] == lines[..|lines| - 1];
  }

  lemma {:induction false} FlatSpaces(lines: Lines, n: nat, style: Byte)
    requires lines != []
    ensures Flat(Spaces(lines, n, style)) == Flat(lines) + Blanks(n, style)
    ensures |Last(Spaces(lines, n, style))| == |Last(lines)| + n
    decreases n
  {
    if n > 0 {
      var more := Append(lines, Cell(BLANK, style));
      FlatAppend(lines, Cell(BLANK, style));
      FlatSpaces(more, n - 1, style);
      Regroup(Flat(Spaces(more, n - 1, style)), Flat(lines), [Cell(BLANK, style)], Blanks(n - 1, style));
    }
  }

  lemma FlatPut(lines: Lines, c: Byte, style: Byte)
    requires lines != []
    ensures Flat(Put(lines, c, style)) == Flat(lines) + InkOf(c, |Last(lines)|, style)
    ensures |Last(Put(lines, c, style))| == ColAfter(c, |Last(lines)|)
  {
    var col, typed := |Last(lines)|, Append(lines, Cell(c, style));
    if c == TAB && NextStop(col) > col {
      FlatSpaces(lines, NextStop(col) - col, style);
    }
    FlatAppend(lines, Cell(c, style));
    FlatAppend(typed, Cell(c, style));
  }

  lemma Regroup(all: seq<Cell>, before: seq<Cell>, first: seq<Cell>, rest: seq<Cell>)
    requires all == (before + first) + rest
    ensures all == before + (first + rest)
  {
  }

  /** Nothing typed is lost or repeated, however the lines wrap. */
  lemma {:induction false} FlatPutAll(lines: Lines, text: seq<Byte>, style: Byte)
    requires lines != []
    ensures Flat(PutAll(lines, text, style)) == Flat(lines) + Ink(text, |Last(lines)|, style)
    decreases |text|
  {
    if text != [] {
      var more, col := Put(lines, text[0], style), |Last(lines)|;
      FlatPut(lines, text[0], style);
      FlatPutAll(more, text[1..], style);
      Regroup(Flat(PutAll(more, text[1..], style)), Flat(lines), InkOf(text[0], col, style),
              Ink(text[1..], ColAfter(text[0], col), style));
    }
  }

  ghost predicate FullBefore(lines: Lines) {
    PageOk(lines) && forall i | 0 <= i < |lines| - 1 :: |lines[i]| == COLS
  }

  /** Plain text fills line after line: with `FlatPutAll`, character `k` typed on an
      empty page is on line `k / 78` at column `k % 78`. */
  lemma {:induction false} PlainTextFills(lines: Lines, text: seq<Byte>, style: Byte)
    requires FullBefore(lines) && forall i | 0 <= i < |text| ::
             text[i] != NEWLINE && text[i] != RETURN && text[i] != TAB
    ensures FullBefore(PutAll(lines, text, style))
    decreases |text|
  {
    if text != [] {
      var more := Put(lines, text[0], style);
      PutOk(lines, text[0], style);
      assert forall i | 0 <= i < |lines| - 1 :: more[i] == lines[i];
      PlainTextFills(more, text[1..], style);
    }
  }

  // ---- the page as a whole ------------------------------------------------------------

  predicate IsBreak(c: Byte) {
    c == 10 || c == 13
  }

  /** Cells set in lines of 78; the last line is never full. */
  function Set(cells: seq<Cell>): (r: Lines)
    ensures r != []
    decreases |cells|
  {
    if |cells| < 78 then [cells] else [cells[..78]] + Set(cells[78..])
  }

  /** Where the first line break is, or the end. */
  function FirstBreak(text: seq<Byte>): (i: nat)
    ensures i <= |text| && forall j | 0 <= j < i :: !IsBreak(text[j])
    ensures i < |text| ==> IsBreak(text[i])
  {
    if text == [] || IsBreak(text[0]) then 0 else 1 + FirstBreak(text[1..])
  }

  /** How a text stands on the page: what lies between two breaks is set by itself, one
      piece directly below the other. */
  function Standing(text: seq<Byte>, style: Byte): (r: Lines)
    ensures r != []
    decreases |text|
  {
    var i := FirstBreak(text);
    if i == |text| then Set(Ink(text, 0, style))
    else Set(Ink(text[..i], 0, style)) + Standing(text[i + 1..], style)
  }

  lemma PutBehind(before: Lines, lines: Lines, c: Byte, style: Byte)
    requires lines != []
    ensures Put(before + lines, c, style) == before + Put(lines, c, style)
  {
    var all, col := before + lines, |Last(lines)|;
    assert Last(all) == Last(lines);
    AppendBehind(before, lines, Cell(c, style));
    if c == TAB && NextStop(col) > col {
      SpacesBehind(before, lines, NextStop(col) - col, style);
    }
    assert before + (lines + [[]]) == all + [[]];
    assert before + (Append(lines, Cell(c, style)) + [[]]) == before + Append(lines, Cell(c, style)) + [[]];
  }

  lemma AppendBehind(before: Lines, lines: Lines, cell: Cell)
    requires lines != []
    ensures Append(before + lines, cell) == before + Append(lines, cell)
  {
  }

  lemma {:induction false} SpacesBehind(before: Lines, lines: Lines, n: nat, style: Byte)
    requires lines != []
    ensures Spaces(before + lines, n, style) == before + Spaces(lines, n, style)
    decreases n
  {
    if n > 0 {
      AppendBehind(before, lines, Cell(BLANK, style));
      SpacesBehind(before, Append(lines, Cell(BLANK, style)), n - 1, style);
    }
  }

  /** Typing changes the last line, and what comes below it, only. */
  lemma {:induction false} PutAllBehind(before: Lines, lines: Lines, text: seq<Byte>, style: Byte)
    requires lines != []
    ensures PutAll(before + lines, text, style) == before + PutAll(lines, text, style)
    decreases |text|
  {
    if text != [] {
      PutBehind(before, lines, text[0], style);
      PutAllBehind(before, Put(lines, text[0], style), text[1..], style);
    }
  }

  /** What follows a line break is typed as on an empty page directly below. */
  lemma BreakStartsLine(lines: Lines, c: Byte, text: seq<Byte>, style: Byte)
    requires lines != [] && IsBreak(c)
    ensures PutAll(lines, [c] + text, style) == lines + PutAll([[]], text, style)
  {
    assert ([c] + text)[1..] == text;
    PutAllBehind(lines, [[]], text, style);
  }

  lemma {:induction false} PutAllConcat(lines: Lines, a: seq<Byte>, b: seq<Byte>, style: Byte)
    requires lines != []
    ensures PutAll(lines, a + b, style) == PutAll(PutAll(lines, a, style), b, style)
    decreases |a|
  {
    if a == [] {
      assert a + b == b;
    } else {
      assert (a + b)[1..] == a[1..] + b;
      PutAllConcat(Put(lines, a[0], style), a[1..], b, style);
    }
  }

  /** One character on a page of one line. */
  lemma PutOnLine(line: seq<Cell>, c: Byte, style: Byte)
    requires |line| < COLS && !IsBreak(c)
    ensures Put([line], c, style) == Set(line + InkOf(c, |line|, style))
    ensures |line + InkOf(c, |line|, style)| <= COLS
  {
    NextStopRange(|line|);
    if c == TAB && NextStop(|line|) > |line| {
      SpacesOnLine(line, NextStop(|line|) - |line|, style);
    } else if c != TAB {
      assert Append([line], Cell(c, style)) == [line + [Cell(c, style)]];
      if |line| == COLS - 1 {
        FullLine(line + [Cell(c, style)], []);
      }
    } else {
      assert line + [] == line;
    }
  }

  lemma {:induction false} SpacesOnLine(line: seq<Cell>, n: nat, style: Byte)
    ensures Spaces([line], n, style) == [line + Blanks(n, style)]
    decreases n
  {
    if n > 0 {
      assert Append([line], Cell(BLANK, style)) == [line + [Cell(BLANK, style)]];
      SpacesOnLine(line + [Cell(BLANK, style)], n - 1, style);
      Regroup(line + [Cell(BLANK, style)] + Blanks(n - 1, style), line, [Cell(BLANK, style)], Blanks(n - 1, style));
    } else {
      assert line + [] == line;
    }
  }

  /** A text without breaks, behind a line already begun. */
  lemma {:induction false} SetOnLine(line: seq<Cell>, text: seq<Byte>, style: Byte)
    requires |line| < COLS && FirstBreak(text) == |text|
    ensures PutAll([line], text, style) == Set(line + Ink(text, |line|, style))
    decreases |text|
  {
    if text == [] {
      assert line + [] == line;
    } else {
      var c, rest := text[0], text[1..];
      var typed := line + InkOf(c, |line|, style);
      PutOnLine(line, c, style);
      Regroup(typed + Ink(rest, ColAfter(c, |line|), style), line, InkOf(c, |line|, style),
              Ink(rest, ColAfter(c, |line|), style));
      if |typed| < COLS {
        SetOnLine(typed, rest, style);
      } else {
        SetOnLine([], rest, style);
        FullLine(typed, Ink(rest, 0, style));
        PutAllBehind([typed], [[]], rest, style);
      }
    }
  }

  lemma FullLine(line: seq<Cell>, more: seq<Cell>)
    requires |line| == COLS
    ensures Set(line) == [line] + [[]] && Set(line + more) == [line] + Set([] + more)
  {
    assert line[..78] == line && line[78..] == [];
    assert (line + more)[..78] == line && (line + more)[78..] == more == [] + more;
  }

  /** A text typed on an empty page stands on it as `Standing` says, tabs and breaks and all. */
  lemma {:induction false} PageStands(text: seq<Byte>, style: Byte)
    ensures PutAll([[]], text, style) == Standing(text, style)
    decreases |text|
  {
    var i := FirstBreak(text);
    var line: seq<Cell> := [];
    if i == |text| {
      SetOnLine(line, text, style);
      assert line + Ink(text, 0, style) == Ink(text, 0, style);
    } else {
      var a, b := text[..i], text[i + 1..];
      assert text == a + ([text[i]] + b);
      FirstBreakIs(a);
      SetOnLine(line, a, style);
      assert line + Ink(a, 0, style) == Ink(a, 0, style);
      PutAllConcat([[]], a, [text[i]] + b, style);
      BreakStartsLine(PutAll([[]], a, style), text[i], b, style);
      PageStands(b, style);
    }
  }

  lemma {:induction false} FirstBreakIs(text: seq<Byte>)
    requires forall j | 0 <= j < |text| :: !IsBreak(text[j])
    ensures FirstBreak(text) == |text|
  {
    if text != [] {
      FirstBreakIs(text[1..]);
    }
  }

  // ---- the grid --------------------------------------------------------------------

  type Grid = seq<seq<Cell>>

  ghost predicate GridOk(g: Grid) {
    |g| == ROWS && forall r | 0 <= r < ROWS :: |g[r]| == COLS
  }

  function SetCell(g: Grid, r: nat, c: nat, cell: Cell): Grid
    requires r < |g| && c < |g[r]|
  {
    g[r := g[r][c := cell]]
  }

  lemma SameGrid(g: Grid, h: Grid)
    requires GridOk(g) && GridOk(h) && forall r, c | 0 <= r < ROWS && 0 <= c < COLS :: g[r][c] == h[r][c]
    ensures g == h
  {
    forall r | 0 <= r < ROWS ensures g[r] == h[r] {
    }
  }

  /** The first line on the grid. */
  function Top(lines: Lines): nat {
    if |lines| <= ROWS then 0 else |lines| - ROWS
  }

  /** Cell `c` of grid row `r` shows the page: the cell written there, or a blank. */
  ghost predicate ShowsCell(g: Grid, lines: Lines, r: nat, c: nat)
    requires GridOk(g) && r < ROWS && c < COLS
  {
    if Top(lines) + r < |lines| && c < |lines[Top(lines) + r]| then g[r][c] == lines[Top(lines) + r][c]
    else g[r][c].ch == BLANK
  }

  /** The grid is the last 18 lines of the page, all else blank. */
  ghost predicate Shows(g: Grid, lines: Lines) {
    GridOk(g) && Fits(lines) && forall r, c | 0 <= r < ROWS && 0 <= c < COLS :: ShowsCell(g, lines, r, c)
  }

  function RowOf(lines: Lines): nat
    requires lines != []
  {
    |lines| - 1 - Top(lines)
  }

  lemma AppendShows(g: Grid, lines: Lines, cell: Cell)
    requires Shows(g, lines) && PageOk(lines)
    ensures RowOf(lines) < ROWS
    ensures var more := Append(lines, cell);
            Shows(SetCell(g, RowOf(lines), |Last(lines)|, cell), more) && RowOf(more) == RowOf(lines)
  {
    var more, g' := Append(lines, cell), SetCell(g, RowOf(lines), |Last(lines)|, cell);
    forall r, c | 0 <= r < ROWS && 0 <= c < COLS ensures ShowsCell(g', more, r, c) {
      assert ShowsCell(g, lines, r, c);
    }
  }

  function BlankRow(style: Byte): (row: seq<Cell>)
    ensures |row| == COLS && forall c | 0 <= c < COLS :: row[c] == Cell(BLANK, style)
  {
    seq(COLS, _ => Cell(BLANK, style))
  }

  function ScrolledUp(g: Grid, style: Byte): Grid
    requires |g| == ROWS
  {
    g[1..] + [BlankRow(style)]
  }

  lemma ScrollIs(g: Grid, shifted: Grid, style: Byte)
    requires GridOk(g) && GridOk(shifted) && forall k | 0 <= k < ROWS - 1 :: shifted[k] == g[k + 1]
    ensures shifted[ROWS - 1 := BlankRow(style)] == ScrolledUp(g, style)
  {
    var h, goal := shifted[ROWS - 1 := BlankRow(style)], ScrolledUp(g, style);
    forall r | 0 <= r < ROWS ensures h[r] == goal[r] {
    }
  }

  /** A new line needs the grid to scroll exactly when its last row is in use. */
  lemma NewLineShows(g: Grid, lines: Lines, style: Byte)
    requires Shows(g, lines)
    ensures RowOf(lines) < ROWS
    ensures RowOf(lines) + 1 < ROWS ==> Shows(g, lines + [[]]) && RowOf(lines + [[]]) == RowOf(lines) + 1
    ensures RowOf(lines) + 1 == ROWS ==> Shows(ScrolledUp(g, style), lines + [[]]) && RowOf(lines + [[]]) == ROWS - 1
  {
    var more := lines + [[]];
    if RowOf(lines) + 1 < ROWS {
      forall r, c | 0 <= r < ROWS && 0 <= c < COLS ensures ShowsCell(g, more, r, c) {
        assert ShowsCell(g, lines, r, c);
      }
    } else {
      var g' := ScrolledUp(g, style);
      forall r, c | 0 <= r < ROWS && 0 <= c < COLS ensures ShowsCell(g', more, r, c) {
        if r + 1 < ROWS {
          assert ShowsCell(g, lines, r + 1, c);
        }
      }
    }
  }

  lemma BlankShows(g: Grid)
    requires GridOk(g) && forall r, c | 0 <= r < ROWS && 0 <= c < COLS :: g[r][c].ch == BLANK
    ensures Shows(g, [[]]) && PageOk([[]]) && RowOf([[]]) == 0 && |Last([[]])| == 0
  {
    var empty: Lines := [[]];
    forall r, c | 0 <= r < ROWS && 0 <= c < COLS ensures ShowsCell(g, empty, r, c) {
      assert g[r][c].ch == BLANK;
    }
  }

  /** The cursor's cell and everything behind it is blank. */
  lemma BlankBehind(g: Grid, lines: Lines, r: nat, c: nat)
    requires Shows(g, lines) && r < ROWS && c < COLS
    requires r > RowOf(lines) || (r == RowOf(lines) && c >= |Last(lines)|)
    ensures g[r][c].ch == BLANK
  {
    assert ShowsCell(g, lines, r, c);
  }

  // ---- requests ------------------------------------------------------------------------

  datatype Request = PutChar(c: Byte) | SetColor(fg: nat, bg: nat) | ResetColor | Clear

  datatype PageState = PageState(lines: Lines, style: Byte)

  function After(p: PageState, req: Request): (r: PageState)
    requires p.lines != [] && (req.SetColor? ==> req.fg < 16 && req.bg < 16)
    ensures r.lines != []
  {
    match req
    case PutChar(c) => p.(lines := Put(p.lines, c, p.style))
    case SetColor(fg, bg) => p.(style := VgaAttr(bg, fg))
    case ResetColor => p.(style := STYLE_DEFAULT)
    case Clear => p.(lines := [[]])
  }

  function AfterAll(p: PageState, reqs: seq<Request>): PageState
    requires p.lines != [] && forall i | 0 <= i < |reqs| && reqs[i].SetColor? :: reqs[i].fg < 16 && reqs[i].bg < 16
    decreases |reqs|
  {
    if reqs == [] then p else AfterAll(After(p, reqs[0]), reqs[1..])
  }

  // ---- numbers and colours ----------------------------------------------------------

  const ZERO: Byte := 48

  /** The decimal digits of a number, without leading zeros. */
  function Decimal(v: nat): (s: seq<Byte>)
    ensures s != [] && forall i | 0 <= i < |s| :: ZERO <= s[i] < ZERO + 10
    ensures v > 0 ==> s[0] != ZERO
  {
    if v < 10 then [ZERO + v] else Decimal(v / 10) + [ZERO + v % 10]
  }

  function ValueOf(s: seq<Byte>): int {
    if s == [] then 0 else 10 * ValueOf(s[..|s| - 1]) + (s[|s| - 1] as int) - 48
  }

  lemma {:induction false} DecimalValue(v: nat)
    ensures ValueOf(Decimal(v)) == v
  {
    if v < 10 {
      assert Decimal(v)[..0] == [];
    } else {
      DecimalValue(v / 10);
      assert Decimal(v)[..|Decimal(v)| - 1] == Decimal(v / 10);
    }
  }

  function Power10(k: nat): nat {
    if k == 0 then 1 else 10 * Power10(k - 1)
  }

  lemma {:induction false} DigitBound(v: nat, k: nat)
    requires k > 0 && v < Power10(k)
    ensures |Decimal(v)| <= k
  {
    if v >= 10 {
      DigitBound(v / 10, k - 1);
    }
  }

  /** A 32-bit number has at most ten digits. */
  lemma DigitCount(v: nat, k: nat)
    requires v < TWO_32 && k == 10
    ensures |Decimal(v)| <= k
  {
    assert Power10(5) == 100000;
    assert Power10(9) == 1000000000;
    DigitBound(v, k);
  }

  /** `tty_set_color` passes its colours on in the other order: what is asked for as
      foreground becomes the background, so only equal colours come out as asked. */
  lemma ColoursSwapped(fg: nat, bg: nat)
    requires fg < 16 && bg < 16
    ensures VgaAttr(bg, fg) % 16 == bg && VgaAttr(bg, fg) / 16 == fg
    ensures VgaAttr(bg, fg) == VgaAttr(fg, bg) <==> fg == bg
  {
  }
}

module Terminal {
  import opened Bytes
  import opened TextPage

  const VGA_WIDTH: nat := 80
  const VGA_HEIGHT: nat := 25
  const TTY_TOP_ROW: nat := 1
  const TTY_LEFT_COL: nat := 1

  class Tty {
    const shadow: array2<Byte>
    const shadowAttr: array2<Byte>
    const vgaChar: array2<Byte>
    const vgaAttr: array2<Byte>
    var ttyCol: nat
    var ttyRow: nat
    var currentStyle: Byte
    /** The page, from the last clearing of the terminal on. */
    ghost var lines: Lines

    ghost predicate Shape() {
      && shadow.Length0 == ROWS == shadowAttr.Length0 && shadow.Length1 == COLS == shadowAttr.Length1
      && vgaChar.Length0 == VGA_HEIGHT == vgaAttr.Length0 && vgaChar.Length1 == VGA_WIDTH == vgaAttr.Length1
      && shadow != shadowAttr && shadow != vgaChar && shadow != vgaAttr
      && shadowAttr != vgaChar && shadowAttr != vgaAttr && vgaChar != vgaAttr
    }

    /** The shadow buffers. */
    ghost function Shadow(): (g: Grid)
      requires Shape()
      reads shadow, shadowAttr
      ensures GridOk(g) && forall r, c | 0 <= r < ROWS && 0 <= c < COLS ::
              g[r][c] == Cell(shadow[r, c], shadowAttr[r, c])
    {
      seq(ROWS, r requires 0 <= r < ROWS reads shadow, shadowAttr => ShadowRow(r))
    }

    ghost function ShadowRow(r: nat): (row: seq<Cell>)
      requires Shape() && r < ROWS
      reads shadow, shadowAttr
      ensures |row| == COLS && forall c | 0 <= c < COLS :: row[c] == Cell(shadow[r, c], shadowAttr[r, c])
    {
      seq(COLS, c requires 0 <= c < COLS reads shadow, shadowAttr => Cell(shadow[r, c], shadowAttr[r, c]))
    }

    /** The part of the screen that belongs to the terminal. */
    ghost function Screen(): (g: Grid)
      requires Shape()
      reads vgaChar, vgaAttr
      ensures GridOk(g)
      ensures forall r, c | 0 <= r < ROWS && 0 <= c < COLS ::
                g[r][c] == Cell(vgaChar[TTY_TOP_ROW + r, TTY_LEFT_COL + c], vgaAttr[TTY_TOP_ROW + r, TTY_LEFT_COL + c])
    {
      seq(ROWS, r requires 0 <= r < ROWS reads vgaChar, vgaAttr => ScreenRow(r))
    }

    ghost function ScreenRow(r: nat): (row: seq<Cell>)
      requires Shape() && r < ROWS
      reads vgaChar, vgaAttr
      ensures |row| == COLS
      ensures forall c | 0 <= c < COLS ::
                row[c] == Cell(vgaChar[TTY_TOP_ROW + r, TTY_LEFT_COL + c], vgaAttr[TTY_TOP_ROW + r, TTY_LEFT_COL + c])
    {
      seq(COLS, c requires 0 <= c < COLS reads vgaChar, vgaAttr =>
        Cell(vgaChar[TTY_TOP_ROW + r, TTY_LEFT_COL + c], vgaAttr[TTY_TOP_ROW + r, TTY_LEFT_COL + c]))
    }

    /** The shadow shows the page and the cursor is at the end of its last line. */
    ghost predicate Tracks()
      reads this, shadow, shadowAttr
    {
      && Shape() && Shows(Shadow(), lines) && ttyRow == RowOf(lines) < ROWS && ttyCol == |Last(lines)|
    }

    ghost predicate AtCursor()
      reads this
    {
      Shape() && ttyRow < ROWS && ttyCol < COLS
    }

    /** The screen is the shadow, but perhaps for the cursor block. */
    ghost predicate Valid()
      reads this, shadow, shadowAttr, vgaChar, vgaAttr
    {
      && Tracks() && PageOk(lines)
      && (Screen() == Shadow() || Screen() == SetCell(Shadow(), ttyRow, ttyCol, CURSOR))
    }

    /** What is to be seen on the 80 by 25 screen: row `r` below the top border is line `r` of
        the last 18 of the page, beginning in column 1, and blank where there is no text. */
    lemma OnScreen(r: nat, c: nat)
      requires Valid() && r < 18 && c < 78
      ensures vgaChar.Length0 == 25 && vgaChar.Length1 == 80
      ensures var i := (if |lines| <= 18 then 0 else |lines| - 18) + r;
              if r == ttyRow && c == ttyCol && Screen() != Shadow() then
                vgaChar[1 + r, 1 + c] == 32 && vgaAttr[1 + r, 1 + c] == 0xB0
              else if i < |lines| && c < |lines[i]| then
                Cell(vgaChar[1 + r, 1 + c], vgaAttr[1 + r, 1 + c]) == lines[i][c]
              else vgaChar[1 + r, 1 + c] == 32
    {
      assert ShowsCell(Shadow(), lines, r, c);
      assert Screen()[r][c] == Cell(vgaChar[1 + r, 1 + c], vgaAttr[1 + r, 1 + c]);
    }

    /** Outside the terminal's rows and columns. */
    static predicate Outside(y: nat, x: nat) {
      y < TTY_TOP_ROW || y >= TTY_TOP_ROW + ROWS || x < TTY_LEFT_COL || x >= TTY_LEFT_COL + COLS
    }

    twostate predicate BordersKept()
      requires Shape()
      reads vgaChar, vgaAttr
    {
      forall y, x | 0 <= y < VGA_HEIGHT && 0 <= x < VGA_WIDTH && Outside(y, x) ::
        vgaChar[y, x] == old(vgaChar[y, x]) && vgaAttr[y, x] == old(vgaAttr[y, x])
    }

    /** `vga_putchar`; positions off the screen are ignored. */
    method VgaPutChar(x: int, y: int, ch: Byte, attr: Byte)
      requires Shape()
      modifies vgaChar, vgaAttr
      ensures forall j, i | 0 <= j < VGA_HEIGHT && 0 <= i < VGA_WIDTH ::
                && vgaChar[j, i] == (if j == y && i == x then ch else old(vgaChar[j, i]))
                && vgaAttr[j, i] == (if j == y && i == x then attr else old(vgaAttr[j, i]))
    {
      if x < 0 || x >= VGA_WIDTH || y < 0 || y >= VGA_HEIGHT {
        return;
      }
      vgaChar[y, x] := ch;
      vgaAttr[y, x] := attr;
    }

    /** Draw one cell of the terminal. */
    method Show(r: nat, c: nat, cell: Cell)
      requires Shape() && r < ROWS && c < COLS
      modifies vgaChar, vgaAttr
      ensures Screen() == SetCell(old(Screen()), r, c, cell) && BordersKept()
    {
      ghost var goal := SetCell(Screen(), r, c, cell);
      VgaPutChar(TTY_LEFT_COL + c, TTY_TOP_ROW + r, cell.ch, cell.attr);
      SameGrid(Screen(), goal);
    }

    method WriteCell(r: nat, c: nat, cell: Cell)
      requires Shape() && r < ROWS && c < COLS
      modifies shadow, shadowAttr
      ensures Shadow() == SetCell(old(Shadow()), r, c, cell)
    {
      ghost var goal := SetCell(Shadow(), r, c, cell);
      shadow[r, c] := cell.ch;
      shadowAttr[r, c] := cell.attr;
      SameGrid(Shadow(), goal);
    }

    /** `tty_flush_all` */
    method FlushAll()
      requires Shape()
      modifies vgaChar, vgaAttr
      ensures Screen() == Shadow() && BordersKept()
    {
      for r := 0 to ROWS
        invariant BordersKept() && forall k | 0 <= k < r :: Screen()[k] == Shadow()[k]
      {
        FlushRow(r);
      }
      assert Screen() == Shadow();
    }

    method FlushRow(r: nat)
      requires Shape() && r < ROWS
      modifies vgaChar, vgaAttr
      ensures Screen() == old(Screen())[r := Shadow()[r]] && BordersKept()
    {
      ghost var before := Screen();
      for c := 0 to COLS
        invariant BordersKept() && forall k | 0 <= k < ROWS && k != r :: Screen()[k] == before[k]
        invariant forall i | 0 <= i < c :: Screen()[r][i] == Shadow()[r][i]
      {
        Show(r, c, Cell(shadow[r, c], shadowAttr[r, c]));
      }
      assert Screen()[r] == Shadow()[r];
      assert Screen() == before[r := Shadow()[r]];
    }

    method CopyRowUp(r: nat)
      requires Shape() && r + 1 < ROWS
      modifies shadow, shadowAttr
      ensures Shadow() == old(Shadow())[r := old(Shadow())[r + 1]]
    {
      ghost var before := Shadow();
      for c := 0 to COLS
        invariant forall k, i | 0 <= k < ROWS && 0 <= i < COLS ::
                    Shadow()[k][i] == if k == r && i < c then before[r + 1][i] else before[k][i]
      {
        shadow[r, c] := shadow[r + 1, c];
        shadowAttr[r, c] := shadowAttr[r + 1, c];
      }
      SameGrid(Shadow(), before[r := before[r + 1]]);
    }

    method BlankLastRow()
      requires Shape()
      modifies shadow, shadowAttr
      ensures Shadow() == old(Shadow())[ROWS - 1 := BlankRow(currentStyle)]
    {
      ghost var before := Shadow();
      for c := 0 to COLS
        invariant forall k, i | 0 <= k < ROWS && 0 <= i < COLS ::
                    Shadow()[k][i] == if k == ROWS - 1 && i < c then Cell(BLANK, currentStyle) else before[k][i]
      {
        shadow[ROWS - 1, c] := BLANK;
        shadowAttr[ROWS - 1, c] := currentStyle;
      }
      SameGrid(Shadow(), before[ROWS - 1 := BlankRow(currentStyle)]);
    }

    method ShiftRows()
      requires Shape()
      modifies shadow, shadowAttr
      ensures forall k | 0 <= k < ROWS - 1 :: Shadow()[k] == old(Shadow())[k + 1]
    {
      ghost var before := Shadow();
      for r := 0 to ROWS - 1
        invariant forall k | 0 <= k < r :: Shadow()[k] == before[k + 1]
        invariant forall k | r <= k < ROWS :: Shadow()[k] == before[k]
      {
        ghost var now := Shadow();
        assert now[r + 1] == before[r + 1];
        CopyRowUp(r);
        assert Shadow() == now[r := now[r + 1]];
      }
    }

    /** `tty_scroll` */
    method Scroll()
      requires Shape()
      modifies this`ttyRow, shadow, shadowAttr, vgaChar, vgaAttr
      ensures Shadow() == ScrolledUp(old(Shadow()), currentStyle) && Screen() == Shadow() && ttyRow == ROWS - 1
      ensures BordersKept()
    {
      ghost var before := Shadow();
      ShiftRows();
      ghost var shifted := Shadow();
      BlankLastRow();
      ScrollIs(before, shifted, currentStyle);
      FlushAll();
      ttyRow := ROWS - 1;
    }

    /** `tty_draw_cursor` */
    method DrawCursor()
      requires AtCursor() && Screen() == Shadow() && Shadow()[ttyRow][ttyCol].ch == BLANK
      modifies vgaChar, vgaAttr
      ensures Screen() == SetCell(Shadow(), ttyRow, ttyCol, CURSOR) && BordersKept()
    {
      var ch := shadow[ttyRow, ttyCol];
      Show(ttyRow, ttyCol, Cell(if ch != 0 then ch else BLANK, VgaAttr(0, 0xB)));
    }

    /** `tty_erase_cursor` */
    method EraseCursor()
      requires Valid()
      modifies vgaChar, vgaAttr
      ensures Screen() == Shadow() && BordersKept()
    {
      BlankBehind(Shadow(), lines, ttyRow, ttyCol);
      var ch := shadow[ttyRow, ttyCol];
      Show(ttyRow, ttyCol, Cell(if ch != 0 then ch else BLANK, shadowAttr[ttyRow, ttyCol]));
      SameGrid(Screen(), Shadow());
    }

    /** Put a character at the end of the last line, in the shadow and on the screen. */
    method Type(col: nat, ch: Byte)
      requires Shape() && Shows(Shadow(), lines) && PageOk(lines) && ttyRow == RowOf(lines) && col == |Last(lines)|
      requires Screen() == Shadow()
      modifies this`lines, shadow, shadowAttr, vgaChar, vgaAttr
      ensures lines == Append(old(lines), Cell(ch, currentStyle)) && Shows(Shadow(), lines) && ttyRow == RowOf(lines)
      ensures Screen() == Shadow() && BordersKept()
    {
      AppendShows(Shadow(), lines, Cell(ch, currentStyle));
      WriteCell(ttyRow, col, Cell(ch, currentStyle));
      Show(ttyRow, col, Cell(ch, currentStyle));
      lines := Append(lines, Cell(ch, currentStyle));
    }

    /** Move to a new row, scrolling when there is none. */
    method NewRow()
      requires Shape() && Shows(Shadow(), lines) && ttyRow == RowOf(lines) && Screen() == Shadow()
      modifies this`ttyRow, this`ttyCol, this`lines, shadow, shadowAttr, vgaChar, vgaAttr
      ensures lines == old(lines) + [[]] && Tracks() && PageOk(lines) && Screen() == Shadow() && BordersKept()
    {
      NewLineShows(Shadow(), lines, currentStyle);
      ttyCol := 0;
      ttyRow := ttyRow + 1;
      if ttyRow >= ROWS {
        Scroll();
      }
      lines := lines + [[]];
    }

    /** A line break blanks the shadow row behind the cursor; it is blank already. */
    method BlankTail()
      requires Tracks() && PageOk(lines)
      modifies shadow
      ensures Shadow() == old(Shadow())
    {
      ghost var before := Shadow();
      for col := ttyCol to COLS
        invariant forall k, i | 0 <= k < ROWS && 0 <= i < COLS :: Shadow()[k][i] == before[k][i]
      {
        BlankBehind(before, lines, ttyRow, col);
        assert Shadow()[ttyRow][col] == before[ttyRow][col];
        shadow[ttyRow, col] := BLANK;
      }
      SameGrid(Shadow(), before);
    }

    /** Blanks up to the next tab stop. */
    method TypeTab()
      requires Tracks() && PageOk(lines) && Screen() == Shadow()
      modifies this`ttyCol, this`lines, shadow, shadowAttr, vgaChar, vgaAttr
      ensures lines == Put(old(lines), TAB, currentStyle) && Tracks() && PageOk(lines)
      ensures Screen() == Shadow() && BordersKept()
    {
      var next := NextStop(ttyCol);
      NextStopRange(ttyCol);
      ghost var goal := Put(lines, TAB, currentStyle);
      for col := ttyCol to next
        invariant Shows(Shadow(), lines) && PageOk(lines) && ttyRow == RowOf(lines) && |Last(lines)| == col
        invariant Spaces(lines, next - col, currentStyle) == goal
        invariant Screen() == Shadow() && BordersKept()
      {
        Type(col, BLANK);
      }
      ttyCol := next;
    }

    /** `tty_putchar` */
    method TtyPutChar(c: Byte)
      requires Valid()
      modifies this`ttyRow, this`ttyCol, this`lines, shadow, shadowAttr, vgaChar, vgaAttr
      ensures Valid() && lines == Put(old(lines), c, currentStyle) && BordersKept()
      ensures Screen() == SetCell(Shadow(), ttyRow, ttyCol, CURSOR)
    {
      EraseCursor();
      Respond(c);
      BlankBehind(Shadow(), lines, ttyRow, ttyCol);
      DrawCursor();
    }

    /** The three branches of `tty_putchar`. */
    method Respond(c: Byte)
      requires Tracks() && PageOk(lines) && Screen() == Shadow()
      modifies this`ttyRow, this`ttyCol, this`lines, shadow, shadowAttr, vgaChar, vgaAttr
      ensures lines == Put(old(lines), c, currentStyle) && Tracks() && PageOk(lines)
      ensures Screen() == Shadow() && BordersKept()
    {
      if c == NEWLINE || c == RETURN {
        BlankTail();
        NewRow();
      } else if c == TAB {
        TypeTab();
      } else {
        Type(ttyCol, c);
        ttyCol := ttyCol + 1;
        if ttyCol >= COLS {
          NewRow();
        }
      }
    }

    /** `tty_clear` */
    method TtyClear()
      requires Shape()
      modifies this`ttyRow, this`ttyCol, this`lines, shadow, shadowAttr, vgaChar, vgaAttr
      ensures Valid() && lines == [[]] && Screen() == Shadow() && BordersKept()
    {
      for r := 0 to ROWS
        invariant BordersKept() && forall k | 0 <= k < r :: Shadow()[k] == BlankRow(currentStyle)
      {
        BlankRowAt(r);
      }
      BlankShows(Shadow());
      FlushAll();
      ttyCol, ttyRow := 0, 0;
      lines := [[]];
    }

    method BlankRowAt(r: nat)
      requires Shape() && r < ROWS
      modifies shadow, shadowAttr
      ensures Shadow() == old(Shadow())[r := BlankRow(currentStyle)]
    {
      ghost var before := Shadow();
      for c := 0 to COLS
        invariant forall k, i | 0 <= k < ROWS && 0 <= i < COLS ::
                    Shadow()[k][i] == if k == r && i < c then Cell(BLANK, currentStyle) else before[k][i]
      {
        shadow[r, c] := BLANK;
        shadowAttr[r, c] := currentStyle;
      }
      SameGrid(Shadow(), before[r := BlankRow(currentStyle)]);
    }

    /** The buffers as the loader leaves them, cleared by `tty_init`. */
    constructor ()
      ensures Valid() && lines == [[]] && currentStyle == STYLE_DEFAULT == 0x0B
      ensures fresh(shadow) && fresh(shadowAttr) && fresh(vgaChar) && fresh(vgaAttr)
    {
      shadow := new Byte[ROWS, COLS]((_, _) => 0);
      shadowAttr := new Byte[ROWS, COLS]((_, _) => 0);
      vgaChar := new Byte[VGA_HEIGHT, VGA_WIDTH]((_, _) => BLANK);
      vgaAttr := new Byte[VGA_HEIGHT, VGA_WIDTH]((_, _) => 0);
      ttyCol, ttyRow, currentStyle, lines := 0, 0, STYLE_DEFAULT, [[]];
      new;
      TtyClear();
    }

    /** `tty_set_color` */
    method TtySetColor(fg: nat, bg: nat)
      requires fg < 16 && bg < 16
      modifies this`currentStyle
      ensures currentStyle == VgaAttr(bg, fg)
    {
      currentStyle := VgaAttr(bg, fg);
    }

    /** `tty_puts` of the bytes before the NUL. */
    method TtyPuts(text: seq<Byte>)
      requires Valid()
      modifies this`ttyRow, this`ttyCol, this`lines, shadow, shadowAttr, vgaChar, vgaAttr
      ensures Valid() && lines == PutAll(old(lines), text, currentStyle) && BordersKept()
    {
      ghost var goal := PutAll(lines, text, currentStyle);
      assert text[0..] == text;
      for i := 0 to |text|
        invariant Valid() && BordersKept() && PutAll(lines, text[i..], currentStyle) == goal
      {
        assert text[i..][0] == text[i] && text[i..][1..] == text[i + 1..];
        TtyPutChar(text[i]);
      }
    }

    /** `tty_put_uint` */
    method TtyPutUint(v: nat)
      requires Valid() && v < TWO_32
      modifies this`ttyRow, this`ttyCol, this`lines, shadow, shadowAttr, vgaChar, vgaAttr
      ensures Valid() && lines == PutAll(old(lines), Decimal(v), currentStyle) && BordersKept()
    {
      var buf := new Byte[12];
      var i := WriteDecimal(v, buf);
      TtyPuts(buf[i..11]);
    }

    method WriteDecimal(v: nat, buf: array<Byte>) returns (i: nat)
      requires v < TWO_32 && buf.Length == 12
      modifies buf
      ensures i < 11 && buf[i..11] == Decimal(v) && buf[11] == 0
    {
      i := 11;
      buf[i] := 0;
      DigitCount(v, 10);
      if v == 0 {
        i := i - 1;
        buf[i] := ZERO;
      } else {
        var rest := v;
        while rest > 0
          invariant i <= 11 && buf[11] == 0
          invariant Decimal(v) == (if rest > 0 then Decimal(rest) else []) + buf[i..11]
          decreases rest
        {
          i := i - 1;
          buf[i] := ZERO + rest % 10;
          rest := rest / 10;
        }
      }
    }

    method Perform(req: Request)
      requires Valid() && (req.SetColor? ==> req.fg < 16 && req.bg < 16)
      modifies this, shadow, shadowAttr, vgaChar, vgaAttr
      ensures Valid() && PageState(lines, currentStyle) == After(old(PageState(lines, currentStyle)), req)
              && BordersKept()
    {
      match req
      case PutChar(c) => TtyPutChar(c);
      case SetColor(fg, bg) => TtySetColor(fg, bg);
      case ResetColor => currentStyle := STYLE_DEFAULT;
      case Clear => TtyClear();
    }

    /** Any run of requests: the grid shows the end of the page, the screen shows the grid. */
    method RunAll(reqs: seq<Request>)
      requires Valid() && forall i | 0 <= i < |reqs| && reqs[i].SetColor? :: reqs[i].fg < 16 && reqs[i].bg < 16
      modifies this, shadow, shadowAttr, vgaChar, vgaAttr
      ensures Valid() && PageState(lines, currentStyle) == AfterAll(old(PageState(lines, currentStyle)), reqs)
              && BordersKept()
    {
      ghost var goal := AfterAll(PageState(lines, currentStyle), reqs);
      assert reqs[0..] == reqs;
      for i := 0 to |reqs|
        invariant Valid() && BordersKept() && AfterAll(PageState(lines, currentStyle), reqs[i..]) == goal
      {
        assert reqs[i..][0] == reqs[i] && reqs[i..][1..] == reqs[i + 1..];
        Perform(reqs[i]);
      }
    }
  }
}
