/** Day 5 (2021/5/src/main.rs): hydrothermal vent lines `x1,y1 -> x2,y2`
    drawn on a grid of counters sized to the endpoints; the answer is the
    number of cells that at least two horizontal or vertical lines cross. */
module HydrothermalVenture {
  import opened Text

  datatype Point = Point(x: nat, y: nat)

  datatype Line = Line(a: Point, b: Point)

  // ---------------------------------------------------------------------
  // extract_line_info: the pattern `^(\d+),(\d+) -> (\d+),(\d+)$`

  /** The four captured digit strings of a matching line. */
  datatype Fields = Fields(x1: string, y1: string, x2: string, y2: string)

  /** What `\d+` matches (ASCII digits only, see README). */
  predicate Numeral(d: string)
  {
    |d| >= 1 && AllDigits(d)
  }

  predicate WellFormed(f: Fields)
  {
    Numeral(f.x1) && Numeral(f.y1) && Numeral(f.x2) && Numeral(f.y2)
  }

  /** The whole line the pattern matches for these captures. */
  function LineText(f: Fields): string
  {
    f.x1 + ("," + (f.y1 + (" -> " + (f.x2 + ("," + f.y2)))))
  }

  /** The length of the run of digits at the start of `s`. */
  function DigitRun(s: string): (n: nat)
    ensures n <= |s|
    ensures AllDigits(s[..n])
    ensures n < |s| ==> !IsDigit(s[n])
  {
    if s == [] || !IsDigit(s[0]) then 0
    else
      var n := 1 + DigitRun(s[1..]);
      assert s[..n] == [s[0]] + s[1..][..n - 1];
      n
  }

  /** `\d+` taken greedily: the digits at the front and what follows. */
  function TakeNumeral(s: string): (r: Option<(string, string)>)
    ensures r.Some? ==> Numeral(r.value.0) && s == r.value.0 + r.value.1
    ensures r.Some? ==> r.value.1 == [] || !IsDigit(r.value.1[0])
    ensures r.None? ==> s == [] || !IsDigit(s[0])
  {
    var n := DigitRun(s);
    if n == 0 then None
    else
      assert s == s[..n] + s[n..];
      Some((s[..n], s[n..]))
  }

  /** A literal part of the pattern followed by `\d+`. */
  function NumeralAfter(s: string, literal: string): (r: Option<(string, string)>)
    ensures r.Some? ==> Numeral(r.value.0) && s == literal + (r.value.0 + r.value.1)
    ensures r.Some? ==> r.value.1 == [] || !IsDigit(r.value.1[0])
  {
    if |literal| <= |s| && s[..|literal|] == literal then
      match TakeNumeral(s[|literal|..])
      case None => None
      case Some(p) =>
        assert s == literal + s[|literal|..];
        Some(p)
    else None
  }

  /** The captures of a line matching the pattern from start to end. */
  function LineFields(s: string): (r: Option<Fields>)
    ensures r.Some? ==> WellFormed(r.value) && s == LineText(r.value)
  {
    match TakeNumeral(s)
    case None => None
    case Some((x1, r1)) =>
      match NumeralAfter(r1, ",")
      case None => None
      case Some((y1, r2)) =>
        match NumeralAfter(r2, " -> ")
        case None => None
        case Some((x2, r3)) =>
          match NumeralAfter(r3, ",")
          case None => None
          case Some((y2, r4)) =>
            if r4 == [] then
              assert r3 == "," + y2;
              Some(Fields(x1, y1, x2, y2))
            else None
  }

  /** Greedy digit matching stops exactly where a numeral ends. */
  lemma {:induction false} TakeNumeralOf(d: string, rest: string)
    requires Numeral(d)
    requires rest == [] || !IsDigit(rest[0])
    ensures TakeNumeral(d + rest) == Some((d, rest))
  {
    DigitRunOf(d, rest);
    assert (d + rest)[..|d|] == d && (d + rest)[|d|..] == rest;
  }

  lemma {:induction false} DigitRunOf(d: string, rest: string)
    requires AllDigits(d)
    requires rest == [] || !IsDigit(rest[0])
    ensures DigitRun(d + rest) == |d|
  {
    if d == [] {
      assert d + rest == rest;
    } else {
      assert (d + rest)[1..] == d[1..] + rest;
      DigitRunOf(d[1..], rest);
    }
  }

  lemma NumeralAfterOf(literal: string, d: string, rest: string)
    requires Numeral(d)
    requires rest == [] || !IsDigit(rest[0])
    ensures NumeralAfter(literal + (d + rest), literal) == Some((d, rest))
  {
    var s := literal + (d + rest);
    assert s[..|literal|] == literal;
    assert s[|literal|..] == d + rest;
    TakeNumeralOf(d, rest);
  }

  /** Every well-formed line is recognised, with its own captures. */
  lemma LineFieldsOf(f: Fields)
    requires WellFormed(f)
    ensures LineFields(LineText(f)) == Some(f)
  {
    var r3 := "," + f.y2;
    var r2 := " -> " + (f.x2 + r3);
    var r1 := "," + (f.y1 + r2);
    assert LineText(f) == f.x1 + r1;
    assert r1[0] == ',' && r2[0] == ' ' && r3[0] == ',';
    TakeNumeralOf(f.x1, r1);
    NumeralAfterOf(",", f.y1, r2);
    NumeralAfterOf(" -> ", f.x2, r3);
    assert f.y2 + [] == f.y2;
    NumeralAfterOf(",", f.y2, []);
  }

  /** `extract_line_info`: the line the captures describe, or nothing when
      the text does not match. (Every match has all four captures, so the
      source's `captures.len() < 4` branch never returns.) */
  function ExtractLineInfo(s: string): (r: Option<Line>)
    ensures r.Some? ==> exists f :: WellFormed(f) && s == LineText(f) && r.value == FieldsLine(f)
  {
    match LineFields(s)
    case None => None
    case Some(f) => Some(FieldsLine(f))
  }

  /** The line whose endpoints are the values of the four numerals. */
  function FieldsLine(f: Fields): Line
    requires WellFormed(f)
  {
    Line(Point(DecimalValue(f.x1), DecimalValue(f.y1)), Point(DecimalValue(f.x2), DecimalValue(f.y2)))
  }

  /** A line is recognised exactly when it is, from start to end, four
      numerals in the layout `x1,y1 -> x2,y2`. */
  lemma ExtractLineInfoMatchesPattern(s: string)
    ensures ExtractLineInfo(s).Some? <==> exists f :: WellFormed(f) && s == LineText(f)
  {
    if exists f :: WellFormed(f) && s == LineText(f) {
      var f :| WellFormed(f) && s == LineText(f);
      LineFieldsOf(f);
    }
  }

  /** The recognised line holds the values of the four numerals. */
  lemma ExtractLineInfoValues(f: Fields)
    requires WellFormed(f)
    ensures ExtractLineInfo(LineText(f)) == Some(FieldsLine(f))
  {
    LineFieldsOf(f);
  }

  function ShowLine(l: Line): string
  {
    LineText(Fields(ShowNat(l.a.x), ShowNat(l.a.y), ShowNat(l.b.x), ShowNat(l.b.y)))
  }

  /** A line printed in the puzzle's layout is read back exactly. */
  lemma ExtractLineInfoShowLine(l: Line)
    ensures ExtractLineInfo(ShowLine(l)) == Some(l)
  {
    ExtractLineInfoValues(Fields(ShowNat(l.a.x), ShowNat(l.a.y), ShowNat(l.b.x), ShowNat(l.b.y)));
    DecimalValueShowNat(l.a.x);
    DecimalValueShowNat(l.a.y);
    DecimalValueShowNat(l.b.x);
    DecimalValueShowNat(l.b.y);
  }

  /** The lines of the input that match, in order. */
  function ParseLines(input: seq<string>): (lines: seq<Line>)
    ensures |lines| <= |input|
  {
    FilterMap(input, ExtractLineInfo)
  }

  /** A line that does not match is dropped without influence on the rest. */
  lemma ParseLinesIgnoresMalformedLine(before: seq<string>, text: string, after: seq<string>)
    requires ExtractLineInfo(text).None?
    ensures ParseLines(before + [text] + after) == ParseLines(before + after)
  {
    FilterMapSkipsRejected(before, text, after, ExtractLineInfo);
  }

  // ---------------------------------------------------------------------
  // The board's dimensions

  function Max(a: nat, b: nat): nat { if a < b then b else a }
  function Min(a: nat, b: nat): nat { if a < b then a else b }

  /** The fold of `parse_input` over the lines: one more than the largest x
      and the largest y of any endpoint, or (0, 0) with no lines. */
  function Dimensions(lines: seq<Line>): (d: (nat, nat))
    ensures lines == [] ==> d == (0, 0)
    ensures forall i :: 0 <= i < |lines| ==>
              lines[i].a.x < d.0 && lines[i].b.x < d.0 && lines[i].a.y < d.1 && lines[i].b.y < d.1
    ensures lines != [] ==> exists i :: 0 <= i < |lines| && (lines[i].a.x + 1 == d.0 || lines[i].b.x + 1 == d.0)
    ensures lines != [] ==> exists i :: 0 <= i < |lines| && (lines[i].a.y + 1 == d.1 || lines[i].b.y + 1 == d.1)
  {
    if lines == [] then (0, 0)
    else
      var front := lines[..|lines| - 1];
      var l := lines[|lines| - 1];
      var (w, h) := Dimensions(front);
      var w := Max(l.b.x + 1, Max(l.a.x + 1, w));
      var h := Max(l.b.y + 1, Max(l.a.y + 1, h));
      assert forall i :: 0 <= i < |front| ==> lines[i] == front[i];
      (w, h)
  }

  // ---------------------------------------------------------------------
  // Which cells cross_board touches

  /** `process_lines` keeps only horizontal and vertical lines. */
  predicate AxisAligned(l: Line)
  {
    l.a.x == l.b.x || l.a.y == l.b.y
  }

  function StartX(l: Line): nat { Min(l.a.x, l.b.x) }
  function EndX(l: Line): nat { Max(l.a.x, l.b.x) }
  function StartY(l: Line): nat { Min(l.a.y, l.b.y) }
  function EndY(l: Line): nat { Max(l.a.y, l.b.y) }

  /** The cells `cross_board` increments: row `StartY` from `StartX` to
      `EndX` when the x coordinates differ, otherwise column `StartX` from
      `StartY` to `EndY`. */
  predicate Crosses(l: Line, x: nat, y: nat)
  {
    if StartX(l) != EndX(l) then y == StartY(l) && StartX(l) <= x <= EndX(l)
    else x == StartX(l) && StartY(l) <= y <= EndY(l)
  }

  /** `v` lies between `p` and `q`, in whichever order they come. */
  predicate Between(v: nat, p: nat, q: nat)
  {
    p <= v <= q || q <= v <= p
  }

  /** Reference geometry, stated from the endpoints as given: the point is
      on the horizontal line's row between its two x coordinates, or on the
      vertical line's column between its two y coordinates. */
  predicate OnSegment(l: Line, x: nat, y: nat)
  {
    || (l.a.y == l.b.y && y == l.a.y && Between(x, l.a.x, l.b.x))
    || (l.a.x == l.b.x && x == l.a.x && Between(y, l.a.y, l.b.y))
  }

  /** For the lines that are drawn, `cross_board` marks exactly the cells of
      the segment. */
  lemma CrossesIsSegment(l: Line, x: nat, y: nat)
    requires AxisAligned(l)
    ensures Crosses(l, x, y) <==> OnSegment(l, x, y)
  {
  }

  /** The min/max normalisation makes the direction of a line irrelevant. */
  lemma CrossesIgnoresDirection(l: Line, x: nat, y: nat)
    ensures Crosses(Line(l.b, l.a), x, y) == Crosses(l, x, y)
  {
  }

  /** A single-point line marks exactly its point. */
  lemma CrossesPoint(p: Point, x: nat, y: nat)
    ensures Crosses(Line(p, p), x, y) <==> x == p.x && y == p.y
  {
  }

  /** The bounds under which `cross_board` does not panic: the slice of row
      `StartY`, or the column slice taken from every row at `StartX`. */
  predicate Fits(l: Line, width: nat, height: nat)
  {
    if StartX(l) != EndX(l) then StartY(l) < height && EndX(l) < width
    else EndY(l) < height && StartX(l) < width
  }

  /** The number of drawn lines among `lines` that cross cell (x, y). */
  function Coverage(lines: seq<Line>, x: nat, y: nat): (n: nat)
    ensures n <= |lines|
  {
    if lines == [] then 0
    else
      var l := lines[|lines| - 1];
      Coverage(lines[..|lines| - 1], x, y) + (if AxisAligned(l) && Crosses(l, x, y) then 1 else 0)
  }

  /** Coverage adds up over a split of the lines, so their order does not
      matter. */
  lemma {:induction false} CoverageAppend(a: seq<Line>, b: seq<Line>, x: nat, y: nat)
    ensures Coverage(a + b, x, y) == Coverage(a, x, y) + Coverage(b, x, y)
    decreases |b|
  {
    if b == [] {
      assert a + b == a;
    } else {
      var front := b[..|b| - 1];
      assert (a + b)[..|a + b| - 1] == a + front;
      CoverageAppend(a, front, x, y);
    }
  }

  /** A diagonal line adds nothing anywhere. */
  lemma DiagonalIgnored(lines: seq<Line>, l: Line, x: nat, y: nat)
    requires !AxisAligned(l)
    ensures Coverage(lines + [l], x, y) == Coverage(lines, x, y)
  {
    assert (lines + [l])[..|lines + [l]| - 1] == lines;
  }

  /** Coverage as a row-major grid of the board's shape. */
  function CoverageGrid(lines: seq<Line>, width: nat, height: nat): (g: seq<seq<int>>)
    ensures |g| == height
    ensures forall y :: 0 <= y < height ==> |g[y]| == width
  {
    seq(height, y requires 0 <= y < height =>
      seq(width, x requires 0 <= x < width => Coverage(lines, x, y) as int))
  }

  // ---------------------------------------------------------------------
  // find_total_overlaps

  /** The inner fold: the cells of a row holding at least 2. */
  function RowOverlaps(row: seq<int>): (n: nat)
    ensures n <= |row|
    ensures n == 0 <==> forall x :: 0 <= x < |row| ==> row[x] < 2
  {
    if row == [] then 0
    else (if row[0] >= 2 then 1 else 0) + RowOverlaps(row[1..])
  }

  /** The outer fold: the row counts added up. */
  function GridOverlaps(grid: seq<seq<int>>): (n: nat)
    ensures n == 0 <==> forall y, x :: 0 <= y < |grid| && 0 <= x < |grid[y]| ==> grid[y][x] < 2
  {
    if grid == [] then 0
    else
      var n := RowOverlaps(grid[0]) + GridOverlaps(grid[1..]);
      assert n == 0 <==> forall y, x :: 0 <= y < |grid| && 0 <= x < |grid[y]| ==> grid[y][x] < 2 by {
        assert forall y :: 1 <= y < |grid| ==> grid[y] == grid[1..][y - 1];
      }
      n
  }

  /** A grid of `height` rows of `width` cells has at most that many
      overlaps. */
  lemma {:induction false} GridOverlapsBound(grid: seq<seq<int>>, width: nat)
    requires forall y :: 0 <= y < |grid| ==> |grid[y]| == width
    ensures GridOverlaps(grid) <= |grid| * width
  {
    if grid != [] {
      var rest := grid[1..];
      assert forall y :: 0 <= y < |rest| ==> |rest[y]| == width by {
        assert forall y :: 0 <= y < |rest| ==> rest[y] == grid[y + 1];
      }
      GridOverlapsBound(rest, width);
      assert GridOverlaps(grid) == RowOverlaps(grid[0]) + GridOverlaps(rest);
      MulSucc(|rest|, width);
    }
  }

  lemma MulSucc(n: nat, w: nat)
    ensures (n + 1) * w == n * w + w
  {
  }

  /** With fewer than two lines no cell is crossed twice. */
  lemma NoOverlapsWithOneLine(lines: seq<Line>, width: nat, height: nat)
    requires |lines| <= 1
    ensures GridOverlaps(CoverageGrid(lines, width, height)) == 0
  {
    var g := CoverageGrid(lines, width, height);
    forall y, x | 0 <= y < |g| && 0 <= x < |g[y]|
      ensures g[y][x] < 2
    {
      assert g[y][x] == Coverage(lines, x, y) as int;
    }
  }

  /** The same line listed twice makes each of its cells an overlap, so an
      axis-aligned line with its own copy gives at least one. */
  lemma DuplicateLineOverlaps(l: Line, width: nat, height: nat)
    requires AxisAligned(l) && Fits(l, width, height)
    ensures GridOverlaps(CoverageGrid([l, l], width, height)) >= 1
  {
    var g := CoverageGrid([l, l], width, height);
    var x, y := StartX(l), StartY(l);
    assert [l, l][..1] == [l] && [l][..0] == [];
    assert Coverage([l, l], x, y) == 2;
    assert g[y][x] == 2;
  }

  // ---------------------------------------------------------------------
  // The game: the parsed lines and the board of counters

  class Game {
    const lines: seq<Line>
    /** `board[y, x]` is the counter of cell (x, y): one row per y. */
    const board: array2<int>

    /** Every endpoint lies on the board. */
    predicate Valid()
    {
      forall i :: 0 <= i < |lines| ==>
        lines[i].a.x < board.Length1 && lines[i].b.x < board.Length1 &&
        lines[i].a.y < board.Length0 && lines[i].b.y < board.Length0
    }

    predicate Zeroed()
      reads board
    {
      forall y, x :: 0 <= y < board.Length0 && 0 <= x < board.Length1 ==> board[y, x] == 0
    }

    /** The counters row by row. */
    function Cells(): (g: seq<seq<int>>)
      reads board
      ensures |g| == board.Length0
      ensures forall y :: 0 <= y < board.Length0 ==> |g[y]| == board.Length1
      ensures forall y, x :: 0 <= y < board.Length0 && 0 <= x < board.Length1 ==> g[y][x] == board[y, x]
    {
      seq(board.Length0, y requires 0 <= y < board.Length0 reads board =>
        seq(board.Length1, x requires 0 <= x < board.Length1 reads board => board[y, x]))
    }

    /** `parse_input`: the matching lines and a zeroed board of
        `Dimensions(lines)`. */
    constructor (input: seq<string>)
      ensures lines == ParseLines(input)
      ensures board.Length1 == Dimensions(lines).0 && board.Length0 == Dimensions(lines).1
      ensures Valid() && Zeroed()
      ensures fresh(board)
    {
      var parsed := ParseLines(input);
      var (width, height) := Dimensions(parsed);
      lines := parsed;
      board := new int[height, width]((y, x) => 0);
    }

    /** `cross_board`: one more on each cell the line crosses, and no other
        cell changes. */
    method CrossBoard(line: Line)
      requires Fits(line, board.Length1, board.Length0)
      modifies board
      ensures forall y, x :: 0 <= y < board.Length0 && 0 <= x < board.Length1 ==>
                board[y, x] == old(board[y, x]) + (if Crosses(line, x, y) then 1 else 0)
    {
      var startX, endX := StartX(line), EndX(line);
      var startY, endY := StartY(line), EndY(line);
      if startX != endX {
        for x := startX to endX + 1
          invariant forall y', x' :: 0 <= y' < board.Length0 && 0 <= x' < board.Length1 ==>
                      board[y', x'] == old(board[y', x']) + (if y' == startY && startX <= x' < x then 1 else 0)
        {
          board[startY, x] := board[startY, x] + 1;
        }
      } else {
        for y := startY to endY + 1
          invariant forall y', x' :: 0 <= y' < board.Length0 && 0 <= x' < board.Length1 ==>
                      board[y', x'] == old(board[y', x']) + (if x' == startX && startY <= y' < y then 1 else 0)
        {
          board[y, startX] := board[y, startX] + 1;
        }
      }
    }

    /** `process_lines`: every horizontal or vertical line drawn in turn, so
        each cell gains the number of such lines crossing it. */
    method ProcessLines()
      requires Valid()
      modifies board
      ensures forall y, x :: 0 <= y < board.Length0 && 0 <= x < board.Length1 ==>
                board[y, x] == old(board[y, x]) + Coverage(lines, x, y)
    {
      for i := 0 to |lines|
        invariant forall y, x :: 0 <= y < board.Length0 && 0 <= x < board.Length1 ==>
                    board[y, x] == old(board[y, x]) + Coverage(lines[..i], x, y)
      {
        var line := lines[i];
        assert lines[..i + 1][..i] == lines[..i];
        if AxisAligned(line) {
          CrossBoard(line);
        }
      }
      assert lines[..|lines|] == lines;
    }

    /** `find_total_overlaps`: the number of cells holding at least 2, at
        most one per cell and zero exactly when no cell reaches 2. */
    function FindTotalOverlaps(): (n: nat)
      reads board
      ensures n <= board.Length0 * board.Length1
      ensures n == 0 <==> forall y, x :: 0 <= y < board.Length0 && 0 <= x < board.Length1 ==> board[y, x] < 2
    {
      GridOverlapsBound(Cells(), board.Length1);
      GridOverlaps(Cells())
    }
  }

  /** `part1`: draw the lines on the fresh board, then count the overlaps,
      which are those of the coverage grid. */
  method Part1(game: Game) returns (n: nat)
    requires game.Valid() && game.Zeroed()
    modifies game.board
    ensures game.Cells() == CoverageGrid(game.lines, game.board.Length1, game.board.Length0)
    ensures n == GridOverlaps(CoverageGrid(game.lines, game.board.Length1, game.board.Length0))
  {
    game.ProcessLines();
    n := game.FindTotalOverlaps();
    var cells, grid := game.Cells(), CoverageGrid(game.lines, game.board.Length1, game.board.Length0);
    forall y | 0 <= y < game.board.Length0
      ensures cells[y] == grid[y]
    {
      assert forall x :: 0 <= x < game.board.Length1 ==> cells[y][x] == grid[y][x];
    }
    assert cells == grid;
  }

  /** The whole puzzle from the text lines: the overlaps of the coverage of
      the parsed lines over the board their endpoints span. */
  method Solve(input: seq<string>) returns (n: nat)
    ensures n == GridOverlaps(CoverageGrid(ParseLines(input), Dimensions(ParseLines(input)).0,
                                           Dimensions(ParseLines(input)).1))
  {
    var game := new Game(input);
    n := Part1(game);
  }
}
