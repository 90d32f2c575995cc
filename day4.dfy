/** Day 4 (2021/4/src/main.rs): reading a bingo game, a line with the
    comma-separated draw list followed by boards, each block of six lines
    giving one board. The file solves nothing yet: `part1` always answers 0. */
module GiantSquid {
  import opened Text

  /** The rows of a board, each the numbers read from one line. */
  type Board = seq<seq<int>>

  datatype Game = Game(boards: seq<Board>, drawnNumbers: seq<int>)

  const LinesPerBoard: nat := 6

  /** The comma-separated tokens that parse as `i32`, in order. */
  function ParseDrawList(line: string): (numbers: seq<int>)
    ensures |numbers| <= |Split(line, ',')|
    ensures forall i :: 0 <= i < |numbers| ==> InI32(numbers[i])
    ensures ParseI32(line).Some? ==> numbers == [ParseI32(line).value]
  {
    Tokens(line, ',');
    FilterMap(Split(line, ','), ParseI32)
  }

  /** The tokens between single spaces that parse as `i32`, in order. */
  function ParseBoardRow(line: string): (row: seq<int>)
    ensures |row| <= |Split(line, ' ')|
    ensures forall i :: 0 <= i < |row| ==> InI32(row[i])
  {
    Tokens(line, ' ');
    FilterMap(Split(line, ' '), ParseI32)
  }

  /** The numbers read from the pieces are 32-bit integers, and a text that
      is itself one number, which holds neither a comma nor a space, is a
      single piece. */
  lemma Tokens(line: string, sep: char)
    requires sep == ',' || sep == ' '
    ensures forall i :: 0 <= i < |FilterMap(Split(line, sep), ParseI32)| ==>
              InI32(FilterMap(Split(line, sep), ParseI32)[i])
    ensures ParseI32(line).Some? ==> FilterMap(Split(line, sep), ParseI32) == [ParseI32(line).value]
  {
    ParsedAreI32(Split(line, sep));
    if ParseI32(line).Some? {
      SplitWithoutSeparator(line, sep);
      FilterMapSingleton(line, ParseI32);
    }
  }

  /** An empty line gives no row; any other line gives one. */
  function BoardRowOf(line: string): Option<seq<int>>
  {
    if line == [] then None else Some(ParseBoardRow(line))
  }

  /** One chunk of lines as a board: a row per non-empty line. */
  function ParseBoard(chunk: seq<string>): (board: Board)
    ensures |board| <= |chunk|
    ensures (forall i :: 0 <= i < |chunk| ==> chunk[i] != []) ==>
              |board| == |chunk| && forall i :: 0 <= i < |chunk| ==> board[i] == ParseBoardRow(chunk[i])
  {
    assert (forall i :: 0 <= i < |chunk| ==> chunk[i] != []) ==>
             |FilterMap(chunk, BoardRowOf)| == |chunk|
             && forall i :: 0 <= i < |chunk| ==> FilterMap(chunk, BoardRowOf)[i] == ParseBoardRow(chunk[i]) by {
      if forall i :: 0 <= i < |chunk| ==> chunk[i] != [] {
        FilterMapAllAccepted(chunk, BoardRowOf);
      }
    }
    FilterMap(chunk, BoardRowOf)
  }

  /** `parse_input`: the draw list from the first line, the second line
      skipped, and one board per chunk of six of the remaining lines. */
  function ParseInput(lines: seq<string>): (game: Game)
    ensures lines == [] ==> game == Game([], [])
    ensures |game.boards| == (|Skip(lines, 2)| + LinesPerBoard - 1) / LinesPerBoard
  {
    var drawnNumbers := if |lines| > 0 then ParseDrawList(lines[0]) else [];
    var chunks := Chunks(Skip(lines, 2), LinesPerBoard);
    var boards := seq(|chunks|, i requires 0 <= i < |chunks| => ParseBoard(chunks[i]));
    Game(boards, drawnNumbers)
  }

  /** `part1` is a stub. */
  function Part1(game: Game): (r: int)
    ensures r == 0
  {
    0
  }

  // ---------------------------------------------------------------------
  // Properties of the parser

  /** The second line has no influence on the game. */
  lemma SecondLineSkipped(lines: seq<string>, other: string)
    requires |lines| >= 2
    ensures ParseInput(lines[1 := other]) == ParseInput(lines)
  {
    assert Skip(lines[1 := other], 2) == Skip(lines, 2);
  }

  /** Every line after the second belongs to exactly one board's chunk, in
      order. */
  lemma ChunksCoverLines(lines: seq<string>)
    ensures Flatten(Chunks(Skip(lines, 2), LinesPerBoard)) == Skip(lines, 2)
  {
    FlattenChunks(Skip(lines, 2), LinesPerBoard);
  }

  /** The draw list reads back the numbers it was written from. */
  lemma DrawListRoundTrip(numbers: seq<int>)
    requires |numbers| >= 1
    requires forall i :: 0 <= i < |numbers| ==> InI32(numbers[i])
    ensures ParseDrawList(Join(ShowAll(numbers), ',')) == numbers
  {
    ShowAllParses(numbers);
    SplitJoin(ShowAll(numbers), ',');
    FilterMapAllAccepted(ShowAll(numbers), ParseI32);
  }

  function ShowAll(numbers: seq<int>): (texts: seq<string>)
    ensures |texts| == |numbers|
  {
    seq(|numbers|, i requires 0 <= i < |numbers| => ShowInt(numbers[i]))
  }

  lemma ShowAllParses(numbers: seq<int>)
    requires forall i :: 0 <= i < |numbers| ==> InI32(numbers[i])
    ensures forall i :: 0 <= i < |numbers| ==> ParseI32(ShowAll(numbers)[i]) == Some(numbers[i])
    ensures forall i :: 0 <= i < |numbers| ==> ',' !in ShowAll(numbers)[i] && ' ' !in ShowAll(numbers)[i]
  {
    forall i | 0 <= i < |numbers|
      ensures ParseI32(ShowAll(numbers)[i]) == Some(numbers[i])
      ensures ',' !in ShowAll(numbers)[i] && ' ' !in ShowAll(numbers)[i]
    {
      ParseI32ShowInt(numbers[i]);
    }
  }

  /** A draw list reads piece by piece around a comma, so a token that is
      not a number drops out without disturbing the others. */
  lemma DrawListAroundComma(a: string, b: string)
    ensures ParseDrawList(a + [','] + b) == ParseDrawList(a) + ParseDrawList(b)
  {
    SplitAround(a, b, ',');
    FilterMapAppend(Split(a, ','), Split(b, ','), ParseI32);
  }

  /** A row reads piece by piece around a space. */
  lemma BoardRowAroundSpace(a: string, b: string)
    ensures ParseBoardRow(a + [' '] + b) == ParseBoardRow(a) + ParseBoardRow(b)
  {
    SplitAround(a, b, ' ');
    FilterMapAppend(Split(a, ' '), Split(b, ' '), ParseI32);
  }

  /** Repeated spaces, as in right-aligned board columns, give empty tokens,
      which are dropped: a second space changes nothing. */
  lemma BoardRowRepeatedSpace(a: string, b: string)
    ensures ParseBoardRow(a + [' ', ' '] + b) == ParseBoardRow(a + [' '] + b)
  {
    var tail: string := [' '] + b;
    assert a + [' ', ' '] + b == a + [' '] + tail;
    BoardRowAroundSpace(a, tail);
    BoardRowLeadingSpace(b);
    BoardRowAroundSpace(a, b);
  }

  lemma BoardRowLeadingSpace(b: string)
    ensures ParseBoardRow([' '] + b) == ParseBoardRow(b)
  {
    assert [' '] + b == [] + [' '] + b;
    BoardRowAroundSpace([], b);
    assert Split([], ' ') == [[]];
    assert ParseBoardRow([]) == [];
  }

  /** A row written with single spaces reads back its numbers. */
  lemma BoardRowRoundTrip(numbers: seq<int>)
    requires |numbers| >= 1
    requires forall i :: 0 <= i < |numbers| ==> InI32(numbers[i])
    ensures ParseBoardRow(Join(ShowAll(numbers), ' ')) == numbers
  {
    ShowAllParses(numbers);
    SplitJoin(ShowAll(numbers), ' ');
    FilterMapAllAccepted(ShowAll(numbers), ParseI32);
  }

  /** A board has one row per non-empty line of its chunk, in order, and an
      empty line contributes nothing. */
  lemma BoardOfLines(before: seq<string>, line: string, after: seq<string>)
    ensures ParseBoard(before + [line] + after)
         == ParseBoard(before) + (if line == [] then [] else [ParseBoardRow(line)]) + ParseBoard(after)
  {
    FilterMapAppend(before + [line], after, BoardRowOf);
    FilterMapAppend(before, [line], BoardRowOf);
    FilterMapSingleton(line, BoardRowOf);
  }

  /** The puzzle's layout, a blank line and then five rows, gives a board of
      those five rows. */
  lemma StandardChunk(rows: seq<string>)
    requires |rows| == LinesPerBoard - 1
    requires forall i :: 0 <= i < |rows| ==> rows[i] != []
    ensures |ParseBoard([[]] + rows)| == 5
    ensures forall i :: 0 <= i < 5 ==> ParseBoard([[]] + rows)[i] == ParseBoardRow(rows[i])
  {
    var blank: seq<string> := [[]];
    assert [[]] + rows == blank + rows;
    FilterMapAppend(blank, rows, BoardRowOf);
    FilterMapSingleton([], BoardRowOf);
    FilterMapAllAccepted(rows, BoardRowOf);
  }
}
