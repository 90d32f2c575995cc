/** Day 2 (2021/2/src/main.rs): dead reckoning of a submarine from a list of
    `forward`, `up` and `down` moves, without aim (part 1) and with aim
    (part 2). */
module Dive {
  import opened Text

  datatype Move = Forward(n: int) | Up(n: int) | Down(n: int)

  /** Horizontal position and depth. */
  datatype Position = Position(x: int, y: int)

  // ---------------------------------------------------------------------
  // Reference definitions

  function SumForward(moves: seq<Move>): int
  {
    if moves == [] then 0
    else
      var last := match moves[|moves| - 1] case Forward(n) => n case _ => 0;
      SumForward(moves[..|moves| - 1]) + last
  }

  /** Down moves minus up moves. */
  function SumVertical(moves: seq<Move>): int
  {
    if moves == [] then 0
    else
      var last := match moves[|moves| - 1] case Down(n) => n case Up(n) => -n case Forward(_) => 0;
      SumVertical(moves[..|moves| - 1]) + last
  }

  /** The depth reached with aim: every forward move dives by its magnitude
      times the down-minus-up total of the moves before it. */
  function AimedDepth(moves: seq<Move>): int
  {
    if moves == [] then 0
    else
      var init := moves[..|moves| - 1];
      AimedDepth(init) + DiveOf(moves[|moves| - 1], SumVertical(init))
  }

  /** How far one move dives at a given aim. */
  function DiveOf(m: Move, aim: int): (d: int)
    ensures d == aim * SumForward([m])
  {
    assert [m][..0] == [];
    match m case Forward(n) => n * aim case _ => 0
  }

  // ---------------------------------------------------------------------
  // Part 1

  /** One step of `part1`'s fold: the move's own share of the two totals. */
  function Step1(position: Position, m: Move): (next: Position)
    ensures next == Position(position.x + SumForward([m]), position.y + SumVertical([m]))
  {
    assert [m][..0] == [];
    match m
    case Forward(n) => Position(position.x + n, position.y)
    case Up(n) => Position(position.x, position.y - n)
    case Down(n) => Position(position.x, position.y + n)
  }

  /** `part1`'s left fold from `start`. */
  function Displacement1(start: Position, moves: seq<Move>): Position
    decreases |moves|
  {
    if moves == [] then start else Displacement1(Step1(start, moves[0]), moves[1..])
  }

  /** `part1`: the product of the final horizontal position and depth. */
  function Part1(moves: seq<Move>): (r: int)
    ensures r == SumForward(moves) * SumVertical(moves)
  {
    Displacement1Sums(Position(0, 0), moves);
    var d := Displacement1(Position(0, 0), moves);
    d.x * d.y
  }

  lemma {:induction false} Displacement1Sums(start: Position, moves: seq<Move>)
    ensures Displacement1(start, moves)
         == Position(start.x + SumForward(moves), start.y + SumVertical(moves))
    decreases |moves|
  {
    if moves != [] {
      var m := moves[0];
      var rest := moves[1..];
      Displacement1Sums(Step1(start, m), rest);
      SumsOfCons(m, rest);
      assert [m] + rest == moves;
    }
  }

  /** The reference sums seen from the front of the list. */
  lemma {:induction false} SumsOfCons(m: Move, rest: seq<Move>)
    ensures SumForward([m] + rest) == SumForward([m]) + SumForward(rest)
    ensures SumVertical([m] + rest) == SumVertical([m]) + SumVertical(rest)
    decreases |rest|
  {
    if rest != [] {
      var init := rest[..|rest| - 1];
      SumsOfCons(m, init);
      assert ([m] + rest)[..|rest|] == [m] + init;
    } else {
      assert [m] + rest == [m];
    }
  }

  /** Part 1's position is the total of the forward moves and the total of
      the down moves less the up moves. */
  lemma Part1IsProductOfSums(moves: seq<Move>)
    ensures Displacement1(Position(0, 0), moves) == Position(SumForward(moves), SumVertical(moves))
    ensures Part1(moves) == SumForward(moves) * SumVertical(moves)
  {
    Displacement1Sums(Position(0, 0), moves);
  }

  // ---------------------------------------------------------------------
  // Part 2

  /** One step of `part2`'s fold over the position and the aim: the move's
      share of the forward total moves it on, that share times the aim takes
      it down, and its share of the vertical total turns the aim. */
  function Step2(state: (Position, int), m: Move): (next: (Position, int))
    ensures next == (Position(state.0.x + SumForward([m]), state.0.y + state.1 * SumForward([m])),
                     state.1 + SumVertical([m]))
  {
    assert [m][..0] == [];
    var (position, aim) := state;
    match m
    case Forward(n) => (Position(position.x + n, position.y + n * aim), aim)
    case Up(n) => (position, aim - n)
    case Down(n) => (position, aim + n)
  }

  /** `part2`'s left fold from `start`. */
  function Displacement2(start: (Position, int), moves: seq<Move>): (Position, int)
    decreases |moves|
  {
    if moves == [] then start else Displacement2(Step2(start, moves[0]), moves[1..])
  }

  /** `part2`: the product of the final horizontal position and depth. */
  function Part2(moves: seq<Move>): (r: int)
    ensures r == SumForward(moves) * AimedDepth(moves)
  {
    Displacement2Sums((Position(0, 0), 0), moves);
    var (d, _) := Displacement2((Position(0, 0), 0), moves);
    d.x * d.y
  }

  /** Part 2's fold from any start: the forward total moves the submarine
      on, the starting aim applies to all of it, and the aim the moves build
      up gives the aimed depth. */
  lemma {:induction false} Displacement2Sums(start: (Position, int), moves: seq<Move>)
    ensures Displacement2(start, moves)
         == (Position(start.0.x + SumForward(moves), start.0.y + start.1 * SumForward(moves) + AimedDepth(moves)),
             start.1 + SumVertical(moves))
    decreases |moves|
  {
    if moves != [] {
      var m, rest := moves[0], moves[1..];
      assert [m] + rest == moves;
      SumsOfCons(m, rest);
      AimedDepthOfCons(m, rest);
      Displacement2Sums(Step2(start, m), rest);
      Distribute(start.1, SumForward([m]), SumVertical([m]), SumForward(rest));
    }
  }

  lemma Distribute(a: int, f: int, v: int, rest: int)
    ensures a * f + (a + v) * rest == a * (f + rest) + v * rest
  {
  }

  /** The aimed depth seen from the front of the list: the first move's
      vertical share applies to every later forward move. */
  lemma {:induction false} AimedDepthOfCons(m: Move, rest: seq<Move>)
    ensures AimedDepth([m] + rest) == SumVertical([m]) * SumForward(rest) + AimedDepth(rest)
    decreases |rest|
  {
    if rest == [] {
      assert [m] + rest == [m];
      assert [m][..0] == [];
    } else {
      var init, last := rest[..|rest| - 1], rest[|rest| - 1];
      AimedDepthOfCons(m, init);
      assert ([m] + rest)[..|rest|] == [m] + init;
      SumsOfCons(m, init);
      assert SumForward(rest) == SumForward(init) + SumForward([last]) by {
        assert [last][..0] == [];
      }
      Distribute(SumVertical([m]), SumForward(init), SumVertical(init), SumForward([last]));
    }
  }

  /** Up and down only turn the aim; forward moves the submarine by its
      magnitude and dives by magnitude times aim, keeping the aim. */
  lemma Step2Effect(position: Position, aim: int, m: Move)
    ensures !m.Forward? ==> Step2((position, aim), m).0 == position
    ensures m.Up? ==> Step2((position, aim), m).1 == aim - m.n
    ensures m.Down? ==> Step2((position, aim), m).1 == aim + m.n
    ensures m.Forward? ==> Step2((position, aim), m)
                           == (Position(position.x + m.n, position.y + m.n * aim), aim)
  {
  }

  lemma {:induction false} Displacement2AgreesWith1(pos1: Position, pos2: Position, aim: int, moves: seq<Move>)
    requires pos1.x == pos2.x && pos1.y == aim
    ensures Displacement2((pos2, aim), moves).0.x == Displacement1(pos1, moves).x
    ensures Displacement2((pos2, aim), moves).1 == Displacement1(pos1, moves).y
    decreases |moves|
  {
    if moves != [] {
      var s := Step2((pos2, aim), moves[0]);
      Displacement2AgreesWith1(Step1(pos1, moves[0]), s.0, s.1, moves[1..]);
    }
  }

  /** The two parts travel the same horizontal distance, and the aim part 2
      ends with is the depth part 1 ends at. */
  lemma Part2AimIsPart1Depth(moves: seq<Move>)
    ensures Displacement2((Position(0, 0), 0), moves).0.x == SumForward(moves)
    ensures Displacement2((Position(0, 0), 0), moves).1 == SumVertical(moves)
  {
    Displacement2AgreesWith1(Position(0, 0), Position(0, 0), 0, moves);
    Part1IsProductOfSums(moves);
  }

  /** With no moves both parts answer 0. */
  lemma NoMovesNoDisplacement()
    ensures Part1([]) == 0 && Part2([]) == 0
  {
  }

  // ---------------------------------------------------------------------
  // parse_input

  predicate StartsWith(s: string, prefix: string)
  {
    |prefix| <= |s| && s[..|prefix|] == prefix
  }

  /** What `parse_input` asks of a line: slicing past the prefix and its
      separator must not run off the end of the line. */
  predicate Sliceable(line: string)
  {
    if StartsWith(line, "forward") then |line| >= 8
    else if StartsWith(line, "up") then |line| >= 3
    else if StartsWith(line, "down") then |line| >= 5
    else true
  }

  /** The prefixes are tried in the order `forward`, `up`, `down`; the
      number is read after skipping one more character than the prefix. */
  function ParseMove(line: string): (r: Option<Move>)
    requires Sliceable(line)
    ensures r.Some? ==> InI32(r.value.n)
    ensures r.Some? && r.value.Forward? ==>
              StartsWith(line, "forward") && ParseI32(line[8..]) == Some(r.value.n)
    ensures r.Some? && r.value.Up? ==>
              !StartsWith(line, "forward") && StartsWith(line, "up") && ParseI32(line[3..]) == Some(r.value.n)
    ensures r.Some? && r.value.Down? ==>
              !StartsWith(line, "forward") && !StartsWith(line, "up") && StartsWith(line, "down")
              && ParseI32(line[5..]) == Some(r.value.n)
    ensures r.None? <==> !(StartsWith(line, "forward") || StartsWith(line, "up") || StartsWith(line, "down"))
                         || ParseI32(line[PrefixLength(line) + 1..]).None?
  {
    if StartsWith(line, "forward") then
      match ParseI32(line[8..]) case Some(n) => Some(Forward(n)) case None => None
    else if StartsWith(line, "up") then
      match ParseI32(line[3..]) case Some(n) => Some(Up(n)) case None => None
    else if StartsWith(line, "down") then
      match ParseI32(line[5..]) case Some(n) => Some(Down(n)) case None => None
    else None
  }

  /** The length of the first prefix that matches, 0 when none does. */
  function PrefixLength(line: string): nat
  {
    if StartsWith(line, "forward") then 7
    else if StartsWith(line, "up") then 2
    else if StartsWith(line, "down") then 4
    else 0
  }

  /** `parse_input`: the moves of the lines that parse, in order. */
  function ParseInput(lines: seq<string>): (moves: seq<Move>)
    requires forall i :: 0 <= i < |lines| ==> Sliceable(lines[i])
    ensures |moves| <= |lines|
  {
    if lines == [] then []
    else (match ParseMove(lines[0]) case Some(m) => [m] case None => []) + ParseInput(lines[1..])
  }

  /** A line that is not a move changes nothing about the moves. */
  lemma {:induction false} ParseInputIgnoresMalformedLine(before: seq<string>, line: string, after: seq<string>)
    requires forall i :: 0 <= i < |before| ==> Sliceable(before[i])
    requires forall i :: 0 <= i < |after| ==> Sliceable(after[i])
    requires Sliceable(line) && ParseMove(line).None?
    ensures ParseInput(before + [line] + after) == ParseInput(before + after)
    decreases |before|
  {
    if before == [] {
      assert before + [line] + after == [line] + after;
      assert ([line] + after)[1..] == after;
      assert before + after == after;
    } else {
      var whole, without := before + [line] + after, before + after;
      assert whole[0] == before[0] && without[0] == before[0];
      assert whole[1..] == before[1..] + [line] + after;
      assert without[1..] == before[1..] + after;
      ParseInputIgnoresMalformedLine(before[1..], line, after);
    }
  }

  /** The text a move is written as in the puzzle input. */
  function ShowMove(m: Move): string
  {
    match m
    case Forward(n) => "forward " + ShowInt(n)
    case Up(n) => "up " + ShowInt(n)
    case Down(n) => "down " + ShowInt(n)
  }

  /** Every move with a 32-bit magnitude is read back from its text. */
  lemma ParseMoveShowMove(m: Move)
    requires InI32(m.n)
    ensures Sliceable(ShowMove(m)) && ParseMove(ShowMove(m)) == Some(m)
  {
    ParseI32ShowInt(m.n);
    var s := ShowMove(m);
    var digits := ShowInt(m.n);
    match m
    case Forward(n) =>
      assert s[..7] == "forward";
      assert s[8..] == digits;
    case Up(n) =>
      assert s[..2] == "up";
      assert s[3..] == digits;
      assert !StartsWith(s, "forward") by {
        if |s| >= 7 { assert s[0] != "forward"[0]; }
      }
    case Down(n) =>
      assert s[..4] == "down";
      assert s[5..] == digits;
      assert !StartsWith(s, "forward") by {
        if |s| >= 7 { assert s[0] != "forward"[0]; }
      }
      assert !StartsWith(s, "up") by {
        assert s[0] != "up"[0];
      }
  }

  /** The worked example of the puzzle: 150 without aim, 900 with aim. */
  lemma Example()
    ensures var moves := [Forward(5), Down(5), Forward(8), Up(3), Down(8), Forward(2)];
            Part1(moves) == 150 && Part2(moves) == 900
  {
    var moves := [Forward(5), Down(5), Forward(8), Up(3), Down(8), Forward(2)];
    Part1IsProductOfSums(moves);
    assert moves[..5] == [Forward(5), Down(5), Forward(8), Up(3), Down(8)];
    assert moves[..5][..4] == [Forward(5), Down(5), Forward(8), Up(3)];
    assert moves[..5][..4][..3] == [Forward(5), Down(5), Forward(8)];
    assert moves[..5][..4][..3][..2] == [Forward(5), Down(5)];
    assert moves[..5][..4][..3][..2][..1] == [Forward(5)];
    assert SumForward(moves) == 15;
    assert SumVertical(moves) == 10;
    // Part 2, replayed from the last move back to the first.
    assert Displacement2((Position(13, 40), 10), [Forward(2)]) == (Position(15, 60), 10);
    assert Displacement2((Position(13, 40), 2), [Down(8), Forward(2)]) == (Position(15, 60), 10);
    assert Displacement2((Position(13, 40), 5), [Up(3), Down(8), Forward(2)]) == (Position(15, 60), 10);
    assert Displacement2((Position(5, 0), 5), [Forward(8), Up(3), Down(8), Forward(2)]) == (Position(15, 60), 10);
    assert Displacement2((Position(5, 0), 0), [Down(5), Forward(8), Up(3), Down(8), Forward(2)])
        == (Position(15, 60), 10);
    var s := Displacement2((Position(0, 0), 0), moves);
    assert moves[1..] == [Down(5), Forward(8), Up(3), Down(8), Forward(2)];
    assert s == (Position(15, 60), 10);
  }
}
