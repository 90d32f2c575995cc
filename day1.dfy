/** Day 1 (2021/1/src/main.rs): counting depth increases in a sonar sweep,
    one reading at a time (part 1) and over three-reading windows (part 2). */
module SonarSweep {
  import opened Text

  /** `parse_input`: every line that reads as an `i32`, in order; the others
      are dropped. */
  function ParseInput(lines: seq<string>): (values: seq<int>)
    ensures |values| <= |lines|
    ensures forall i :: 0 <= i < |values| ==> InI32(values[i])
  {
    var values := FilterMap(lines, ParseI32);
    assert forall i :: 0 <= i < |values| ==> InI32(values[i]) by {
      ParsedAreI32(lines);
    }
    values
  }

  /** A line that is not a number changes nothing about the readings. */
  lemma ParseInputIgnoresMalformedLine(before: seq<string>, line: string, after: seq<string>)
    requires ParseI32(line).None?
    ensures ParseInput(before + [line] + after) == ParseInput(before + after)
  {
    FilterMapSkipsRejected(before, line, after, ParseI32);
  }

  /** Readings printed one per line are read back exactly. */
  lemma ParseInputReadsPrintedValues(values: seq<int>)
    requires forall i :: 0 <= i < |values| ==> InI32(values[i])
    ensures ParseInput(seq(|values|, i requires 0 <= i < |values| => ShowInt(values[i]))) == values
  {
    var lines := seq(|values|, i requires 0 <= i < |values| => ShowInt(values[i]));
    forall i | 0 <= i < |lines| ensures ParseI32(lines[i]) == Some(values[i]) {
      ParseI32ShowInt(values[i]);
    }
    FilterMapAllAccepted(lines, ParseI32);
  }

  // ---------------------------------------------------------------------
  // Reference definitions

  /** The number of positions j with v[j + lag] > v[j]. */
  function LagIncreases(v: seq<int>, lag: nat): (r: nat)
    ensures r <= if |v| > lag then |v| - lag else 0
  {
    if |v| <= lag then 0
    else (if v[lag] > v[0] then 1 else 0) + LagIncreases(v[1..], lag)
  }

  /** The sum of the three readings starting at j. */
  function Window(v: seq<int>, j: nat): int
    requires j + 3 <= |v|
  {
    v[j] + v[j + 1] + v[j + 2]
  }

  /** The number of positions j at which the window starting at j + 1 has a
      larger sum than the window starting at j. */
  function WindowIncreases(v: seq<int>): nat
  {
    if |v| < 4 then 0
    else (if Window(v, 1) > Window(v, 0) then 1 else 0) + WindowIncreases(v[1..])
  }

  /** Two neighbouring windows share two readings, so comparing their sums
      is comparing the readings three apart. */
  lemma {:induction false} WindowIncreasesAreLagThree(v: seq<int>)
    ensures WindowIncreases(v) == LagIncreases(v, 3)
  {
    if |v| >= 4 {
      WindowIncreasesAreLagThree(v[1..]);
      assert Window(v, 1) > Window(v, 0) <==> v[3] > v[0];
    }
  }

  // ---------------------------------------------------------------------
  // Part 1

  /** The fold of `part1`: the previous reading and the count so far. */
  function Part1From(values: seq<int>, prev: int, increases: int): (r: int)
    ensures increases <= r <= increases + |values|
  {
    if values == [] then increases
    else Part1From(values[1..], values[0], if values[0] > prev then increases + 1 else increases)
  }

  /** `part1`: the fold starts from a previous reading of 0 and a count of -1. */
  function Part1(values: seq<int>): (r: int)
    ensures values == [] ==> r == -1
    ensures -1 <= r < |values|
  {
    Part1From(values, 0, -1)
  }

  lemma {:induction false} Part1FromCounts(values: seq<int>, prev: int, increases: int)
    requires values != []
    ensures Part1From(values, prev, increases)
         == increases + (if values[0] > prev then 1 else 0) + LagIncreases(values, 1)
  {
    var next := if values[0] > prev then increases + 1 else increases;
    if |values| > 1 {
      Part1FromCounts(values[1..], values[0], next);
    }
  }

  /** The start values make `part1` one less than the number of increases
      unless the first reading is positive, and -1 on no readings. */
  lemma Part1Counts(values: seq<int>)
    ensures values == [] ==> Part1(values) == -1
    ensures values != [] && values[0] > 0 ==> Part1(values) == LagIncreases(values, 1)
    ensures values != [] && values[0] <= 0 ==> Part1(values) == LagIncreases(values, 1) - 1
  {
    if values != [] {
      Part1FromCounts(values, 0, -1);
    }
  }

  // ---------------------------------------------------------------------
  // Part 2

  const ChunkSize: nat := 3

  function Sum(c: seq<int>): int
  {
    if c == [] then 0 else Sum(c[..|c| - 1]) + c[|c| - 1]
  }

  /** The filter of `part2`'s first loop: a full chunk gives its sum, a
      shorter one is dropped. */
  function SumIfFull(c: seq<int>): Option<int>
  {
    if |c| < ChunkSize then None else Some(Sum(c))
  }

  lemma SumOfThree(c: seq<int>)
    requires |c| == 3
    ensures Sum(c) == c[0] + c[1] + c[2]
  {
    var p := c[..2];
    assert Sum(c) == Sum(p) + c[2];
    assert p[..1] == [c[0]] && p[1] == c[1];
    assert Sum(p) == Sum([c[0]]) + c[1];
    assert [c[0]][..0] == [];
  }

  /** The sums of the consecutive full chunks of three readings of `s`:
      the windows starting at 0, 3, 6, ... */
  function FullChunkSums(s: seq<int>): (sums: seq<int>)
    ensures |sums| == |s| / ChunkSize
    ensures forall k :: 0 <= k < |sums| ==> sums[k] == Window(s, ChunkSize * k)
  {
    ChunkSumWindows(s);
    FilterMap(Chunks(s, ChunkSize), SumIfFull)
  }

  lemma {:induction false} ChunkSumWindows(s: seq<int>)
    ensures var sums := FilterMap(Chunks(s, ChunkSize), SumIfFull);
            && |sums| == |s| / ChunkSize
            && forall k :: 0 <= k < |sums| ==> sums[k] == Window(s, ChunkSize * k)
    decreases |s|
  {
    if |s| <= ChunkSize {
      ShortChunkSums(s);
    } else {
      var rest := s[ChunkSize..];
      ChunkSumWindows(rest);
      ChunkSumsCons(s);
      var sums := FilterMap(Chunks(s, ChunkSize), SumIfFull);
      var tail := FilterMap(Chunks(rest, ChunkSize), SumIfFull);
      forall k | 1 <= k < |sums| ensures sums[k] == Window(s, ChunkSize * k) {
        assert sums[k] == tail[k - 1];
        assert Window(rest, ChunkSize * (k - 1)) == Window(s, ChunkSize * k);
      }
    }
  }

  /** A sequence of at most three readings is one chunk or none. */
  lemma ShortChunkSums(s: seq<int>)
    requires |s| <= ChunkSize
    ensures FilterMap(Chunks(s, ChunkSize), SumIfFull) == if |s| == ChunkSize then [Window(s, 0)] else []
  {
    if s != [] {
      ChunksShort(s, ChunkSize);
      FilterMapSingleton(s, SumIfFull);
      if |s| == ChunkSize {
        SumOfThree(s);
        assert SumIfFull(s) == Some(Window(s, 0));
      } else {
        assert SumIfFull(s) == None;
      }
    }
  }

  lemma FirstChunkSum(s: seq<int>)
    requires |s| >= ChunkSize
    ensures FilterMap([s[..ChunkSize]], SumIfFull) == [Window(s, 0)]
  {
    var head := s[..ChunkSize];
    FilterMapSingleton(head, SumIfFull);
    SumOfThree(head);
    assert SumIfFull(head) == Some(Window(s, 0));
  }

  /** A first full chunk contributes the first window. */
  lemma ChunkSumsCons(s: seq<int>)
    requires |s| > ChunkSize
    ensures FilterMap(Chunks(s, ChunkSize), SumIfFull)
         == [Window(s, 0)] + FilterMap(Chunks(s[ChunkSize..], ChunkSize), SumIfFull)
  {
    var head, rest := s[..ChunkSize], Chunks(s[ChunkSize..], ChunkSize);
    ChunksCons(s, ChunkSize);
    FilterMapAppend([head], rest, SumIfFull);
    FirstChunkSum(s);
  }

  /** The chunk sums are the windows at 0, 3, 6, ...; a trailing partial
      chunk gives nothing. */
  lemma FullChunkSumsUnfold(s: seq<int>)
    ensures |s| < 3 ==> FullChunkSums(s) == []
    ensures |s| >= 3 ==> FullChunkSums(s) == [Window(s, 0)] + FullChunkSums(s[3..])
  {
    if |s| > 0 {
      var cs := Chunks(s, ChunkSize);
      assert cs[1..] == if |s| <= 3 then [] else Chunks(s[3..], ChunkSize);
      if |s| >= 3 {
        var c := cs[0];
        assert c == s[..3];
        SumOfThree(c);
        if |s| == 3 {
          assert s[3..] == [];
        }
      }
    }
  }

  /** The number of pairs `(a[k], b[k])` of the zipped sequences with
      `b[k] > a[k]`. */
  function ZipIncreases(a: seq<int>, b: seq<int>): (r: nat)
    ensures r <= |a| && r <= |b|
  {
    if a == [] || b == [] then 0
    else (if b[0] > a[0] then 1 else 0) + ZipIncreases(a[1..], b[1..])
  }

  /** What `part2` zips `sums[i]` with: the next offset's sums, and for the
      last offset the first offset's sums without their first element. */
  function Successor(sums: seq<seq<int>>, i: nat): seq<int>
    requires |sums| == ChunkSize && i < ChunkSize
  {
    if i < ChunkSize - 1 then sums[i + 1] else Skip(sums[0], 1)
  }

  /** What `part2`'s second loop has counted after `i` rounds. */
  function PartialIncreases(sums: seq<seq<int>>, i: nat): nat
    requires |sums| == ChunkSize && i <= ChunkSize
  {
    if i == 0 then 0
    else PartialIncreases(sums, i - 1) + ZipIncreases(sums[i - 1], Successor(sums, i - 1))
  }

  /** The total of the three zipped comparisons for readings `v`. */
  function OffsetIncreases(v: seq<int>): nat
  {
    var s0, s1, s2 := FullChunkSums(v), FullChunkSums(Skip(v, 1)), FullChunkSums(Skip(v, 2));
    ZipIncreases(s0, s1) + ZipIncreases(s1, s2) + ZipIncreases(s2, Skip(s0, 1))
  }

  /** Dropping the first reading removes from the total exactly the
      comparison of `v[3]` with `v[0]`. */
  lemma OffsetIncreasesStep(v: seq<int>)
    requires v != []
    ensures OffsetIncreases(v) == OffsetIncreases(v[1..]) + (if |v| >= 4 && v[3] > v[0] then 1 else 0)
  {
    var w := v[1..];
    assert Skip(v, 1) == w;
    assert Skip(v, 2) == Skip(w, 1);
    assert Skip(w, 2) == Skip(v, 3);
    var s0, s1 := FullChunkSums(v), FullChunkSums(w);
    ChunkSumsFromThree(v);
    FullChunkSumsUnfold(w);
    FullChunkSumsUnfold(v);
    ZipFirst(s0, s1);
    if |v| >= 4 {
      assert s1[0] > s0[0] <==> v[3] > v[0];
    }
  }

  /** The chunks of `v` from offset 3 are those from offset 0 without the
      first. */
  lemma ChunkSumsFromThree(v: seq<int>)
    ensures FullChunkSums(Skip(v, 3)) == Skip(FullChunkSums(v), 1)
  {
    FullChunkSumsUnfold(v);
    if |v| >= 3 {
      assert Skip(v, 3) == v[3..];
    } else {
      FullChunkSumsUnfold(Skip(v, 3));
    }
  }

  /** Zipping compares the first elements and then the rest. */
  lemma ZipFirst(a: seq<int>, b: seq<int>)
    ensures a == [] || b == [] ==> ZipIncreases(a, b) == 0 && ZipIncreases(Skip(a, 1), Skip(b, 1)) == 0
    ensures a != [] && b != [] ==>
              ZipIncreases(a, b) == (if b[0] > a[0] then 1 else 0) + ZipIncreases(Skip(a, 1), Skip(b, 1))
  {
  }

  /** Interleaving the three offsets compares every window with the next
      one, so the total counts exactly the increases three readings apart. */
  lemma {:induction false} OffsetIncreasesAreLagThree(v: seq<int>)
    ensures OffsetIncreases(v) == LagIncreases(v, 3)
    decreases |v|
  {
    if v == [] {
      FullChunkSumsUnfold(v);
    } else {
      OffsetIncreasesAreLagThree(v[1..]);
      OffsetIncreasesStep(v);
    }
  }

  /** The three rounds of `part2`'s second loop add up the three zipped
      comparisons. */
  lemma PartialIncreasesTotal(sums: seq<seq<int>>, values: seq<int>)
    requires |sums| == ChunkSize
    requires forall k :: 0 <= k < ChunkSize ==> sums[k] == FullChunkSums(Skip(values, k))
    ensures PartialIncreases(sums, ChunkSize) == OffsetIncreases(values)
  {
    assert PartialIncreases(sums, 1) == ZipIncreases(sums[0], sums[1]);
    assert PartialIncreases(sums, 2) == PartialIncreases(sums, 1) + ZipIncreases(sums[1], sums[2]);
    assert PartialIncreases(sums, 3) == PartialIncreases(sums, 2) + ZipIncreases(sums[2], Skip(sums[0], 1));
    assert Skip(values, 0) == values;
  }

  /** The first loop of `part2`: for each offset, the sums of the full
      three-reading chunks of the readings from that offset on. */
  method OffsetSums(values: seq<int>) returns (sums: seq<seq<int>>)
    ensures |sums| == ChunkSize
    ensures forall k :: 0 <= k < ChunkSize ==> sums[k] == FullChunkSums(Skip(values, k))
  {
    sums := [];
    for i := 0 to ChunkSize
      invariant |sums| == i
      invariant forall k :: 0 <= k < i ==> sums[k] == FullChunkSums(Skip(values, k))
    {
      sums := sums + [FullChunkSums(Skip(values, i))];
    }
  }

  /** `part2`: the chunk sums at offsets 0, 1 and 2, then the number of
      times a sum is followed by a larger one when the chunks of all three
      offsets are read in their interleaved order. */
  method Part2(values: seq<int>) returns (increases: nat)
    ensures increases == LagIncreases(values, 3)
    ensures increases == WindowIncreases(values)
    ensures |values| < 4 ==> increases == 0
  {
    var sums := OffsetSums(values);
    increases := 0;
    for i := 0 to ChunkSize
      invariant increases == PartialIncreases(sums, i)
    {
      var next := if i < ChunkSize - 1 then sums[i + 1] else Skip(sums[0], 1);
      increases := increases + ZipIncreases(sums[i], next);
    }
    PartialIncreasesTotal(sums, values);
    OffsetIncreasesAreLagThree(values);
    WindowIncreasesAreLagThree(values);
  }
}
