# Advent of Code 2021, days 1 to 5, in Dafny

A model of five single-file Rust solutions to the 2021 Advent of Code
puzzles, with proofs about what each computes:

- `text.dfy` (module `Text`): the pieces of Rust's standard library the
  parsers rely on — `Option`, `filter_map`, `str::split` on one character,
  `slice::chunks`, `skip`, ASCII decimal digits and `i32::from_str` — with
  their round trips.
- `day1.dfy` (module `SonarSweep`): counting depth increases, one reading at
  a time (a fold that starts from a previous reading of 0 and a count of -1)
  and over three-reading windows (chunk sums at three offsets compared in an
  interleaved order, proved equal to counting `v[j + 3] > v[j]`).
- `day2.dfy` (module `Dive`): the two dead-reckoning folds over
  `forward`/`up`/`down` moves and the prefix-dispatch parser.
- `day3.dfy` (module `BinaryDiagnostic`): per-column most and least common
  bits with the source's tie rules, `binary_vec_to_i32`, the 12-bit epsilon
  mask, and the recursive oxygen/CO2 filter, which is a partial function in
  the source and is modelled as one returning `Option` (`None` where the Rust
  recurses forever or panics).
- `day4.dfy` (module `GiantSquid`): the bingo input parser (draw list,
  skipped line, chunks of six lines, space-split rows) and the `part1` stub.
- `day5.dfy` (module `HydrothermalVenture`): a recogniser for
  `x1,y1 -> x2,y2`, the board's dimensions, and a `Game` class owning a
  two-dimensional array of counters that `CrossBoard` and `ProcessLines`
  update in place, proved to leave every cell equal to the number of
  horizontal or vertical lines crossing it; `FindTotalOverlaps` counts the
  cells holding at least 2.

Each `parse_input` is modelled as a function over the sequence of lines the
file holds. Panics of the Rust code (`rows[0]` on no rows, `l[8..]` on a bare
`forward`, `unwrap` of a failed conversion, an out-of-range slice of the
board) become preconditions; the only non-terminating path, the day-3
filter, is modelled as an `Option`.

Where the code computes something other than the published Advent of Code
2021 puzzle statements ask for, the model follows the code:

- Day 1 `part1` returns the number of increases only when the first reading
  is positive; otherwise it is one less, and -1 with no readings
  (`SonarSweep.Part1Counts`).
- Day 3 `part1`: epsilon masks twelve bits whatever the width of the rows,
  so it is the value of the least common bits only for twelve-digit rows
  (`BinaryDiagnostic.EpsilonOfTwelveColumns`); on the puzzle's five-digit
  example it is `4095 - gamma` rather than `31 - gamma`.
- Day 4 has no bingo solver: `part1` returns 0 and nothing marks,
  detects winners or scores.

The day-3 tie rules, 1 for the oxygen rating and 0 for the CO2 rating, are
the puzzle's own (`BinaryDiagnostic.CommonBitRules`).

## Model

| member | source | states |
|---|---|---|
| Text.FilterMap | 2021/1/src/main.rs:56-61 | at most one value per element; which values, and in which order, is stated by the lemmas below |
| Text.FilterMapSkipsRejected | 2021/1/src/main.rs:56-61 | an element the conversion rejects can be removed without changing what is collected from the others |
| Text.FilterMapAllAccepted | 2021/1/src/main.rs:56-61 | when every element converts, nothing is dropped and the values keep their order |
| Text.FilterMapAppend | 2021/4/src/main.rs:41-51 | `filter_map` distributes over concatenation |
| Text.Split | 2021/4/src/main.rs:32 | `split` on a character always gives at least one piece, and no piece contains the separator |
| Text.JoinSplit | 2021/4/src/main.rs:32 | the pieces rejoined with the separator give back the original string |
| Text.SplitJoin | 2021/4/src/main.rs:32 | separator-free pieces joined and split come back unchanged |
| Text.SplitAround | 2021/4/src/main.rs:45 | splitting `a + sep + b` is splitting `a` and `b` separately |
| Text.Chunks | 2021/4/src/main.rs:38 | `chunks(k)` gives ⌈n/k⌉ non-empty pieces of at most `k` elements, all but the last exactly `k` |
| Text.FlattenChunks | 2021/4/src/main.rs:38 | the chunks concatenated give back the sequence |
| Text.Skip | 2021/1/src/main.rs:28 | `skip(n)` keeps the elements from index `n` on, none when there are fewer |
| Text.DecimalValueShowNat | 2021/5/src/main.rs:95-102 | reading a rendered natural number gives it back |
| Text.ParseI32 | 2021/1/src/main.rs:58 | an accepted string is an optional `+` or `-` followed by one or more ASCII digits, holds no space or comma, and gives the signed decimal value, which fits in 32 bits; conversely every such numeral in range is accepted with that value |
| Text.ParseI32ShowInt | 2021/1/src/main.rs:58 | every 32-bit integer survives printing and parsing |
| SonarSweep.ParseInput | 2021/1/src/main.rs:53-62 | the readings are at most one per line and all fit in 32 bits |
| SonarSweep.ParseInputIgnoresMalformedLine | 2021/1/src/main.rs:56-61 | a line that is not an `i32` has no influence on the readings |
| SonarSweep.ParseInputReadsPrintedValues | 2021/1/src/main.rs:56-61 | readings printed one per line are parsed back exactly, in order |
| SonarSweep.LagIncreases | 2021/1/src/main.rs:40-50 | the number of positions j with `v[j + lag] > v[j]` is at most `max(n - lag, 0)` |
| SonarSweep.WindowIncreasesAreLagThree | 2021/1/src/main.rs:40-50 | counting increasing neighbouring three-reading window sums is counting `v[j + 3] > v[j]` |
| SonarSweep.Part1 | 2021/1/src/main.rs:12-22 | `part1` is -1 on no readings and otherwise lies between -1 and one less than the number of readings |
| SonarSweep.Part1FromCounts | 2021/1/src/main.rs:14-20 | the fold adds one for the first reading exceeding the start value, then one per consecutive increase |
| SonarSweep.Part1Counts | 2021/1/src/main.rs:12-22 | `part1` is -1 on no readings, the number of consecutive increases when the first reading is positive, and one less otherwise |
| SonarSweep.SumOfThree | 2021/1/src/main.rs:34 | the sum of a three-reading chunk is its three readings added |
| SonarSweep.FullChunkSums | 2021/1/src/main.rs:28-36 | the chunk sums of `n` readings are `n / 3` values, the k-th being the window sum of the readings at `3k`, `3k + 1`, `3k + 2` |
| SonarSweep.ChunkSumWindows | 2021/1/src/main.rs:29-36 | `chunks(3)` filtered to the full chunks and summed gives the windows at 0, 3, 6, ... |
| SonarSweep.FullChunkSumsUnfold | 2021/1/src/main.rs:26-38 | the sums at one offset are the window sums at that offset, 3 apart, with a trailing partial chunk dropped |
| SonarSweep.ChunkSumsFromThree | 2021/1/src/main.rs:27-38 | the chunk sums from offset 3 are those from offset 0 without the first |
| SonarSweep.ZipIncreases | 2021/1/src/main.rs:42-48 | the zipped comparison counts at most one increase per pair, so no more than the shorter sequence holds |
| SonarSweep.OffsetIncreasesStep | 2021/1/src/main.rs:40-49 | dropping the first reading removes from the interleaved total exactly the comparison of `v[3]` with `v[0]` |
| SonarSweep.OffsetIncreasesAreLagThree | 2021/1/src/main.rs:40-49 | the three interleaved zipped comparisons together count exactly the `v[j + 3] > v[j]` |
| SonarSweep.OffsetSums | 2021/1/src/main.rs:26-38 | `sums[i]` is the sums of the full three-reading chunks of the readings from offset `i` |
| SonarSweep.PartialIncreasesTotal | 2021/1/src/main.rs:40-49 | the three rounds of the second loop add up the zipped comparisons of offsets 0 with 1, 1 with 2, and 2 with offset 0 shifted by one |
| SonarSweep.Part2 | 2021/1/src/main.rs:24-51 | `part2` counts the increasing neighbouring window sums, i.e. `v[j + 3] > v[j]`, and is 0 with fewer than four readings |
| Dive.Displacement1Sums | 2021/2/src/main.rs:24-30 | the part-1 fold adds the forward total to x and the down-minus-up total to y |
| Dive.Step1 | 2021/2/src/main.rs:25-29 | one move adds its share of the forward total to x and its share of the down-minus-up total to y |
| Dive.SumsOfCons | 2021/2/src/main.rs:24-30 | the forward and vertical totals add up over the first move and the rest |
| Dive.Part1IsProductOfSums | 2021/2/src/main.rs:23-32 | `part1` is the forward total times the down-minus-up total |
| Dive.Part1 | 2021/2/src/main.rs:23-32 | `part1` is the forward total times the down-minus-up total |
| Dive.Step2Effect | 2021/2/src/main.rs:36-46 | up and down change only the aim; forward adds `n` to x and `n * aim` to y and keeps the aim |
| Dive.Step2 | 2021/2/src/main.rs:36-46 | one move adds its forward share to x, that share times the aim to y, and its vertical share to the aim |
| Dive.Displacement2Sums | 2021/2/src/main.rs:35-47 | from any start, part 2 ends at x plus the forward total, y plus the starting aim times the forward total plus the aimed depth, and the aim plus the down-minus-up total |
| Dive.AimedDepthOfCons | 2021/2/src/main.rs:37-45 | the first move's vertical share applies to every later forward move of the aimed depth |
| Dive.Part2 | 2021/2/src/main.rs:34-49 | `part2` is the forward total times the aimed depth: the sum of each forward move's magnitude times the down-minus-up total of the moves before it |
| Dive.Displacement2AgreesWith1 | 2021/2/src/main.rs:24-47 | from matching starts, the part-2 fold's x equals part 1's x and its aim equals part 1's y |
| Dive.Part2AimIsPart1Depth | 2021/2/src/main.rs:34-47 | part 2 travels the forward total and ends with the down-minus-up total as its aim |
| Dive.NoMovesNoDisplacement | 2021/2/src/main.rs:23-49 | with no moves both parts answer 0 |
| Dive.ParseMove | 2021/2/src/main.rs:54-65 | prefixes are tried as `forward`, `up`, `down`, each parsing an `i32` from offset 8, 3 or 5; the line is dropped exactly when no prefix matches or the number does not parse |
| Dive.ParseInput | 2021/2/src/main.rs:51-66 | at most one move per line |
| Dive.ParseInputIgnoresMalformedLine | 2021/2/src/main.rs:54-65 | a line that is not a move has no influence on the moves |
| Dive.ParseMoveShowMove | 2021/2/src/main.rs:54-65 | every move with a 32-bit magnitude is read back from its text |
| Dive.Example | 2021/2/src/main.rs:23-49 | the example moves give 150 in part 1 and 900 in part 2 |
| BinaryDiagnostic.ParseRow | 2021/3/src/main.rs:95 | a row has at most one digit per character, each below 10 |
| BinaryDiagnostic.ParseInput | 2021/3/src/main.rs:86-102 | one row per line |
| BinaryDiagnostic.ParseRowDistributes | 2021/3/src/main.rs:95 | each character contributes its own digit or nothing, in order |
| BinaryDiagnostic.ParseRowShowRow | 2021/3/src/main.rs:95 | a row of digits is read back from its text |
| BinaryDiagnostic.Column | 2021/3/src/main.rs:36 | the column has one entry per row |
| BinaryDiagnostic.Totals | 2021/3/src/main.rs:37-43 | zeros and non-zeros together count every row |
| BinaryDiagnostic.CommonBit | 2021/3/src/main.rs:35-56 | the chosen bit is 0 or 1 |
| BinaryDiagnostic.MostCommonBit | 2021/3/src/main.rs:58-60 | the most common bit is 0 or 1, and 0 exactly when the zeros outnumber the ones, so a tie gives 1 |
| BinaryDiagnostic.CommonBitRules | 2021/3/src/main.rs:45-55 | most common is 0 exactly when zeros outnumber ones; least common is 0 exactly when zeros are at most the ones; the two are complementary |
| BinaryDiagnostic.KeepBitMembers | 2021/3/src/main.rs:75-78 | the kept rows are rows of the input with the chosen bit at `pos`, and every input row with that bit is kept |
| BinaryDiagnostic.KeepBitDistributes | 2021/3/src/main.rs:75-78 | filtering works piece by piece, so it keeps the input's order |
| BinaryDiagnostic.KeepBitCounts | 2021/3/src/main.rs:36-43 | keeping 0 keeps as many rows as there are zeros; keeping 1 in a 0/1 column as many as there are ones |
| BinaryDiagnostic.KeepBitDistinct | 2021/3/src/main.rs:75-78 | filtering distinct rows leaves distinct rows |
| BinaryDiagnostic.FilterStep | 2021/3/src/main.rs:75-78 | the filtered rows are exactly the input rows whose bit at `pos` is the most or least common bit of that column |
| BinaryDiagnostic.StepSizes | 2021/3/src/main.rs:45-48 | on a 0/1 column a most-common step keeps max(t0, t1) rows and a least-common step min(t0, t1) |
| BinaryDiagnostic.MostCommonStepKeepsHalf | 2021/3/src/main.rs:75-78 | a most-common step keeps at least half of the rows, so never empties a non-empty set |
| BinaryDiagnostic.LeastCommonStepOnSharedBit | 2021/3/src/main.rs:75-78 | a least-common step empties two or more rows that all share the bit |
| BinaryDiagnostic.FilterRows | 2021/3/src/main.rs:71-85 | a single row is returned unchanged; a returned result is exactly one row of the input, and from two or more rows it carries the chosen common bit at `pos` |
| BinaryDiagnostic.MostCommonFilterReturns | 2021/3/src/main.rs:71-85 | in most-common mode the filter returns for any non-empty set of distinct 0/1 rows of one width |
| BinaryDiagnostic.LeastCommonFilterDiverges | 2021/3/src/main.rs:71-85 | in least-common mode two or more rows sharing their next bit make the filter not return |
| BinaryDiagnostic.LeastCommonFilterReturnsIff | 2021/3/src/main.rs:71-85 | in least-common mode the filter on 0/1 rows returns exactly when every step, until one row is left, sees both digits at its position |
| BinaryDiagnostic.LeastCommonUnfold | 2021/3/src/main.rs:71-85 | from two or more rows the filter continues at the next position with the filtered rows |
| BinaryDiagnostic.BinaryVecToI32 | 2021/3/src/main.rs:62-68 | the result is a non-negative `i32`, the base-2 value of the row when it is a row of 0s and 1s |
| BinaryDiagnostic.BitText | 2021/3/src/main.rs:63-66 | a 0/1 row becomes a binary string of the same length |
| BinaryDiagnostic.BitsDigitText | 2021/3/src/main.rs:63-67 | for a 0/1 row the digit text is its binary string and `from_str_radix` reads it as the row's value |
| BinaryDiagnostic.Radix2BitText | 2021/3/src/main.rs:67 | radix-2 reading of a 0/1 row's text is the row's bit value |
| BinaryDiagnostic.BitsValueBound | 2021/3/src/main.rs:62-68 | an n-digit 0/1 row has a value below 2^n |
| BinaryDiagnostic.BitsValueDigit | 2021/3/src/main.rs:62-68 | digit i of a row is bit `n - 1 - i` of its value |
| BinaryDiagnostic.BitsValueFlipped | 2021/3/src/main.rs:20 | flipping every digit gives `2^n - 1` minus the value |
| BinaryDiagnostic.ShortBitsConvertible | 2021/3/src/main.rs:62-68 | rows of 1 to 31 binary digits always convert, to their bit value |
| BinaryDiagnostic.CommonBits | 2021/3/src/main.rs:15-18 | one 0/1 bit per column of the first row |
| BinaryDiagnostic.Gamma | 2021/3/src/main.rs:15-19 | gamma is the binary value of the most common bits, below `2^n` for rows of `n` digits |
| BinaryDiagnostic.Epsilon | 2021/3/src/main.rs:20 | `!gamma & 0xFFF` lies in [0, 4096) |
| BinaryDiagnostic.EpsilonComplementsGamma | 2021/3/src/main.rs:20 | epsilon is 4095 minus gamma's low twelve bits, and 4095 - gamma when gamma < 4096 |
| BinaryDiagnostic.Part1 | 2021/3/src/main.rs:12-22 | `part1` is gamma, the value of the most common bits, times epsilon |
| BinaryDiagnostic.GammaDigits | 2021/3/src/main.rs:15-19 | bit i of gamma, from the most significant side, is the most common bit of column i |
| BinaryDiagnostic.EpsilonOfTwelveColumns | 2021/3/src/main.rs:15-21 | for twelve-digit rows epsilon is the value of the least common bits |
| BinaryDiagnostic.Part2 | 2021/3/src/main.rs:24-32 | `part2` is the value of the row the oxygen filter leaves times the value of the row the CO2 filter leaves; both are input rows, and from two or more rows they start with complementary bits, the oxygen one the most common |
| BinaryDiagnostic.OxygenRatingDefined | 2021/3/src/main.rs:24-27 | the oxygen rating exists and converts for any non-empty report of distinct 0/1 rows of 1 to 31 digits |
| BinaryDiagnostic.Co2RatingDefined | 2021/3/src/main.rs:28-30 | the CO2 rating exists and converts for 0/1 rows of 1 to 31 digits of one width on which every least-common step sees both digits |
| BinaryDiagnostic.Part2DefinedWhenSplitting | 2021/3/src/main.rs:24-32 | such a report of distinct rows has both ratings, so `part2` answers |
| GiantSquid.ParseInput | 2021/4/src/main.rs:22-58 | empty input gives no draws and no boards; there is one board per chunk of six lines after the second, ⌈m/6⌉ in all |
| GiantSquid.Part1 | 2021/4/src/main.rs:18-20 | the answer is always 0 |
| GiantSquid.ParseDrawList | 2021/4/src/main.rs:29-35 | the draws are at most one per comma-separated token, all 32-bit, and a line that is one number is a list of that number |
| GiantSquid.ParseBoardRow | 2021/4/src/main.rs:45-47 | a row has at most one number per space-separated token, all 32-bit |
| GiantSquid.Tokens | 2021/4/src/main.rs:32-33 | the numbers read from comma- or space-separated tokens are 32-bit, and a text that is one number is one token |
| GiantSquid.ParseBoard | 2021/4/src/main.rs:39-51 | a board has at most one row per line of its chunk, and exactly the rows of the lines, in order, when no line is empty |
| GiantSquid.SecondLineSkipped | 2021/4/src/main.rs:36 | the second line has no influence on the game |
| GiantSquid.ChunksCoverLines | 2021/4/src/main.rs:37-38 | every line after the second belongs to exactly one board's chunk, in order |
| GiantSquid.DrawListRoundTrip | 2021/4/src/main.rs:29-35 | a comma-separated list of printed `i32`s reads back as the list |
| GiantSquid.DrawListAroundComma | 2021/4/src/main.rs:32-33 | the draws are read token by token around each comma, so a bad token drops out alone |
| GiantSquid.BoardRowAroundSpace | 2021/4/src/main.rs:45-47 | a row is read token by token around each space |
| GiantSquid.BoardRowRepeatedSpace | 2021/4/src/main.rs:45-47 | the empty token between two spaces is dropped: a doubled space changes nothing |
| GiantSquid.BoardRowRoundTrip | 2021/4/src/main.rs:45-47 | a row of printed `i32`s separated by single spaces reads back as the row |
| GiantSquid.BoardOfLines | 2021/4/src/main.rs:39-51 | each non-empty line of a chunk is one row, in order, and an empty line gives none |
| GiantSquid.StandardChunk | 2021/4/src/main.rs:38-51 | a blank line followed by five non-empty lines is a board of those five rows |
| HydrothermalVenture.DigitRun | 2021/5/src/main.rs:86 | the run of leading ASCII digits ends at the first non-digit |
| HydrothermalVenture.TakeNumeral | 2021/5/src/main.rs:86 | a greedy `\d+` gives a non-empty numeral followed by text not starting with a digit, or fails only when the text does not start with a digit |
| HydrothermalVenture.TakeNumeralOf | 2021/5/src/main.rs:86 | a numeral followed by a non-digit is taken exactly |
| HydrothermalVenture.LineFields | 2021/5/src/main.rs:86-88 | recognised captures are four numerals that make up the whole line in the layout `x1,y1 -> x2,y2` |
| HydrothermalVenture.LineFieldsOf | 2021/5/src/main.rs:86-88 | every line of that layout is recognised with its own captures |
| HydrothermalVenture.ExtractLineInfo | 2021/5/src/main.rs:84-109 | a returned line comes from a text that is, from start to end, four numerals in the layout `x1,y1 -> x2,y2`, and holds their values |
| HydrothermalVenture.ExtractLineInfoMatchesPattern | 2021/5/src/main.rs:84-109 | `extract_line_info` gives a line exactly when the text matches the pattern from start to end |
| HydrothermalVenture.ExtractLineInfoValues | 2021/5/src/main.rs:92-105 | the line holds the decimal values of the four captures, as `(x1, y1)` and `(x2, y2)` |
| HydrothermalVenture.ExtractLineInfoShowLine | 2021/5/src/main.rs:84-109 | a line printed in the puzzle's layout is read back exactly |
| HydrothermalVenture.ParseLines | 2021/5/src/main.rs:117-121 | at most one line per input line |
| HydrothermalVenture.ParseLinesIgnoresMalformedLine | 2021/5/src/main.rs:120 | a text line that does not match has no influence on the others |
| HydrothermalVenture.Dimensions | 2021/5/src/main.rs:122-128 | (0, 0) with no lines; otherwise every endpoint lies inside, and the width is one more than some endpoint's x and the height one more than some endpoint's y |
| HydrothermalVenture.CrossesIsSegment | 2021/5/src/main.rs:35-55 | for a horizontal or vertical line the cells `cross_board` increments are exactly the points on the row or column between the two endpoints as given |
| HydrothermalVenture.CrossesIgnoresDirection | 2021/5/src/main.rs:35-38 | swapping the endpoints changes no cell |
| HydrothermalVenture.CrossesPoint | 2021/5/src/main.rs:47-54 | a single-point line increments exactly its own cell |
| HydrothermalVenture.Coverage | 2021/5/src/main.rs:27-31 | no cell is covered by more lines than there are |
| HydrothermalVenture.CoverageAppend | 2021/5/src/main.rs:27-31 | coverage adds up over any split of the lines, so their order does not matter |
| HydrothermalVenture.DiagonalIgnored | 2021/5/src/main.rs:30 | a diagonal line adds nothing to any cell |
| HydrothermalVenture.CoverageGrid | 2021/5/src/main.rs:129 | the coverage grid has the board's shape |
| HydrothermalVenture.RowOverlaps | 2021/5/src/main.rs:60-67 | a row has at most one overlap per cell, and none exactly when every cell is below 2 |
| HydrothermalVenture.GridOverlaps | 2021/5/src/main.rs:59-68 | the total is 0 exactly when every cell is below 2 |
| HydrothermalVenture.GridOverlapsBound | 2021/5/src/main.rs:59-68 | a board of h rows of w cells has at most h·w overlaps |
| HydrothermalVenture.NoOverlapsWithOneLine | 2021/5/src/main.rs:27-31 | with at most one line there is no overlap |
| HydrothermalVenture.DuplicateLineOverlaps | 2021/5/src/main.rs:27-31 | a horizontal or vertical line listed twice gives at least one overlap |
| HydrothermalVenture.Game.constructor | 2021/5/src/main.rs:111-131 | the game holds the lines that match, in order, and a zeroed board of `Dimensions(lines)`, on which every endpoint lies |
| HydrothermalVenture.Game.CrossBoard | 2021/5/src/main.rs:34-56 | each cell the line crosses gains exactly 1 and every other cell keeps its value |
| HydrothermalVenture.Game.ProcessLines | 2021/5/src/main.rs:27-32 | each cell gains the number of horizontal or vertical lines crossing it |
| HydrothermalVenture.Game.FindTotalOverlaps | 2021/5/src/main.rs:58-69 | the number of cells holding at least 2 is at most width·height and is 0 exactly when no cell reaches 2; it reads the board without changing it |
| HydrothermalVenture.Part1 | 2021/5/src/main.rs:79-82 | after the lines are drawn on a zeroed board every cell holds its coverage, and the answer is the coverage grid's overlap count |
| HydrothermalVenture.Solve | 2021/5/src/main.rs:73-74 | parsing then `part1` answers the overlap count of the parsed lines' coverage over the board their endpoints span |

## Left out

- File and console I/O: `main`, `File::open`, `BufReader::lines`, `println!`
  and the `filter_map(|l| l.ok())` that drops unreadable lines. Each parser
  takes the lines of the file as a sequence of strings.
- Integer widths of the arithmetic: the sums and products of day 1 part 2,
  day 2 and day 3, the `i32` counters of the day-5 board and its fold, and
  `increases as i32` in day 1 are unbounded integers; overflow is not
  modelled (`i32::from_str` and `from_str_radix` range checks are).
- `usize` in day 5: coordinates are unbounded naturals, so neither the
  overflow panic of `parse::<usize>().unwrap()` nor the overflow of
  `line.a.x + 1` is modelled.
- Strings are sequences of characters and `l[8..]`, `l[3..]`, `l[5..]` are
  character offsets; the inputs are ASCII, where these agree with Rust's
  byte offsets.
- `\d` in the day-5 pattern, `char::to_digit(10)` and `from_str` are
  modelled on ASCII digits only; Rust's `\d` also matches other Unicode
  digits, which would then panic in `parse::<usize>().unwrap()`.
- `lazy_static` and the regex engine: the fixed pattern is a hand-written
  recogniser. Every match has all four captures, so the `captures.len() < 4`
  branch is not reachable and has no counterpart.
- `RefCell`: the board is an `array2<int>` owned by `Game`, updated through
  `modifies`; borrow checking has no counterpart.
- Day 3: the recursive filter's non-termination (no rows, or rows emptied in
  least-common mode) and its panic on a row without a digit at `pos` are the
  `None` of `FilterRows`; `part2` requires both filters to return, and
  `BinaryDiagnostic.Part2DefinedWhenSplitting` gives reports on which they do.
- Day 4: there is no bingo solver in the source, so no marking, win
  detection or scoring is modelled.
- Day 5: diagonal lines are filtered out by the source and never drawn.
- Dive.ParseInput: states only the size bound; which moves it produces is
  stated per line by `Dive.ParseMove` and `Dive.ParseInputIgnoresMalformedLine`.
- HydrothermalVenture.Game.FindTotalOverlaps: states the bound and when it is
  zero; the count itself is the nested fold `GridOverlaps` of the cells.
