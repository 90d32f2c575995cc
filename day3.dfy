/** Day 3 (2021/3/src/main.rs): the submarine's diagnostic report, a list
    of rows of binary digits. Part 1 takes the most common bit of every
    column (gamma) and its 12-bit complement (epsilon); part 2 filters the
    rows one column at a time by the most common (oxygen) or least common
    (CO2) bit until one row is left. */
module BinaryDiagnostic {
  import opened Text

  /** One line of the report: the digit values of its decimal digits. */
  type Row = seq<nat>

  // ---------------------------------------------------------------------
  // parse_input

  /** A line's decimal digits, in order; every other character is dropped. */
  function ParseRow(line: string): (row: Row)
    ensures |row| <= |line|
    ensures forall i :: 0 <= i < |row| ==> row[i] < 10
  {
    if line == [] then []
    else (if IsDigit(line[0]) then [DigitValue(line[0])] else []) + ParseRow(line[1..])
  }

  /** `parse_input`: one row per line, empty lines giving empty rows. */
  function ParseInput(lines: seq<string>): (rows: seq<Row>)
    ensures |rows| == |lines|
  {
    seq(|lines|, i requires 0 <= i < |lines| => ParseRow(lines[i]))
  }

  /** Parsing keeps each character's digit, and nothing for the others,
      independently of the rest of the line. */
  lemma {:induction false} ParseRowDistributes(a: string, b: string)
    ensures ParseRow(a + b) == ParseRow(a) + ParseRow(b)
  {
    if a == [] {
      assert a + b == b;
    } else {
      assert (a + b)[1..] == a[1..] + b;
      ParseRowDistributes(a[1..], b);
    }
  }

  /** The text of a row of digits. */
  function ShowRow(row: Row): string
    requires forall i :: 0 <= i < |row| ==> row[i] < 10
  {
    seq(|row|, i requires 0 <= i < |row| => DigitChar(row[i]))
  }

  /** Rows of digits are read back from their text. */
  lemma {:induction false} ParseRowShowRow(row: Row)
    requires forall i :: 0 <= i < |row| ==> row[i] < 10
    ensures ParseRow(ShowRow(row)) == row
  {
    if row != [] {
      ParseRowShowRow(row[1..]);
      assert ShowRow(row)[1..] == ShowRow(row[1..]);
      assert [row[0]] + row[1..] == row;
    }
  }

  // ---------------------------------------------------------------------
  // Counting a column

  /** Every row has a digit at `pos`, so `row[pos]` does not panic. */
  predicate HasColumn(rows: seq<Row>, pos: nat)
  {
    forall i :: 0 <= i < |rows| ==> pos < |rows[i]|
  }

  function Column(rows: seq<Row>, pos: nat): (col: seq<nat>)
    requires HasColumn(rows, pos)
    ensures |col| == |rows|
  {
    seq(|rows|, i requires 0 <= i < |rows| => rows[i][pos])
  }

  /** The fold of `find_most_or_least_common_bit_at_position`: the number of
      zeros, and the number of every other digit, which all count as ones. */
  function Totals(col: seq<nat>): (t: (nat, nat))
    ensures t.0 + t.1 == |col|
  {
    if col == [] then (0, 0)
    else
      var t := Totals(col[1..]);
      if col[0] == 0 then (t.0 + 1, t.1) else (t.0, t.1 + 1)
  }

  /** `find_most_or_least_common_bit_at_position`. In most-common mode a
      tie gives 1; in least-common mode a tie gives 0. */
  function CommonBit(pos: nat, rows: seq<Row>, mostCommon: bool): (bit: nat)
    requires HasColumn(rows, pos)
    ensures bit <= 1
  {
    var (total0, total1) := Totals(Column(rows, pos));
    var shouldReturn0 := if mostCommon then total0 > total1 else total0 < total1 || total0 == total1;
    if shouldReturn0 then 0 else 1
  }

  /** `find_most_common_bit_at_position`. */
  function MostCommonBit(pos: nat, rows: seq<Row>): (bit: nat)
    requires HasColumn(rows, pos)
    ensures bit <= 1
    ensures var t := Totals(Column(rows, pos)); bit == 0 <==> t.0 > t.1
  {
    CommonBit(pos, rows, true)
  }

  /** The tie rules, and least common as the opposite of most common. */
  lemma CommonBitRules(pos: nat, rows: seq<Row>)
    requires HasColumn(rows, pos)
    ensures var t := Totals(Column(rows, pos));
            && t.0 + t.1 == |rows|
            && (CommonBit(pos, rows, true) == 0 <==> t.0 > t.1)
            && (CommonBit(pos, rows, false) == 0 <==> t.0 <= t.1)
            && CommonBit(pos, rows, false) == 1 - CommonBit(pos, rows, true)
  {
  }

  // ---------------------------------------------------------------------
  // One filtering step

  /** The rows with `bit` at `pos`, in their original order. */
  function KeepBit(rows: seq<Row>, pos: nat, bit: nat): (kept: seq<Row>)
    requires HasColumn(rows, pos)
    ensures |kept| <= |rows|
  {
    if rows == [] then []
    else (if rows[0][pos] == bit then [rows[0]] else []) + KeepBit(rows[1..], pos, bit)
  }

  /** The kept rows are exactly the rows with `bit` at `pos`. */
  lemma {:induction false} KeepBitMembers(rows: seq<Row>, pos: nat, bit: nat)
    requires HasColumn(rows, pos)
    ensures forall i :: 0 <= i < |KeepBit(rows, pos, bit)| ==>
              KeepBit(rows, pos, bit)[i] in rows && KeepBit(rows, pos, bit)[i][pos] == bit
    ensures forall i :: 0 <= i < |rows| && rows[i][pos] == bit ==> rows[i] in KeepBit(rows, pos, bit)
  {
    if rows != [] {
      KeepBitMembers(rows[1..], pos, bit);
      assert forall i :: 1 <= i < |rows| ==> rows[i] == rows[1..][i - 1];
    }
  }

  /** Filtering keeps the relative order: it works piece by piece. */
  lemma {:induction false} KeepBitDistributes(a: seq<Row>, b: seq<Row>, pos: nat, bit: nat)
    requires HasColumn(a, pos) && HasColumn(b, pos)
    ensures HasColumn(a + b, pos)
    ensures KeepBit(a + b, pos, bit) == KeepBit(a, pos, bit) + KeepBit(b, pos, bit)
  {
    if a == [] {
      assert a + b == b;
    } else {
      var ab, head := a + b, if a[0][pos] == bit then [a[0]] else [];
      assert ab[0] == a[0] && ab[1..] == a[1..] + b;
      KeepBitDistributes(a[1..], b, pos, bit);
      assert KeepBit(ab, pos, bit) == head + KeepBit(ab[1..], pos, bit);
      assert KeepBit(a, pos, bit) == head + KeepBit(a[1..], pos, bit);
    }
  }

  /** Zeros are counted by keeping 0; for a column of 0s and 1s, ones are
      counted by keeping 1. */
  lemma {:induction false} KeepBitCounts(rows: seq<Row>, pos: nat)
    requires HasColumn(rows, pos)
    ensures |KeepBit(rows, pos, 0)| == Totals(Column(rows, pos)).0
    ensures (forall i :: 0 <= i < |rows| ==> rows[i][pos] <= 1) ==>
              |KeepBit(rows, pos, 1)| == Totals(Column(rows, pos)).1
  {
    if rows != [] {
      KeepBitCounts(rows[1..], pos);
      assert Column(rows, pos)[1..] == Column(rows[1..], pos);
    }
  }

  predicate Distinct(rows: seq<Row>)
  {
    forall i, j :: 0 <= i < j < |rows| ==> rows[i] != rows[j]
  }

  lemma {:induction false} KeepBitDistinct(rows: seq<Row>, pos: nat, bit: nat)
    requires HasColumn(rows, pos) && Distinct(rows)
    ensures Distinct(KeepBit(rows, pos, bit))
  {
    if rows != [] {
      KeepBitDistinct(rows[1..], pos, bit);
      var rest := KeepBit(rows[1..], pos, bit);
      KeepBitMembers(rows[1..], pos, bit);
      assert rows[0] !in rows[1..];
      assert rows[0] !in rest;
    }
  }

  /** `filtered_rows`: the rows whose bit at `pos` is the chosen one. */
  function FilterStep(pos: nat, rows: seq<Row>, mostCommon: bool): (kept: seq<Row>)
    requires HasColumn(rows, pos)
    ensures var bit := CommonBit(pos, rows, mostCommon);
            && |kept| <= |rows|
            && (forall i :: 0 <= i < |kept| ==> kept[i] in rows && kept[i][pos] == bit)
            && (forall i :: 0 <= i < |rows| && rows[i][pos] == bit ==> rows[i] in kept)
  {
    var bit := CommonBit(pos, rows, mostCommon);
    KeepBitMembers(rows, pos, bit);
    KeepBit(rows, pos, bit)
  }

  /** On a column of 0s and 1s, a most-common step keeps the larger of the
      two groups and a least-common step the smaller one. */
  lemma StepSizes(pos: nat, rows: seq<Row>)
    requires HasColumn(rows, pos)
    requires forall i :: 0 <= i < |rows| ==> rows[i][pos] <= 1
    ensures var t := Totals(Column(rows, pos));
            && |FilterStep(pos, rows, true)| == (if t.0 > t.1 then t.0 else t.1)
            && |FilterStep(pos, rows, false)| == (if t.0 <= t.1 then t.0 else t.1)
  {
    KeepBitCounts(rows, pos);
  }

  /** A most-common step never empties a non-empty set of 0/1 rows: it keeps
      at least half of them. */
  lemma MostCommonStepKeepsHalf(pos: nat, rows: seq<Row>)
    requires HasColumn(rows, pos)
    requires forall i :: 0 <= i < |rows| ==> rows[i][pos] <= 1
    ensures 2 * |FilterStep(pos, rows, true)| >= |rows|
    ensures |rows| > 0 ==> |FilterStep(pos, rows, true)| > 0
  {
    StepSizes(pos, rows);
  }

  /** A least-common step empties a set of two or more rows that all share
      their bit at `pos`. */
  lemma LeastCommonStepOnSharedBit(pos: nat, rows: seq<Row>)
    requires HasColumn(rows, pos) && |rows| >= 2
    requires forall i :: 0 <= i < |rows| ==> rows[i][pos] == rows[0][pos] <= 1
    ensures FilterStep(pos, rows, false) == []
  {
    StepSizes(pos, rows);
    var col := Column(rows, pos);
    assert forall i :: 0 <= i < |col| ==> col[i] == col[0];
    UnanimousTotals(col);
  }

  /** A column of one repeated digit counts only zeros or only ones. */
  lemma {:induction false} UnanimousTotals(col: seq<nat>)
    requires forall i :: 0 <= i < |col| ==> col[i] == col[0]
    ensures col != [] && col[0] == 0 ==> Totals(col) == (|col|, 0)
    ensures col != [] && col[0] != 0 ==> Totals(col) == (0, |col|)
  {
    if |col| > 1 {
      UnanimousTotals(col[1..]);
    }
  }

  // ---------------------------------------------------------------------
  // The recursive filter

  function MaxLength(rows: seq<Row>): (m: nat)
    ensures forall i :: 0 <= i < |rows| ==> |rows[i]| <= m
  {
    if rows == [] then 0
    else var m := MaxLength(rows[1..]); if |rows[0]| > m then |rows[0]| else m
  }

  lemma {:induction false} MaxLengthOfSubset(sub: seq<Row>, rows: seq<Row>)
    requires forall i :: 0 <= i < |sub| ==> sub[i] in rows
    ensures MaxLength(sub) <= MaxLength(rows)
  {
    if sub != [] {
      MaxLengthOfSubset(sub[1..], rows);
    }
  }

  /** `recursively_filter_using_most_or_least_common_bit`. The source
      returns only when exactly one row is left; `None` stands for the
      inputs on which it does not return: with no rows it recurses forever,
      and with several rows one of which has no digit at `pos` it panics. */
  function FilterRows(pos: nat, rows: seq<Row>, mostCommon: bool): (r: Option<seq<Row>>)
    ensures |rows| == 1 ==> r == Some(rows)
    ensures r.Some? ==> |r.value| == 1 && r.value[0] in rows
    ensures r.Some? && |rows| != 1 ==>
              HasColumn(rows, pos) && r.value[0][pos] == CommonBit(pos, rows, mostCommon)
    decreases if pos <= MaxLength(rows) then MaxLength(rows) - pos + 1 else 0
  {
    if |rows| == 1 then Some(rows)
    else if rows == [] || !HasColumn(rows, pos) then None
    else
      var filtered := FilterStep(pos, rows, mostCommon);
      MaxLengthOfSubset(filtered, rows);
      FilterRows(pos + 1, filtered, mostCommon)
  }

  /** A row is a sequence of 0s and 1s. */
  predicate IsBits(row: Row)
  {
    forall k :: 0 <= k < |row| ==> row[k] <= 1
  }

  /** All rows are rows of 0s and 1s of the same width. */
  predicate Uniform(rows: seq<Row>, width: nat)
  {
    forall i :: 0 <= i < |rows| ==> |rows[i]| == width && IsBits(rows[i])
  }

  /** All rows have the same first `pos` digits. */
  predicate AgreeBelow(rows: seq<Row>, pos: nat)
    requires forall i :: 0 <= i < |rows| ==> pos <= |rows[i]|
  {
    forall i :: 0 <= i < |rows| ==> rows[i][..pos] == rows[0][..pos]
  }

  lemma DistinctHead(rows: seq<Row>)
    requires Distinct(rows)
    ensures |rows| >= 2 ==> rows[0] != rows[1]
  {
  }

  /** Rows that agree on their whole width are equal. */
  lemma AgreeingRowsEqual(rows: seq<Row>, width: nat)
    requires Uniform(rows, width) && AgreeBelow(rows, width)
    ensures forall i :: 0 <= i < |rows| ==> rows[i] == rows[0]
  {
    forall i | 0 <= i < |rows| ensures rows[i] == rows[0] {
      assert rows[i][..width] == rows[i];
      assert rows[0][..width] == rows[0];
    }
  }

  /** In most-common mode the filter always returns for a non-empty report
      of distinct rows of 0s and 1s of one width. */
  lemma {:induction false} MostCommonFilterReturns(pos: nat, rows: seq<Row>, width: nat)
    requires |rows| >= 1 && Uniform(rows, width) && Distinct(rows)
    requires pos <= width && AgreeBelow(rows, pos)
    ensures FilterRows(pos, rows, true).Some?
    decreases width - pos
  {
    if pos == width {
      // Distinct rows that agree everywhere are a single row.
      AgreeingRowsEqual(rows, width);
      DistinctHead(rows);
    }
    if |rows| != 1 {
      assert HasColumn(rows, pos);
      var kept := FilterStep(pos, rows, true);
      MostCommonStepKeepsHalf(pos, rows);
      KeepBitDistinct(rows, pos, CommonBit(pos, rows, true));
      assert Uniform(kept, width);
      forall i | 0 <= i < |kept| ensures kept[i][..pos + 1] == kept[0][..pos + 1] {
        assert kept[i][..pos] == rows[0][..pos];
        assert kept[0][..pos] == rows[0][..pos];
        assert kept[i][..pos + 1] == kept[i][..pos] + [kept[i][pos]];
        assert kept[0][..pos + 1] == kept[0][..pos] + [kept[0][pos]];
      }
      MostCommonFilterReturns(pos + 1, kept, width);
    }
  }

  /** In least-common mode two or more rows sharing their next bit make the
      filter run on with no rows: it never returns. */
  lemma LeastCommonFilterDiverges(pos: nat, rows: seq<Row>)
    requires HasColumn(rows, pos) && |rows| >= 2
    requires forall i :: 0 <= i < |rows| ==> rows[i][pos] == rows[0][pos] <= 1
    ensures FilterRows(pos, rows, false).None?
  {
    LeastCommonStepOnSharedBit(pos, rows);
  }

  /** Both digits occur at `pos` among the rows. */
  predicate SplitAt(rows: seq<Row>, pos: nat)
    requires HasColumn(rows, pos)
  {
    exists i, j :: 0 <= i < |rows| && 0 <= j < |rows| && rows[i][pos] == 0 && rows[j][pos] == 1
  }

  /** The condition under which the least-common filter makes progress:
      until one row is left, the surviving rows hold both digits at the
      position being filtered. */
  predicate SplitsUntilOne(pos: nat, rows: seq<Row>)
    decreases if pos <= MaxLength(rows) then MaxLength(rows) - pos + 1 else 0
  {
    || |rows| == 1
    || (&& |rows| >= 2 && HasColumn(rows, pos) && SplitAt(rows, pos)
        && var kept := FilterStep(pos, rows, false);
           MaxLengthOfSubset(kept, rows);
           SplitsUntilOne(pos + 1, kept))
  }

  /** In least-common mode the filter on rows of 0s and 1s returns exactly
      when every step, until one row is left, sees both digits. */
  lemma {:induction false} LeastCommonFilterReturnsIff(pos: nat, rows: seq<Row>)
    requires forall i :: 0 <= i < |rows| ==> IsBits(rows[i])
    ensures FilterRows(pos, rows, false).Some? <==> SplitsUntilOne(pos, rows)
    decreases if pos <= MaxLength(rows) then MaxLength(rows) - pos + 1 else 0
  {
    if |rows| != 1 && rows != [] && HasColumn(rows, pos) {
      var kept := FilterStep(pos, rows, false);
      LeastCommonUnfold(pos, rows);
      if SplitAt(rows, pos) {
        KeptAreBits(rows, kept);
        LeastCommonFilterReturnsIff(pos + 1, kept);
      } else {
        SharedWithoutSplit(rows, pos);
        LeastCommonFilterDiverges(pos, rows);
      }
    }
  }

  /** A step on two or more rows hands the survivors to the next position,
      and it makes progress only when it sees both digits. */
  lemma LeastCommonUnfold(pos: nat, rows: seq<Row>)
    requires |rows| >= 2 && HasColumn(rows, pos)
    ensures pos < MaxLength(rows) && MaxLength(FilterStep(pos, rows, false)) <= MaxLength(rows)
    ensures FilterRows(pos, rows, false) == FilterRows(pos + 1, FilterStep(pos, rows, false), false)
    ensures SplitsUntilOne(pos, rows) == (SplitAt(rows, pos) && SplitsUntilOne(pos + 1, FilterStep(pos, rows, false)))
  {
    MaxLengthOfSubset(FilterStep(pos, rows, false), rows);
  }

  lemma KeptAreBits(rows: seq<Row>, kept: seq<Row>)
    requires forall i :: 0 <= i < |rows| ==> IsBits(rows[i])
    requires forall i :: 0 <= i < |kept| ==> kept[i] in rows
    ensures forall i :: 0 <= i < |kept| ==> IsBits(kept[i])
  {
    forall i | 0 <= i < |kept| ensures IsBits(kept[i]) {
      var j :| 0 <= j < |rows| && rows[j] == kept[i];
    }
  }

  /** Rows of 0s and 1s without both digits at `pos` all share that digit. */
  lemma SharedWithoutSplit(rows: seq<Row>, pos: nat)
    requires rows != [] && HasColumn(rows, pos) && !SplitAt(rows, pos)
    requires forall i :: 0 <= i < |rows| ==> IsBits(rows[i])
    ensures forall i :: 0 <= i < |rows| ==> rows[i][pos] == rows[0][pos] <= 1
  {
    forall i | 0 <= i < |rows| ensures rows[i][pos] == rows[0][pos] <= 1 {
      assert rows[i][pos] <= 1 && rows[0][pos] <= 1;
      assert !(rows[i][pos] == 0 && rows[0][pos] == 1);
      assert !(rows[0][pos] == 0 && rows[i][pos] == 1);
    }
  }

  // ---------------------------------------------------------------------
  // binary_vec_to_i32

  function Pow2(n: nat): (p: nat)
    ensures p >= 1
  {
    if n == 0 then 1 else 2 * Pow2(n - 1)
  }

  /** The value of 0/1 digits read most significant first. */
  function BitsValue(bits: Row): nat
  {
    if bits == [] then 0 else BitsValue(bits[..|bits| - 1]) * 2 + bits[|bits| - 1]
  }

  /** `char::from_digit(d, 10)`: a character for the digits below 10. */
  function FromDigit(d: nat): Option<char>
  {
    if d < 10 then Some(DigitChar(d)) else None
  }

  function DigitText(v: Row): string
  {
    FilterMap(v, FromDigit)
  }

  predicate IsBinaryText(s: string)
  {
    |s| >= 1 && forall i :: 0 <= i < |s| ==> s[i] == '0' || s[i] == '1'
  }

  /** `i32::from_str_radix(_, 2)` on a string of 0s and 1s. */
  function Radix2Value(s: string): nat
    requires forall i :: 0 <= i < |s| ==> s[i] == '0' || s[i] == '1'
  {
    if s == [] then 0 else Radix2Value(s[..|s| - 1]) * 2 + (if s[|s| - 1] == '1' then 1 else 0)
  }

  /** What `binary_vec_to_i32` needs not to panic: the digits below 10 form
      a non-empty binary numeral whose value fits in an `i32`. */
  predicate Convertible(v: Row)
  {
    var s := DigitText(v);
    IsBinaryText(s) && Radix2Value(s) <= I32Max
  }

  /** `binary_vec_to_i32`. */
  function BinaryVecToI32(v: Row): (r: int)
    requires Convertible(v)
    ensures 0 <= r <= I32Max
    ensures IsBits(v) ==> r == BitsValue(v)
  {
    var s := DigitText(v);
    BitsDigitText(v);
    Radix2Value(s)
  }

  /** The characters '0' and '1' for a row of 0s and 1s. */
  function BitText(v: Row): (s: string)
    requires IsBits(v)
    ensures |s| == |v| && forall i :: 0 <= i < |s| ==> s[i] == '0' || s[i] == '1'
  {
    seq(|v|, i requires 0 <= i < |v| => if v[i] == 1 then '1' else '0')
  }

  lemma BitsDigitText(v: Row)
    ensures IsBits(v) ==> DigitText(v) == BitText(v)
    ensures IsBits(v) ==> Radix2Value(DigitText(v)) == BitsValue(v)
  {
    if IsBits(v) {
      forall i | 0 <= i < |v| ensures FromDigit(v[i]) == Some(BitText(v)[i]) {
        assert DigitChar(0) == '0' && DigitChar(1) == '1';
      }
      FilterMapAllAccepted(v, FromDigit);
      Radix2BitText(v);
    }
  }

  lemma {:induction false} Radix2BitText(v: Row)
    requires IsBits(v)
    ensures Radix2Value(BitText(v)) == BitsValue(v)
  {
    if v != [] {
      var init := v[..|v| - 1];
      assert BitText(v)[..|v| - 1] == BitText(init);
      Radix2BitText(init);
    }
  }

  /** A 0/1 row of n digits has a value below 2^n. */
  lemma {:induction false} BitsValueBound(bits: Row)
    requires IsBits(bits)
    ensures BitsValue(bits) < Pow2(|bits|)
  {
    if bits != [] {
      BitsValueBound(bits[..|bits| - 1]);
    }
  }

  /** Digit i of a row is bit |row| - 1 - i of its value. */
  lemma {:induction false} BitsValueDigit(bits: Row, i: nat)
    requires IsBits(bits) && i < |bits|
    ensures (BitsValue(bits) / Pow2(|bits| - 1 - i)) % 2 == bits[i]
  {
    var n := |bits|;
    var init := bits[..n - 1];
    var v, last := BitsValue(init), bits[n - 1];
    assert BitsValue(bits) == v * 2 + last;
    if i < n - 1 {
      var k := n - 1 - i;
      BitsValueDigit(init, i);
      assert init[i] == bits[i] && |init| - 1 - i == k - 1;
      assert Pow2(k) == 2 * Pow2(k - 1);
      HalveQuotient(v, last, Pow2(k - 1));
    } else {
      assert Pow2(0) == 1;
    }
  }

  lemma HalveQuotient(x: nat, b: nat, p: nat)
    requires b <= 1 && p >= 1
    ensures (x * 2 + b) / (2 * p) == x / p
  {
    var q, r := x / p, x % p;
    assert x == q * p + r;
    assert x * 2 + b == q * (2 * p) + (2 * r + b);
    DivUnique(x * 2 + b, 2 * p, q, 2 * r + b);
  }

  /** Flipping every digit complements the value within the row's width. */
  lemma {:induction false} BitsValueFlipped(bits: Row)
    requires IsBits(bits)
    ensures BitsValue(Flipped(bits)) == Pow2(|bits|) - 1 - BitsValue(bits)
  {
    if bits != [] {
      var n := |bits|;
      assert Flipped(bits)[..n - 1] == Flipped(bits[..n - 1]);
      BitsValueFlipped(bits[..n - 1]);
    }
  }

  function Flipped(bits: Row): (f: Row)
    requires IsBits(bits)
    ensures |f| == |bits| && IsBits(f)
  {
    seq(|bits|, i requires 0 <= i < |bits| => 1 - bits[i])
  }

  /** Rows of 1 to 31 digits 0 and 1 always convert. */
  lemma ShortBitsConvertible(bits: Row)
    requires IsBits(bits) && 1 <= |bits| <= 31
    ensures Convertible(bits) && BinaryVecToI32(bits) == BitsValue(bits)
  {
    BitsDigitText(bits);
    BitsValueBound(bits);
    Pow2Monotone(|bits|, 31);
    assert Pow2(31) == 0x8000_0000 by { Pow2ThirtyOne(); }
  }

  lemma {:induction false} Pow2Monotone(m: nat, n: nat)
    requires m <= n
    ensures Pow2(m) <= Pow2(n)
    decreases n
  {
    if m < n {
      Pow2Monotone(m, n - 1);
    }
  }

  lemma Pow2ThirtyOne()
    ensures Pow2(12) == 4096 && Pow2(31) == 0x8000_0000
  {
    assert Pow2(4) == 16;
    assert Pow2(8) == 256;
    assert Pow2(12) == 4096;
    assert Pow2(16) == 0x1_0000;
    assert Pow2(20) == 0x10_0000;
    assert Pow2(24) == 0x100_0000;
    assert Pow2(28) == 0x1000_0000;
  }

  // ---------------------------------------------------------------------
  // Part 1

  /** What `part1` asks: a first row, and every row at least as wide. */
  predicate HasColumns(rows: seq<Row>)
  {
    |rows| > 0 && forall i :: 0 <= i < |rows| ==> |rows[0]| <= |rows[i]|
  }

  /** The chosen bit of every column, for the width of the first row. */
  function CommonBits(rows: seq<Row>, mostCommon: bool): (bits: Row)
    requires HasColumns(rows)
    ensures |bits| == |rows[0]| && IsBits(bits)
  {
    seq(|rows[0]|, i requires 0 <= i < |rows[0]| => CommonBit(i, rows, mostCommon))
  }

  /** The value of the most common bits, read as a binary numeral. */
  function Gamma(rows: seq<Row>): (gamma: int)
    requires HasColumns(rows) && Convertible(CommonBits(rows, true))
    ensures gamma == BitsValue(CommonBits(rows, true))
    ensures 0 <= gamma < Pow2(|rows[0]|)
  {
    BitsValueBound(CommonBits(rows, true));
    BinaryVecToI32(CommonBits(rows, true))
  }

  /** `!gamma & 0xFFF` on an `i32`: bitwise not is -x - 1 in two's
      complement, and masking with 0xFFF keeps the residue modulo 2^12. */
  function Epsilon(gamma: int): (e: int)
    requires 0 <= gamma <= I32Max
    ensures 0 <= e < 4096
  {
    (-gamma - 1) % 0x1000
  }

  /** Epsilon complements the low twelve bits of gamma. */
  lemma EpsilonComplementsGamma(gamma: int)
    requires 0 <= gamma <= I32Max
    ensures Epsilon(gamma) == 4095 - gamma % 4096
    ensures gamma < 4096 ==> Epsilon(gamma) == 4095 - gamma
  {
  }

  /** `part1`: gamma times epsilon. */
  method Part1(rows: seq<Row>) returns (r: int)
    requires HasColumns(rows) && Convertible(CommonBits(rows, true))
    ensures r == Gamma(rows) * Epsilon(Gamma(rows))
  {
    var rowLength := |rows[0]|;
    var result: Row := [];
    for i := 0 to rowLength
      invariant result == CommonBits(rows, true)[..i]
    {
      assert HasColumn(rows, i);
      result := result + [MostCommonBit(i, rows)];
    }
    assert result == CommonBits(rows, true);
    var gamma := BinaryVecToI32(result);
    var epsilon := Epsilon(gamma);
    r := gamma * epsilon;
  }

  /** Bit i of gamma, counted from the most significant digit, is the most
      common bit of column i. */
  lemma GammaDigits(rows: seq<Row>, i: nat)
    requires HasColumns(rows) && Convertible(CommonBits(rows, true)) && i < |rows[0]|
    ensures Gamma(rows) < Pow2(|rows[0]|)
    ensures (Gamma(rows) / Pow2(|rows[0]| - 1 - i)) % 2 == CommonBit(i, rows, true)
  {
    var bits := CommonBits(rows, true);
    BitsValueBound(bits);
    BitsValueDigit(bits, i);
  }

  /** For the puzzle's twelve-digit rows, epsilon is the value of the least
      common bits. */
  lemma EpsilonOfTwelveColumns(rows: seq<Row>)
    requires HasColumns(rows) && |rows[0]| == 12
    ensures Convertible(CommonBits(rows, true))
    ensures Epsilon(Gamma(rows)) == BitsValue(CommonBits(rows, false))
  {
    var most := CommonBits(rows, true);
    var least := CommonBits(rows, false);
    ShortBitsConvertible(most);
    forall i | 0 <= i < 12 ensures least[i] == 1 - most[i] {
      assert HasColumn(rows, i);
      CommonBitRules(i, rows);
    }
    assert least == Flipped(most);
    BitsValueFlipped(most);
    BitsValueBound(most);
    Pow2ThirtyOne();
    EpsilonComplementsGamma(Gamma(rows));
  }

  // ---------------------------------------------------------------------
  // Part 2

  /** What `part2` needs: both filters return, and both ratings convert. */
  predicate Part2Defined(rows: seq<Row>)
  {
    && FilterRows(0, rows, true).Some?
    && FilterRows(0, rows, false).Some?
    && Convertible(FilterRows(0, rows, true).value[0])
    && Convertible(FilterRows(0, rows, false).value[0])
  }

  /** `part2`: the oxygen generator rating times the CO2 scrubber rating,
      each the value of the one row its filter leaves. */
  function Part2(rows: seq<Row>): (r: int)
    requires Part2Defined(rows)
    ensures var oxygen := FilterRows(0, rows, true).value[0];
            var co2 := FilterRows(0, rows, false).value[0];
            && oxygen in rows && co2 in rows
            && (|rows| >= 2 ==> oxygen[0] == CommonBit(0, rows, true) && co2[0] == 1 - oxygen[0])
            && r == BinaryVecToI32(oxygen) * BinaryVecToI32(co2)
  {
    assert |rows| >= 2 ==> CommonBit(0, rows, false) == 1 - CommonBit(0, rows, true) by {
      if |rows| >= 2 {
        CommonBitRules(0, rows);
      }
    }
    var oxygen := FilterRows(0, rows, true).value[0];
    var co2 := FilterRows(0, rows, false).value[0];
    BinaryVecToI32(oxygen) * BinaryVecToI32(co2)
  }

  /** The oxygen rating is defined for every non-empty report of distinct
      rows of 1 to 31 digits 0 and 1 of one width. */
  lemma OxygenRatingDefined(rows: seq<Row>, width: nat)
    requires |rows| >= 1 && Uniform(rows, width) && Distinct(rows) && 1 <= width <= 31
    ensures FilterRows(0, rows, true).Some?
    ensures Convertible(FilterRows(0, rows, true).value[0])
  {
    MostCommonFilterReturns(0, rows, width);
    var oxygen := FilterRows(0, rows, true).value[0];
    ShortBitsConvertible(oxygen);
  }

  /** The CO2 rating is defined for every report of rows of 1 to 31 digits
      0 and 1 of one width on which the least-common filter sees both digits
      at every step. */
  lemma Co2RatingDefined(rows: seq<Row>, width: nat)
    requires Uniform(rows, width) && 1 <= width <= 31 && SplitsUntilOne(0, rows)
    ensures FilterRows(0, rows, false).Some?
    ensures Convertible(FilterRows(0, rows, false).value[0])
  {
    LeastCommonFilterReturnsIff(0, rows);
    var co2 := FilterRows(0, rows, false).value[0];
    ShortBitsConvertible(co2);
  }

  /** Such a report of distinct rows has both ratings, so `part2` answers. */
  lemma Part2DefinedWhenSplitting(rows: seq<Row>, width: nat)
    requires |rows| >= 1 && Uniform(rows, width) && Distinct(rows) && 1 <= width <= 31
    requires SplitsUntilOne(0, rows)
    ensures Part2Defined(rows)
  {
    OxygenRatingDefined(rows, width);
    Co2RatingDefined(rows, width);
  }
}
