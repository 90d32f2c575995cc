/** Models of the few pieces of Rust's standard library that every day's
    parser relies on: `Option`, `Iterator::filter_map`, `str::split` on a
    character, `slice::chunks`, `Iterator::skip`, `char::to_digit(10)` and
    `str::parse::<i32>`. Strings are sequences of characters; offsets are
    character offsets (the inputs are ASCII). */
module Text {

  datatype Option<+T> = None | Some(value: T)

  // ---------------------------------------------------------------------
  // filter_map

  /** The values `f` produces, in order, for the elements it does not reject. */
  function FilterMap<A, B>(s: seq<A>, f: A -> Option<B>): (r: seq<B>)
    ensures |r| <= |s|
  {
    if s == [] then []
    else (match f(s[0]) case Some(b) => [b] case None => []) + FilterMap(s[1..], f)
  }

  /** `filter_map` distributes over concatenation. */
  lemma {:induction false} FilterMapAppend<A, B>(a: seq<A>, b: seq<A>, f: A -> Option<B>)
    ensures FilterMap(a + b, f) == FilterMap(a, f) + FilterMap(b, f)
  {
    if a == [] {
      assert a + b == b;
    } else {
      assert (a + b)[0] == a[0];
      assert (a + b)[1..] == a[1..] + b;
      FilterMapAppend(a[1..], b, f);
    }
  }

  /** An element that `f` rejects can be removed without changing the result:
      a malformed line has no influence on what is parsed from the others. */
  lemma FilterMapSkipsRejected<A, B>(a: seq<A>, x: A, b: seq<A>, f: A -> Option<B>)
    requires f(x).None?
    ensures FilterMap(a + [x] + b, f) == FilterMap(a + b, f)
  {
    FilterMapAppend(a + [x], b, f);
    FilterMapAppend(a, [x], f);
    FilterMapAppend(a, b, f);
    FilterMapSingleton(x, f);
  }

  /** One element gives its value, or nothing when rejected. */
  lemma FilterMapSingleton<A, B>(x: A, f: A -> Option<B>)
    ensures FilterMap([x], f) == if f(x).Some? then [f(x).value] else []
  {
    assert [x][1..] == [];
  }

  /** When `f` accepts everything, nothing is dropped and the order is kept. */
  lemma {:induction false} FilterMapAllAccepted<A, B>(s: seq<A>, f: A -> Option<B>)
    requires forall i :: 0 <= i < |s| ==> f(s[i]).Some?
    ensures |FilterMap(s, f)| == |s|
    ensures forall i :: 0 <= i < |s| ==> FilterMap(s, f)[i] == f(s[i]).value
  {
    if s != [] {
      FilterMapAllAccepted(s[1..], f);
    }
  }

  // ---------------------------------------------------------------------
  // str::split with a single-character separator

  /** The pieces of `s` between occurrences of `sep`. As in Rust, there is
      always at least one piece, and adjacent separators give empty pieces. */
  function Split(s: string, sep: char): (r: seq<string>)
    ensures |r| >= 1
    ensures forall i :: 0 <= i < |r| ==> sep !in r[i]
  {
    if s == [] then [[]]
    else
      var rest := Split(s[1..], sep);
      if s[0] == sep then [[]] + rest
      else [[s[0]] + rest[0]] + rest[1..]
  }

  /** The pieces glued back together with `sep` between them. */
  function Join(parts: seq<string>, sep: char): string
    requires |parts| >= 1
  {
    if |parts| == 1 then parts[0] else parts[0] + [sep] + Join(parts[1..], sep)
  }

  /** Splitting loses nothing: the pieces rejoin to the original string. */
  lemma {:induction false} JoinSplit(s: string, sep: char)
    ensures Join(Split(s, sep), sep) == s
  {
    if s != [] {
      var rest := Split(s[1..], sep);
      JoinSplit(s[1..], sep);
      if s[0] == sep {
        assert Split(s, sep)[1..] == rest;
      } else {
        var r := Split(s, sep);
        assert r[1..] == rest[1..];
        if |rest| == 1 {
          assert r == [[s[0]] + rest[0]];
        } else {
          assert Join(rest, sep) == rest[0] + [sep] + Join(rest[1..], sep);
        }
      }
    }
  }

  /** Splitting at a separator splits the pieces: what lies on either side
      of one separator is split independently. */
  lemma {:induction false} SplitAround(a: string, b: string, sep: char)
    ensures Split(a + [sep] + b, sep) == Split(a, sep) + Split(b, sep)
  {
    if a == [] {
      assert a + [sep] + b == [sep] + b;
      assert ([sep] + b)[1..] == b;
    } else {
      var s := a + [sep] + b;
      assert s[0] == a[0];
      assert s[1..] == a[1..] + [sep] + b;
      SplitAround(a[1..], b, sep);
    }
  }

  /** A string without the separator is a single piece. */
  lemma {:induction false} SplitWithoutSeparator(a: string, sep: char)
    requires sep !in a
    ensures Split(a, sep) == [a]
  {
    if a != [] {
      assert a[0] != sep;
      assert sep !in a[1..];
      SplitWithoutSeparator(a[1..], sep);
      assert [a[0]] + a[1..] == a;
    }
  }

  /** The converse round trip: separator-free pieces joined and split again
      come back unchanged. */
  lemma {:induction false} SplitJoin(parts: seq<string>, sep: char)
    requires |parts| >= 1
    requires forall i :: 0 <= i < |parts| ==> sep !in parts[i]
    ensures Split(Join(parts, sep), sep) == parts
  {
    SplitWithoutSeparator(parts[0], sep);
    if |parts| > 1 {
      SplitJoin(parts[1..], sep);
      SplitAround(parts[0], Join(parts[1..], sep), sep);
      assert [parts[0]] + parts[1..] == parts;
    }
  }

  // ---------------------------------------------------------------------
  // slice::chunks and Iterator::skip

  /** Consecutive pieces of `k` elements; the last one may be shorter. */
  function Chunks<T>(s: seq<T>, k: nat): (r: seq<seq<T>>)
    requires k > 0
    ensures |r| == (|s| + k - 1) / k
    ensures forall i :: 0 <= i < |r| ==> 0 < |r[i]| <= k
    ensures forall i :: 0 <= i < |r| - 1 ==> |r[i]| == k
    decreases |s|
  {
    if s == [] then []
    else if |s| <= k then
      assert (|s| + k - 1) / k == 1 by { CeilOne(|s|, k); }
      [s]
    else
      var rest := Chunks(s[k..], k);
      assert |rest| + 1 == (|s| + k - 1) / k by { CeilStep(|s| - k, k); }
      [s[..k]] + rest
  }

  /** A sequence longer than `k` starts with a full chunk. */
  lemma ChunksCons<T>(s: seq<T>, k: nat)
    requires 0 < k < |s|
    ensures Chunks(s, k) == [s[..k]] + Chunks(s[k..], k)
  {
  }

  lemma ChunksShort<T>(s: seq<T>, k: nat)
    requires 0 < |s| <= k
    ensures Chunks(s, k) == [s]
  {
  }

  lemma CeilOne(n: nat, k: nat)
    requires 0 < n <= k
    ensures (n + k - 1) / k == 1
  {
  }

  lemma CeilStep(n: nat, k: nat)
    requires k > 0
    ensures (n + k - 1) / k + 1 == (n + k + k - 1) / k
  {
    var m := n + k - 1;
    var q, r := m / k, m % k;
    assert m == q * k + r;
    assert m + k == (q + 1) * k + r;
    DivUnique(m + k, k, q + 1, r);
  }

  lemma DivUnique(a: int, k: int, q: int, r: int)
    requires k > 0 && 0 <= r < k && a == q * k + r
    ensures a / k == q
  {
    var q', r' := a / k, a % k;
    assert a == q' * k + r';
    var d := q - q';
    assert d * k == r' - r by {
      assert q * k - q' * k == (q - q') * k;
    }
    if d >= 1 {
      MulAtLeast(d, k);
    } else if d <= -1 {
      MulAtLeast(-d, k);
    }
  }

  lemma MulAtLeast(d: int, k: int)
    requires d >= 1 && k > 0
    ensures d * k >= k
  {
    assert d * k == k + (d - 1) * k;
  }

  /** The concatenation of a sequence of sequences. */
  function Flatten<T>(ss: seq<seq<T>>): seq<T>
  {
    if ss == [] then [] else ss[0] + Flatten(ss[1..])
  }

  /** Chunking loses nothing and reorders nothing. */
  lemma {:induction false} FlattenChunks<T>(s: seq<T>, k: nat)
    requires k > 0
    ensures Flatten(Chunks(s, k)) == s
    decreases |s|
  {
    if s != [] && |s| > k {
      FlattenChunks(s[k..], k);
      assert s[..k] + s[k..] == s;
    }
  }

  /** The elements after the first `n`, or none when there are fewer. */
  function Skip<T>(s: seq<T>, n: nat): (r: seq<T>)
    ensures |r| == if n <= |s| then |s| - n else 0
    ensures forall i :: 0 <= i < |r| ==> r[i] == s[n + i]
  {
    if n <= |s| then s[n..] else []
  }

  // ---------------------------------------------------------------------
  // Decimal digits

  /** `char::to_digit(10)` accepts exactly the ASCII digits. */
  predicate IsDigit(c: char) { '0' <= c <= '9' }

  predicate AllDigits(s: string) { forall i :: 0 <= i < |s| ==> IsDigit(s[i]) }

  function DigitValue(c: char): (d: nat)
    requires IsDigit(c)
    ensures d < 10
  {
    (c as int - '0' as int) as nat
  }

  function DigitChar(d: nat): (c: char)
    requires d < 10
    ensures IsDigit(c) && DigitValue(c) == d
  {
    ('0' as int + d) as char
  }

  /** The value of a string of decimal digits, most significant first. */
  function DecimalValue(s: string): nat
    requires AllDigits(s)
  {
    if s == [] then 0 else DecimalValue(s[..|s| - 1]) * 10 + DigitValue(s[|s| - 1])
  }

  /** The shortest decimal rendering of `n`. */
  function ShowNat(n: nat): (r: string)
    ensures |r| >= 1 && AllDigits(r)
  {
    if n < 10 then [DigitChar(n)] else ShowNat(n / 10) + [DigitChar(n % 10)]
  }

  /** Reading a rendered natural number gives it back. */
  lemma {:induction false} DecimalValueShowNat(n: nat)
    ensures DecimalValue(ShowNat(n)) == n
  {
    if n >= 10 {
      var s := ShowNat(n);
      assert s[..|s| - 1] == ShowNat(n / 10);
      DecimalValueShowNat(n / 10);
    }
  }

  // ---------------------------------------------------------------------
  // str::parse::<i32>

  const I32Min: int := -0x8000_0000
  const I32Max: int := 0x7FFF_FFFF

  predicate InI32(x: int) { I32Min <= x <= I32Max }

  /** Rust's `i32::from_str`: an optional `+` or `-`, then one or more ASCII
      digits, and a value that fits in 32 bits; anything else is an error. */
  function ParseI32(s: string): (r: Option<int>)
    ensures r.Some? ==> InI32(r.value)
    ensures r.Some? ==> |s| >= 1 && ' ' !in s && ',' !in s
    ensures r.Some? ==> (IsDigit(s[0]) || (|s| >= 2 && (s[0] == '+' || s[0] == '-'))) && AllDigits(s[1..])
    ensures r.Some? && IsDigit(s[0]) ==> r.value == DecimalValue(s)
    ensures r.Some? && s[0] == '+' ==> r.value == DecimalValue(s[1..])
    ensures r.Some? && s[0] == '-' ==> r.value == -(DecimalValue(s[1..]) as int)
    ensures |s| >= 1 && AllDigits(s) && DecimalValue(s) <= I32Max ==> r == Some(DecimalValue(s))
    ensures |s| >= 2 && s[0] == '+' && AllDigits(s[1..]) && DecimalValue(s[1..]) <= I32Max
            ==> r == Some(DecimalValue(s[1..]))
    ensures |s| >= 2 && s[0] == '-' && AllDigits(s[1..]) && DecimalValue(s[1..]) <= -I32Min
            ==> r == Some(-(DecimalValue(s[1..]) as int))
  {
    if |s| == 0 then None
    else if (s[0] == '+' || s[0] == '-') && |s| == 1 then None
    else
      var digits := if s[0] == '+' || s[0] == '-' then s[1..] else s;
      if !AllDigits(digits) then None
      else
        var n: int := DecimalValue(digits);
        var v: int := if s[0] == '-' then -n else n;
        if InI32(v) then
          assert ' ' !in s && ',' !in s by {
            if s[0] == '+' || s[0] == '-' {
              assert forall i :: 1 <= i < |s| ==> s[i] == digits[i - 1];
            }
          }
          Some(v)
        else None
  }

  /** Every value collected from `parse::<i32>` is a 32-bit integer. */
  lemma {:induction false} ParsedAreI32(texts: seq<string>)
    ensures forall i :: 0 <= i < |FilterMap(texts, ParseI32)| ==> InI32(FilterMap(texts, ParseI32)[i])
  {
    if texts != [] {
      ParsedAreI32(texts[1..]);
    }
  }

  /** The decimal rendering Rust prints for an integer. */
  function ShowInt(x: int): string
  {
    if x < 0 then "-" + ShowNat(-x) else ShowNat(x)
  }

  /** Every 32-bit integer survives a print-and-parse round trip. */
  lemma ParseI32ShowInt(x: int)
    requires InI32(x)
    ensures ParseI32(ShowInt(x)) == Some(x)
  {
    var s := ShowInt(x);
    if x < 0 {
      assert s[0] == '-' && s[1..] == ShowNat(-x);
      DecimalValueShowNat(-x);
      assert DecimalValue(s[1..]) == -x;
    } else {
      DecimalValueShowNat(x);
      assert AllDigits(s) && DecimalValue(s) == x;
    }
  }
}
