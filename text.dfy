/** The parts of Rust's `str` that the server relies on: `starts_with`,
    `split` with a string pattern, `replace`, and the decimal rendering of a
    `usize`. `IndexOf` is the leftmost search that `split` and `replace`
    perform (what `find` would return), and `Join` is the inverse of `Split`
    that the model uses to state properties of it. Text is taken to be ASCII, so the byte length
    that Rust's `len()` reports is the number of characters. */
module Text {
  import opened Options

  predicate StartsWith(s: string, prefix: string) {
    |prefix| <= |s| && s[..|prefix|] == prefix
  }

  predicate EndsWith(s: string, suffix: string) {
    |suffix| <= |s| && s[|s| - |suffix|..] == suffix
  }

  lemma StartsWithAppend(a: string, b: string, prefix: string)
    requires StartsWith(a, prefix)
    ensures StartsWith(a + b, prefix)
  {
    assert (a + b)[..|prefix|] == a[..|prefix|];
  }

  /** `d` occurs in `s` starting at index `i`. */
  predicate OccursAt(s: string, d: string, i: nat) {
    i + |d| <= |s| && s[i..i + |d|] == d
  }

  /** The leftmost occurrence of `d` in `s` at or after `from`. */
  function IndexOfFrom(s: string, d: string, from: nat): (r: Option<nat>)
    requires |d| > 0
    ensures r.Some? ==> from <= r.value && OccursAt(s, d, r.value)
    ensures r.Some? ==> forall j: nat :: from <= j < r.value ==> !OccursAt(s, d, j)
    ensures r.None? ==> forall j: nat :: from <= j ==> !OccursAt(s, d, j)
    decreases |s| - from
  {
    if |s| < from + |d| then None
    else if OccursAt(s, d, from) then Some(from)
    else IndexOfFrom(s, d, from + 1)
  }

  /** Rust's `str::find`: the index of the leftmost occurrence of `d`. */
  function IndexOf(s: string, d: string): (r: Option<nat>)
    requires |d| > 0
    ensures r.Some? ==> OccursAt(s, d, r.value) && NoneBefore(s, d, r.value)
    ensures r.None? ==> NoneBefore(s, d, |s| + 1)
  {
    IndexOfFrom(s, d, 0)
  }

  /** No occurrence of `d` in `s` starts before index `n`. */
  predicate NoneBefore(s: string, d: string, n: nat) {
    forall j: nat :: j < n ==> !OccursAt(s, d, j)
  }

  /** `p` followed by `d` has its first occurrence of `d` exactly at the
      joint: no occurrence lies inside `p` or straddles the joint. */
  predicate Separable(p: string, d: string) {
    NoneBefore(p + d, d, |p|)
  }

  lemma PrefixKeepsNoOccurrence(s: string, d: string, i: nat)
    requires |d| > 0 && i <= |s| && NoneBefore(s, d, i)
    ensures NoneBefore(s[..i], d, |s[..i]| + 1)
  {
    forall j: nat | j < i + 1
      ensures !OccursAt(s[..i], d, j)
    {
      if j + |d| <= i {
        assert !OccursAt(s, d, j);
        assert s[..i][j..j + |d|] == s[j..j + |d|];
      }
    }
  }

  /** Rust's `str::split` with a non-empty string pattern: the pieces between
      the successive leftmost, non-overlapping occurrences of `d`. It always
      yields at least one piece and keeps empty pieces. */
  function Split(s: string, d: string): (r: seq<string>)
    requires |d| > 0
    ensures |r| >= 1
    ensures forall k, j: nat :: 0 <= k < |r| ==> !OccursAt(r[k], d, j)
    decreases |s|
  {
    match IndexOf(s, d)
    case None => assert NoneBefore(s, d, |s| + 1); [s]
    case Some(i) =>
      PrefixKeepsNoOccurrence(s, d, i);
      [s[..i]] + Split(s[i + |d|..], d)
  }

  /** Rust's `join`: the parts with `d` between consecutive ones. */
  function Join(parts: seq<string>, d: string): string {
    if |parts| == 0 then ""
    else if |parts| == 1 then parts[0]
    else parts[0] + d + Join(parts[1..], d)
  }

  /** Rust's `str::replace`: every non-overlapping occurrence of `from`,
      scanned left to right, replaced by `to`. Replacing a pattern by itself
      changes nothing, and neither does replacing a pattern that does not
      occur. */
  function Replace(s: string, from: string, to: string): (r: string)
    requires |from| > 0
    ensures to == from ==> r == s
    ensures NoneBefore(s, from, |s| + 1) ==> r == s
  {
    JoinSplit(s, from);
    if NoneBefore(s, from, |s| + 1) then SplitWhole(s, from); Join(Split(s, from), to)
    else Join(Split(s, from), to)
  }

  /** `replace` as the scan Rust performs: find the leftmost occurrence, keep
      the text before it, write `to`, and go on after the occurrence. */
  lemma ReplaceScan(s: string, from: string, to: string)
    requires |from| > 0
    ensures match IndexOf(s, from)
            case None => Replace(s, from, to) == s
            case Some(i) => Replace(s, from, to) == s[..i] + to + Replace(s[i + |from|..], from, to)
  {
    match IndexOf(s, from)
    case None =>
    case Some(i) =>
      var rest := Split(s[i + |from|..], from);
      assert Split(s, from) == [s[..i]] + rest;
      assert ([s[..i]] + rest)[1..] == rest;
  }

  /** Splitting and joining again with the same delimiter gives back the text. */
  lemma {:induction false} JoinSplit(s: string, d: string)
    requires |d| > 0
    ensures Join(Split(s, d), d) == s
    decreases |s|
  {
    var r := Split(s, d);
    match IndexOf(s, d)
    case None =>
      assert r == [s];
    case Some(i) =>
      var rest := s[i + |d|..];
      assert r == [s[..i]] + Split(rest, d);
      JoinSplit(rest, d);
      assert r[1..] == Split(rest, d);
      assert Join(r, d) == s[..i] + d + Join(Split(rest, d), d);
      assert s == s[..i] + s[i..i + |d|] + rest;
  }

  /** When `p` is separable from `d`, the first occurrence of `d` in
      `p + d + rest` is the one right after `p`. */
  lemma FirstOccurrenceAfter(p: string, d: string, rest: string)
    requires |d| > 0 && Separable(p, d)
    ensures IndexOf(p + d + rest, d) == Some(|p|)
  {
    var s := p + d + rest;
    assert s[|p|..|p| + |d|] == d;
    assert OccursAt(s, d, |p|);
    forall j: nat | j < |p|
      ensures !OccursAt(s, d, j)
    {
      if j + |d| <= |s| {
        assert s[j..j + |d|] == (p + d)[j..j + |d|];
        assert !OccursAt(p + d, d, j);
      }
    }
  }

  /** When `p` is separable from `d`, the first piece of `p + d + rest` is `p`. */
  lemma SplitFirst(p: string, d: string, rest: string)
    requires |d| > 0 && Separable(p, d)
    ensures Split(p + d + rest, d) == [p] + Split(rest, d)
  {
    var s := p + d + rest;
    FirstOccurrenceAfter(p, d, rest);
    assert s[..|p|] == p;
    assert s[|p| + |d|..] == rest;
  }

  /** A text with no occurrence of `d` splits into itself alone. */
  lemma SplitWhole(s: string, d: string)
    requires |d| > 0 && NoneBefore(s, d, |s| + 1)
    ensures Split(s, d) == [s]
  {
    assert IndexOf(s, d).None?;
  }

  /** A delimiter whose first character does not appear in `p` cannot occur
      in `p`, nor straddle the end of `p`. */
  lemma AbsentFirstChar(p: string, d: string)
    requires |d| > 0 && d[0] !in p
    ensures Separable(p, d) && NoneBefore(p, d, |p| + 1)
  {
    forall j: nat | j < |p|
      ensures !OccursAt(p + d, d, j)
    {
      if j + |d| <= |p + d| {
        assert (p + d)[j..j + |d|][0] == p[j];
      }
    }
    forall j: nat | j < |p| + 1
      ensures !OccursAt(p, d, j)
    {
      if j + |d| <= |p| {
        assert p[j..j + |d|][0] == p[j];
      }
    }
  }

  /** A separable part contains no occurrence of the delimiter. */
  lemma SeparableHasNone(p: string, d: string)
    requires |d| > 0 && Separable(p, d)
    ensures NoneBefore(p, d, |p| + 1)
  {
    forall j: nat | j < |p| + 1
      ensures !OccursAt(p, d, j)
    {
      if j + |d| <= |p| {
        assert (p + d)[j..j + |d|] == p[j..j + |d|];
        assert !OccursAt(p + d, d, j);
      }
    }
  }

  /** Joining parts that are each separable from `d`, then splitting on `d`,
      gives back the parts. */
  lemma {:induction false} SplitJoin(parts: seq<string>, d: string)
    requires |d| > 0 && |parts| >= 1
    requires forall k :: 0 <= k < |parts| ==> Separable(parts[k], d)
    ensures Split(Join(parts, d), d) == parts
    decreases |parts|
  {
    if |parts| == 1 {
      SeparableHasNone(parts[0], d);
      SplitWhole(parts[0], d);
    } else {
      SplitJoin(parts[1..], d);
      SplitFirst(parts[0], d, Join(parts[1..], d));
      assert parts == [parts[0]] + parts[1..];
    }
  }

  /** Replacing `from` by nothing in `from + s`, where `s` holds no `from`,
      leaves exactly `s`. */
  lemma ReplaceLeading(from: string, s: string)
    requires |from| > 0 && NoneBefore(s, from, |s| + 1)
    ensures Replace(from + s, from, "") == s
  {
    assert Separable("", from) by {
      assert "" + from == from;
    }
    SplitFirst("", from, s);
    assert "" + from + s == from + s;
    SplitWhole(s, from);
    assert Split(from + s, from) == ["", s];
    assert Join(["", s], "") == "" + "" + s;
  }

  function DigitChar(n: nat): char
    requires n < 10
  {
    ('0' as int + n) as char
  }

  predicate IsDigit(c: char) {
    '0' <= c <= '9'
  }

  /** Rust's `format!("{}", n)` for a `usize`: the decimal digits of `n`,
      without leading zeros. */
  function DecimalDigits(n: nat): (r: string)
    ensures |r| >= 1 && forall i :: 0 <= i < |r| ==> IsDigit(r[i])
    ensures |r| > 1 ==> r[0] != '0'
    decreases n
  {
    if n < 10 then [DigitChar(n)]
    else DecimalDigits(n / 10) + [DigitChar(n % 10)]
  }

  /** The rendering of a three-digit number, digit by digit. */
  lemma ThreeDigits(n: nat)
    requires 100 <= n < 1000
    ensures DecimalDigits(n) == [DigitChar(n / 100), DigitChar(n / 10 % 10), DigitChar(n % 10)]
  {
    assert n / 10 / 10 == n / 100;
    assert DecimalDigits(n / 100) == [DigitChar(n / 100)];
    assert DecimalDigits(n / 10) == DecimalDigits(n / 100) + [DigitChar(n / 10 % 10)];
  }

  /** The number a string of decimal digits denotes (the reading side). */
  function DecimalValue(s: string): nat
    requires forall i :: 0 <= i < |s| ==> IsDigit(s[i])
    decreases |s|
  {
    if s == [] then 0
    else assert IsDigit(s[|s| - 1]); 10 * DecimalValue(s[..|s| - 1]) + (s[|s| - 1] as int - '0' as int)
  }

  /** Reading back the rendered digits of `n` gives `n`. */
  lemma {:induction false} DecimalRoundTrip(n: nat)
    ensures DecimalValue(DecimalDigits(n)) == n
    decreases n
  {
    if n >= 10 {
      DecimalRoundTrip(n / 10);
      var r := DecimalDigits(n);
      assert r[..|r| - 1] == DecimalDigits(n / 10);
    }
  }
}
