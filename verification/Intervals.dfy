/**
 RouterOS time intervals (routeros/parse.go:41-97, rest/scalar/scalar.go:17-60):
 the reader both packages carry, and the printer.
 */
module Intervals {
  import opened Prelude
  import opened Counting
  import opened Strconv

  const MILLISECOND := 1_000_000
  const SECOND := 1_000_000_000
  const MINUTE := 60_000_000_000
  const HOUR := 3_600_000_000_000
  const DAY := 86_400_000_000_000
  const WEEK := 604_800_000_000_000

  /** A unit at the head of a text: its length and its size in nanoseconds. */
  datatype Unit = Unit(length: nat, size: int)

  /** The alternation `ms|w|d|h|m|s`, leftmost first. */
  function UnitAt(s: string): Option<Unit> {
    if |s| >= 2 && s[0] == 'm' && s[1] == 's' then Some(Unit(2, MILLISECOND))
    else if s == "" then None
    else if s[0] == 'w' then Some(Unit(1, WEEK))
    else if s[0] == 'd' then Some(Unit(1, DAY))
    else if s[0] == 'h' then Some(Unit(1, HOUR))
    else if s[0] == 'm' then Some(Unit(1, MINUTE))
    else if s[0] == 's' then Some(Unit(1, SECOND))
    else None
  }

  /** How many digits a text starts with. */
  function Digits(s: string): (n: nat)
    ensures n <= |s|
    ensures forall i | 0 <= i < n :: IsDigit(s[i])
    ensures n < |s| ==> !IsDigit(s[n])
  {
    if s == "" || !IsDigit(s[0]) then 0 else 1 + Digits(s[1..])
  }

  /** One term at the head of a text: how much of it is read, and what it is worth. */
  datatype Term = Term(length: nat, worth: int)

  /** The first term; none when there is no term or its count is past int64. */
  function FirstTerm(s: string): (t: Option<Term>)
    ensures t.Some? ==> 0 < t.value.length <= |s|
  {
    var n := Digits(s);
    var unit := UnitAt(s[n..]);
    if n == 0 || unit.None? then None
    else
      var count := ParseInt(s[..n], 10);
      if count.None? then None else Some(Term(n + unit.value.length, count.value * unit.value.size))
  }

  /** What an interval is worth in nanoseconds, exactly; none when it is not an interval. */
  function Interval(s: string): Option<int> {
    if s == "" then Some(0)
    else
      var t := FirstTerm(s);
      if t.None? then None
      else
        var rest := Interval(s[t.value.length..]);
        if rest.None? then None else Some(t.value.worth + rest.value)
  }

  lemma IntervalCons(s: string)
    requires s != "" && FirstTerm(s).Some?
    ensures
      var t := FirstTerm(s).value;
      var rest := Interval(s[t.length..]);
      Interval(s) == if rest.None? then None else Some(t.worth + rest.value)
  {
    hide FirstTerm;
  }

  /** Adding a term with wrap-around, and then the rest, is wrapping the whole. */
  lemma WrapStep(total: int, worth: int, tail: int)
    ensures Wrap64(Wrap64(total + Wrap64(worth)) + tail) == Wrap64(total + (worth + tail))
  {
    hide Wrap64;
    WrapAdd(total + Wrap64(worth), tail);
    WrapAdd(total + tail, worth);
    assert total + Wrap64(worth) + tail == total + tail + Wrap64(worth);
    assert total + tail + worth == total + (worth + tail);
  }

  // ---- The two readers ----

  /** scalar.Duration: an error is reported. */
  method Duration(s: string) returns (d: Option<int>)
    ensures d == (var v := Interval(s); if v.None? then None else Some(Wrap64(v.value)))
  {
    hide Wrap64, FirstTerm;
    if s == "" {
      return Some(0);
    }
    var rest, total := s, 0;
    while rest != ""
      invariant IsInt64(total)
      invariant Interval(s).Some? <==> Interval(rest).Some?
      invariant Interval(s).Some? ==> Wrap64(total + Interval(rest).value) == Wrap64(Interval(s).value)
      decreases |rest|
    {
      var t := FirstTerm(rest);
      if t.None? {
        return None;
      }
      IntervalCons(rest);
      ghost var tail := Interval(rest[t.value.length..]);
      if tail.Some? {
        WrapStep(total, t.value.worth, tail.value);
      }
      total := Wrap64(total + Wrap64(t.value.worth));
      rest := rest[t.value.length..];
    }
    return Some(total);
  }

  /** routeros.parseDuration: an unreadable value is zero. */
  method ParseDuration(text: string) returns (total: int)
    ensures total == (var v := Interval(text); if v.None? then 0 else Wrap64(v.value))
  {
    hide Wrap64, FirstTerm;
    total := 0;
    var s := text;
    while s != ""
      invariant IsInt64(total)
      invariant Interval(text).Some? <==> Interval(s).Some?
      invariant Interval(text).Some? ==> Wrap64(total + Interval(s).value) == Wrap64(Interval(text).value)
      decreases |s|
    {
      var t := FirstTerm(s);
      if t.None? {
        return 0;
      }
      IntervalCons(s);
      ghost var tail := Interval(s[t.value.length..]);
      if tail.Some? {
        WrapStep(total, t.value.worth, tail.value);
      }
      total := Wrap64(total + Wrap64(t.value.worth));
      s := s[t.value.length..];
    }
  }

  // ---- Reading is a homomorphism ----

  lemma {:induction false} DigitsAppend(a: string, b: string)
    requires Digits(a) < |a|
    ensures Digits(a + b) == Digits(a)
  {
    assert (a + b)[0] == a[0];
    if IsDigit(a[0]) {
      assert (a + b)[1..] == a[1..] + b;
      DigitsAppend(a[1..], b);
    }
  }

  /** What follows a term cannot be taken for part of it, unless it starts like the rest of "ms". */
  lemma FirstTermAppend(a: string, b: string)
    requires FirstTerm(a).Some? && (b == "" || IsDigit(b[0]))
    ensures FirstTerm(a + b) == FirstTerm(a)
  {
    var n := Digits(a);
    assert n < |a|;
    DigitsAppend(a, b);
    assert (a + b)[..n] == a[..n];
    assert (a + b)[n..] == a[n..] + b;
  }

  lemma IntervalStartsWithDigit(s: string)
    requires Interval(s).Some? && s != ""
    ensures IsDigit(s[0])
  {
    assert Digits(s) > 0;
  }

  /** The worth of two intervals written one after the other is the sum of their worths. */
  lemma {:induction false} IntervalAppend(a: string, b: string)
    requires Interval(a).Some? && Interval(b).Some?
    ensures Interval(a + b) == Some(Interval(a).value + Interval(b).value)
    decreases |a|
  {
    hide Interval, FirstTerm;
    if a == "" {
      IntervalEmpty();
      assert a + b == b;
    } else {
      if b != "" {
        IntervalStartsWithDigit(b);
      }
      IntervalHead(a);
      FirstTermAppend(a, b);
      var k := FirstTerm(a).value.length;
      assert (a + b)[k..] == a[k..] + b;
      IntervalAppend(a[k..], b);
      IntervalCons(a + b);
    }
  }

  lemma IntervalHead(s: string)
    requires s != "" && Interval(s).Some?
    ensures FirstTerm(s).Some?
    ensures
      var t := FirstTerm(s).value;
      Interval(s[t.length..]).Some? && Interval(s).value == t.worth + Interval(s[t.length..]).value
  {
    hide FirstTerm;
  }

  function Join(terms: seq<string>): string {
    if terms == [] then "" else terms[0] + Join(terms[1..])
  }

  ghost function Sum(terms: seq<string>): int
    requires forall t | t in terms :: Interval(t).Some?
  {
    if terms == [] then 0 else Interval(terms[0]).value + Sum(terms[1..])
  }

  lemma IntervalEmpty()
    ensures Interval("") == Some(0)
  {
  }

  lemma {:induction false} JoinWorth(terms: seq<string>)
    requires forall t | t in terms :: Interval(t).Some?
    ensures Interval(Join(terms)) == Some(Sum(terms))
  {
    hide Interval;
    if terms == [] {
      IntervalEmpty();
    } else {
      JoinWorth(terms[1..]);
      IntervalAppend(terms[0], Join(terms[1..]));
    }
  }

  lemma {:induction false} SumConcat(a: seq<string>, b: seq<string>)
    requires forall t | t in a + b :: Interval(t).Some?
    ensures (forall t | t in a :: t in a + b) && (forall t | t in b :: t in a + b)
    ensures Sum(a + b) == Sum(a) + Sum(b)
  {
    hide Interval;
    if a == [] {
      assert a + b == b;
    } else {
      assert (a + b)[1..] == a[1..] + b;
      SumConcat(a[1..], b);
    }
  }

  /** Any reordering of the terms is worth the same. */
  lemma {:induction false} ReorderedWorth(a: seq<string>, b: seq<string>)
    requires multiset(a) == multiset(b) && forall t | t in a :: Interval(t).Some?
    ensures Interval(Join(a)) == Interval(Join(b))
  {
    forall t | t in b
      ensures Interval(t).Some?
    {
      assert t in multiset(b);
    }
    JoinWorth(a);
    JoinWorth(b);
    SumPermuted(a, b);
  }

  lemma {:induction false} SumPermuted(a: seq<string>, b: seq<string>)
    requires multiset(a) == multiset(b)
    requires (forall t | t in a :: Interval(t).Some?) && forall t | t in b :: Interval(t).Some?
    ensures Sum(a) == Sum(b)
  {
    hide Interval;
    if a == [] {
      assert |multiset(b)| == |multiset(a)| == 0;
    } else {
      var left, right := PullOut(a, b);
      var x := a[0];
      SumPermuted(a[1..], left + right);
      SumConcat(left, right);
      SumConcat(left, [x] + right);
    }
  }

  // ---- Printing and reading back ----

  /** The units of the printer, largest first, with how they are written. */
  function Suffix(k: nat): string
    requires k < 6
  {
    ["w", "d", "h", "m", "s", "ms"][k]
  }

  function Size(k: nat): int
    requires k < 6
  {
    [WEEK, DAY, HOUR, MINUTE, SECOND, MILLISECOND][k]
  }

  /** Go's integer division, which drops the fraction towards zero. */
  function Quotient(a: int, b: int): int
    requires b > 0
  {
    if a >= 0 then a / b else -((-a) / b)
  }

  /** The terms from unit `k` on for what is left of a duration. */
  function Terms(k: nat, d: int): string
    requires k <= 6
    decreases 6 - k
  {
    if k == 6 then ""
    else
      var n := Quotient(d, Size(k));
      if n > 0 then Format(n, 10) + Suffix(k) + Terms(k + 1, d - n * Size(k)) else Terms(k + 1, d)
  }

  function FormatDuration(d: int): string {
    if d == 0 then "0s" else Terms(0, d)
  }

  lemma TermsStep(k: nat, d: int)
    requires k < 6
    ensures
      var n := Quotient(d, Size(k));
      && Size(k) > 0
      && Terms(k, d) == if n > 0 then Format(n, 10) + Suffix(k) + Terms(k + 1, d - n * Size(k)) else Terms(k + 1, d)
  {
  }

  lemma LastUnit()
    ensures Size(5) == MILLISECOND && Suffix(5) == "ms" && forall d :: Terms(6, d) == ""
  {
  }

  lemma Regroup(a: string, b: string, c: string, d: string)
    ensures a + (b + c + d) == a + b + c + d
  {
  }

  /** routeros.formatDuration as it runs. */
  method PrintDuration(duration: int) returns (b: string)
    requires IsInt64(duration)
    ensures b == FormatDuration(duration)
  {
    hide Terms, Format, Quotient, Size, Suffix;
    if duration == 0 {
      return "0s";
    }
    b := "";
    var d := duration;
    for k := 0 to 5
      invariant b + Terms(k, d) == Terms(0, duration)
    {
      TermsStep(k, d);
      var n := Quotient(d, Size(k));
      if n > 0 {
        Regroup(b, Format(n, 10), Suffix(k), Terms(k + 1, d - n * Size(k)));
        b := b + Format(n, 10);
        b := b + Suffix(k);
        d := d - n * Size(k);
      }
    }
    var ms := Quotient(d, MILLISECOND);
    TermsStep(5, d);
    LastUnit();
    if ms > 0 {
      Regroup(b, Format(ms, 10), "ms", "");
      b := b + Format(ms, 10);
      b := b + "ms";
    }
  }

  lemma {:induction false} DigitsAll(s: string, rest: string)
    requires (forall i | 0 <= i < |s| :: IsDigit(s[i])) && (rest == "" || !IsDigit(rest[0]))
    ensures Digits(s + rest) == |s|
  {
    if s == "" {
      assert s + rest == rest;
    } else {
      assert (s + rest)[1..] == s[1..] + rest;
      DigitsAll(s[1..], rest);
    }
  }

  /** A suffix is read as its own unit when a digit or nothing follows; "ms" is never minutes. */
  lemma SuffixRead(k: nat, rest: string)
    requires k < 6 && (rest == "" || IsDigit(rest[0]))
    ensures UnitAt(Suffix(k) + rest) == Some(Unit(|Suffix(k)|, Size(k)))
    ensures !IsDigit((Suffix(k) + rest)[0])
  {
    var s := Suffix(k) + rest;
    assert s[0] == Suffix(k)[0];
    assert |Suffix(k)| == 2 ==> s[1] == Suffix(k)[1];
  }

  /** A printed term is read back whole. */
  lemma TermRead(n: nat, k: nat, rest: string)
    requires k < 6 && n <= MAX_INT64 && (rest == "" || IsDigit(rest[0]))
    ensures FirstTerm(Format(n, 10) + Suffix(k) + rest) == Some(Term(|Format(n, 10)| + |Suffix(k)|, n * Size(k)))
  {
    hide Format, Suffix, Size, UnitAt, Digits, ParseInt;
    var digits, tail := Format(n, 10), Suffix(k) + rest;
    var s := Format(n, 10) + Suffix(k) + rest;
    assert s == digits + tail;
    SuffixRead(k, rest);
    DigitsAll(digits, tail);
    assert s[..|digits|] == digits && s[|digits|..] == tail;
    FormatParses(n);
  }

  lemma FormatParses(n: nat)
    requires n <= MAX_INT64
    ensures ParseInt(Format(n, 10), 10) == Some(n)
  {
    var s := Format(n, 10);
    assert IsDigit(s[0]);
    ParseFormat(n, 10, MAX_UINT64);
  }

  lemma {:induction false} TermsStart(k: nat, d: int)
    requires k <= 6
    ensures Terms(k, d) == "" || IsDigit(Terms(k, d)[0])
    decreases 6 - k
  {
    if k < 6 {
      var n := Quotient(d, Size(k));
      if n > 0 {
        assert Terms(k, d)[0] == Format(n, 10)[0];
      } else {
        TermsStart(k + 1, d);
      }
    }
  }

  /** The printed terms are worth what was left, down to the millisecond. */
  lemma {:induction false} TermsWorth(k: nat, d: int)
    requires k <= 6 && 0 <= d <= MAX_INT64 && (k == 6 ==> d < MILLISECOND)
    ensures Interval(Terms(k, d)) == Some(d - d % MILLISECOND)
    decreases 6 - k
  {
    hide Interval, FirstTerm, Format, Terms, Size, Suffix;
    if k == 6 {
      LastUnit();
      IntervalEmpty();
    } else {
      TermsStep(k, d);
      var n := d / Size(k);
      var left := d - n * Size(k);
      assert left == d % Size(k);
      LeftBounds(k, d);
      TermsWorth(k + 1, left);
      if n > 0 {
        TermsStart(k + 1, left);
        var rest := Terms(k + 1, left);
        TermRead(n, k, rest);
        var s := Format(n, 10) + Suffix(k) + rest;
        assert s[|Format(n, 10)| + |Suffix(k)|..] == rest;
        IntervalCons(s);
      }
    }
  }

  lemma LeftBounds(k: nat, d: int)
    requires k < 6 && 0 <= d
    ensures
      var n := d / Size(k);
      var left := d % Size(k);
      && 0 <= left <= d && n <= d && (k + 1 == 6 ==> left < MILLISECOND)
      && n * Size(k) + (left - left % MILLISECOND) == d - d % MILLISECOND
  {
    var n := d / Size(k);
    var left := d % Size(k);
    var per := [604_800_000, 86_400_000, 3_600_000, 60_000, 1_000, 1][k];
    assert Size(k) == per * MILLISECOND;
    assert d == n * Size(k) + left;
    assert n * Size(k) == (n * per) * MILLISECOND;
    ModShift(left, n * per, MILLISECOND);
  }

  /** Nothing is printed for a negative duration. */
  lemma {:induction false} TermsNegative(k: nat, d: int)
    requires k <= 6 && d < 0
    ensures Terms(k, d) == ""
    decreases 6 - k
  {
    hide Terms, Size;
    if k == 6 {
      LastUnit();
    } else {
      TermsStep(k, d);
      assert (-d) / Size(k) >= 0;
      TermsNegative(k + 1, d);
    }
  }

  /** What the lenient readers make of a text. */
  function Read(s: string): (d: int)
    ensures IsInt64(d)
  {
    var v := Interval(s);
    if v.None? then 0 else Wrap64(v.value)
  }

  /** Printing and reading back drops what is below a millisecond, for every duration that is not negative. */
  lemma DurationRoundTrip(d: int)
    requires 0 <= d <= 9_223_372_036_854_775_807
    ensures Interval(FormatDuration(d)) == Some(d - d % 1_000_000)
    ensures Read(FormatDuration(d)) == d - d % 1_000_000
  {
    hide Interval, Terms, Wrap64;
    if d == 0 {
      TermRead(0, 4, "");
      assert Format(0, 10) + Suffix(4) + "" == "0s";
      IntervalCons("0s");
      assert "0s"[2..] == "";
      IntervalEmpty();
    } else {
      TermsWorth(0, d);
    }
  }

  /** A duration survives the round trip exactly when it is not negative and a whole number of milliseconds. */
  lemma DurationRoundTripExact(d: int)
    requires -9_223_372_036_854_775_808 <= d <= 9_223_372_036_854_775_807
    ensures Read(FormatDuration(d)) == d <==> d >= 0 && d % 1_000_000 == 0
  {
    hide Interval, Terms, Wrap64;
    if d >= 0 {
      DurationRoundTrip(d);
    } else {
      TermsNegative(0, d);
      IntervalEmpty();
    }
  }

  /** Different whole numbers of milliseconds print differently. */
  lemma FormatDurationInjective(a: int, b: int)
    requires 0 <= a <= 9_223_372_036_854_775_807 && 0 <= b <= 9_223_372_036_854_775_807
    requires a % 1_000_000 == 0 && b % 1_000_000 == 0 && FormatDuration(a) == FormatDuration(b)
    ensures a == b
  {
    hide *;
    DurationRoundTrip(a);
    DurationRoundTrip(b);
  }

  lemma MillisecondUnit()
    ensures Suffix(5) == "ms" && Size(5) == 1_000_000 && MAX_INT64 == 9_223_372_036_854_775_807
  {
  }

  /** A count and a unit are worth that many of the unit, whatever interval follows. */
  lemma TermThenRest(n: nat, k: nat, rest: string)
    requires k < 6 && n <= MAX_INT64 && Interval(rest).Some?
    ensures Interval(Format(n, 10) + Suffix(k) + rest) == Some(n * Size(k) + Interval(rest).value)
  {
    hide *;
    if rest != "" {
      IntervalStartsWithDigit(rest);
    }
    TermRead(n, k, rest);
    var term := Format(n, 10) + Suffix(k);
    var s := term + rest;
    assert s[|term|..] == rest;
    IntervalCons(s);
  }

  /** "ms" after a count is milliseconds, never minutes followed by something else. */
  lemma MillisecondsWhole(n: nat, rest: string)
    requires n <= 9_223_372_036_854_775_807 && Interval(rest).Some?
    ensures Interval(Format(n, 10) + "ms" + rest) == Some(n * 1_000_000 + Interval(rest).value)
  {
    hide *;
    MillisecondUnit();
    TermThenRest(n, 5, rest);
  }
}
