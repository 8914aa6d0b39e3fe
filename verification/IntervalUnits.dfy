/**
 What an interval is and what it is worth, and how a duration is printed, with the
 units written out in nanoseconds (rest/scalar/scalar.go:20-60,
 routeros/parse.go:43-97).
 */
module IntervalUnits {
  import opened Prelude
  import opened Strconv
  import opened Intervals

  lemma DigitsParse(s: string)
    requires Decimal(s)
    ensures ParseInt(s, 10) == if Denoted(s) <= 9_223_372_036_854_775_807 then Some(Denoted(s)) else None
  {
    DenotedValue(s);
    hide Value;
  }

  /** A count and a unit, read whole whatever interval follows; a count past int64 makes the text no interval. */
  lemma CountRead(s: string, k: nat, rest: string)
    requires k < 6 && Decimal(s) && Interval(rest).Some?
    ensures Interval(s + Suffix(k) + rest) ==
      if Denoted(s) <= 9_223_372_036_854_775_807 then Some(Denoted(s) * Size(k) + Interval(rest).value) else None
  {
    hide Interval, Suffix, Size, UnitAt, Digits, ParseInt, Denoted;
    if rest != "" {
      IntervalStartsWithDigit(rest);
    }
    var tail := Suffix(k) + rest;
    var whole := s + Suffix(k) + rest;
    assert whole == s + tail;
    SuffixRead(k, rest);
    DigitsAll(s, tail);
    assert whole[..|s|] == s && whole[|s|..] == tail;
    DigitsParse(s);
    if Denoted(s) <= 9_223_372_036_854_775_807 {
      assert whole[|s| + |Suffix(k)|..] == rest;
      IntervalCons(whole);
    } else {
      NoFirstTerm(whole);
    }
  }

  lemma NoFirstTerm(s: string)
    requires s != "" && FirstTerm(s).None?
    ensures Interval(s).None?
  {
    hide FirstTerm;
  }

  /** Every unit is worth what it is called. */
  lemma UnitsWorth(s: string, rest: string)
    requires Decimal(s) && Denoted(s) <= 9_223_372_036_854_775_807 && Interval(rest).Some?
    ensures Interval(s + "ms" + rest) == Some(Denoted(s) * 1_000_000 + Interval(rest).value)
    ensures Interval(s + "s" + rest) == Some(Denoted(s) * 1_000_000_000 + Interval(rest).value)
    ensures Interval(s + "m" + rest) == Some(Denoted(s) * 60_000_000_000 + Interval(rest).value)
    ensures Interval(s + "h" + rest) == Some(Denoted(s) * 3_600_000_000_000 + Interval(rest).value)
    ensures Interval(s + "d" + rest) == Some(Denoted(s) * 86_400_000_000_000 + Interval(rest).value)
    ensures Interval(s + "w" + rest) == Some(Denoted(s) * 604_800_000_000_000 + Interval(rest).value)
  {
    UnitNames();
    hide *;
    CountRead(s, 0, rest);
    CountRead(s, 1, rest);
    CountRead(s, 2, rest);
    CountRead(s, 3, rest);
    CountRead(s, 4, rest);
    CountRead(s, 5, rest);
  }

  lemma UnitNames()
    ensures Suffix(0) == "w" && Size(0) == 604_800_000_000_000
    ensures Suffix(1) == "d" && Size(1) == 86_400_000_000_000
    ensures Suffix(2) == "h" && Size(2) == 3_600_000_000_000
    ensures Suffix(3) == "m" && Size(3) == 60_000_000_000
    ensures Suffix(4) == "s" && Size(4) == 1_000_000_000
    ensures Suffix(5) == "ms" && Size(5) == 1_000_000
  {
  }

  /** Nothing else is an interval: a text that is one is empty, or a count, a unit and an interval. */
  lemma IntervalSplits(s: string) returns (count: string, unit: string, rest: string)
    requires Interval(s).Some? && s != ""
    ensures s == count + unit + rest && Decimal(count) && Denoted(count) <= 9_223_372_036_854_775_807
    ensures IsUnit(unit) && Interval(rest).Some?
  {
    IntervalHead(s);
    TermSpelled(s);
    hide *;
    var n := Digits(s);
    var t := FirstTerm(s).value;
    count, unit, rest := s[..n], s[n..t.length], s[t.length..];
    assert s == count + unit + rest;
  }

  predicate IsUnit(unit: string) {
    unit == "w" || unit == "d" || unit == "h" || unit == "m" || unit == "s" || unit == "ms"
  }

  lemma TermSpelled(s: string)
    requires FirstTerm(s).Some?
    ensures
      var n, t := Digits(s), FirstTerm(s).value;
      n <= t.length <= |s| && Decimal(s[..n]) && Denoted(s[..n]) <= 9_223_372_036_854_775_807 && IsUnit(s[n..t.length])
  {
    hide *;
    TermShape(s);
    var n := Digits(s);
    var unit := UnitAt(s[n..]).value;
    UnitSpelled(s[n..]);
    assert s[n..][..unit.length] == s[n..n + unit.length];
    DigitsParse(s[..n]);
  }

  lemma TermShape(s: string)
    requires FirstTerm(s).Some?
    ensures
      var n := Digits(s);
      && Decimal(s[..n]) && UnitAt(s[n..]).Some? && FirstTerm(s).value.length == n + UnitAt(s[n..]).value.length
      && ParseInt(s[..n], 10).Some?
  {
    hide UnitAt, ParseInt;
  }

  lemma UnitSpelled(s: string)
    requires UnitAt(s).Some?
    ensures UnitAt(s).value.length <= |s| && IsUnit(s[..UnitAt(s).value.length])
  {
    assert |s| >= 2 ==> s[..2] == [s[0], s[1]];
    assert s[..1] == [s[0]];
  }

  // ---- What is printed ----

  /** A count and its unit, left out when the count is zero. */
  function Part(n: nat, unit: string): string {
    if n > 0 then Format(n, 10) + unit else ""
  }

  /** A duration is printed in the largest units first, each count below the next larger unit. */
  lemma PrintedExactly(d: int)
    requires d <= 9_223_372_036_854_775_807
    ensures d == 0 ==> FormatDuration(d) == "0s"
    ensures d < 0 ==> FormatDuration(d) == ""
    ensures d > 0 ==>
      (FormatDuration(d)
       == Part(d / 604_800_000_000_000, "w")
          + Part(d % 604_800_000_000_000 / 86_400_000_000_000, "d")
          + Part(d % 86_400_000_000_000 / 3_600_000_000_000, "h")
          + Part(d % 3_600_000_000_000 / 60_000_000_000, "m")
          + Part(d % 60_000_000_000 / 1_000_000_000, "s")
          + Part(d % 1_000_000_000 / 1_000_000, "ms"))
  {
    UnitNames();
    hide Part, Suffix, Size, Format, Terms;
    if d < 0 {
      TermsNegative(0, d);
    } else if d > 0 {
      TermsPart(0, d);
      TermsPart(1, d % 604_800_000_000_000);
      TermsPart(2, d % 86_400_000_000_000);
      TermsPart(3, d % 3_600_000_000_000);
      TermsPart(4, d % 60_000_000_000);
      TermsPart(5, d % 1_000_000_000);
      LastUnit();
      UnitsDivide(d);
    }
  }

  lemma UnitsDivide(d: nat)
    ensures d % 604_800_000_000_000 % 86_400_000_000_000 == d % 86_400_000_000_000
    ensures d % 86_400_000_000_000 % 3_600_000_000_000 == d % 3_600_000_000_000
    ensures d % 3_600_000_000_000 % 60_000_000_000 == d % 60_000_000_000
    ensures d % 60_000_000_000 % 1_000_000_000 == d % 1_000_000_000
  {
    ModMod(d, 7, 86_400_000_000_000);
    ModMod(d, 24, 3_600_000_000_000);
    ModMod(d, 60, 60_000_000_000);
    ModMod(d, 60, 1_000_000_000);
  }

  lemma ModMod(d: nat, q: nat, m: nat)
    requires q > 0 && m > 0
    ensures q * m > 0 && d % (q * m) % m == d % m
  {
    var whole := q * m;
    var k, r := d / whole, d % whole;
    assert d == k * whole + r;
    assert k * whole == (k * q) * m;
    ModShift(r, k * q, m);
  }

  lemma DivMod(d: nat, m: nat)
    requires m > 0
    ensures d - d / m * m == d % m
  {
  }

  lemma TermsPart(k: nat, d: nat)
    requires k < 6
    ensures Size(k) > 0 && Terms(k, d) == Part(d / Size(k), Suffix(k)) + Terms(k + 1, d % Size(k))
  {
    hide Terms, Format, Suffix, Size;
    TermsStep(k, d);
    DivMod(d, Size(k));
    hide Part;
    PartIs(d / Size(k), Suffix(k));
  }

  lemma PartIs(n: nat, unit: string)
    ensures Part(n, unit) == if n > 0 then Format(n, 10) + unit else ""
  {
  }
}
