/**
 The part of Go's strconv the codecs stand on: digits in a base, the readers
 ParseUint and ParseInt with their range checks, and the printers.
 */
module Strconv {
  import opened Prelude

  const MAX_INT64: int := 0x7FFF_FFFF_FFFF_FFFF
  const MIN_INT64: int := -0x8000_0000_0000_0000
  const MAX_UINT64: int := 0xFFFF_FFFF_FFFF_FFFF
  const MAX_UINT32: int := 0xFFFF_FFFF

  predicate IsInt64(n: int) {
    MIN_INT64 <= n <= MAX_INT64
  }

  predicate IsDigit(c: char) {
    '0' <= c <= '9'
  }

  /** The value of one digit; letters count from ten in either case. */
  function DigitValue(c: char): Option<nat> {
    if '0' <= c <= '9' then Some(c as int - '0' as int)
    else if 'a' <= c <= 'z' then Some(c as int - 'a' as int + 10)
    else if 'A' <= c <= 'Z' then Some(c as int - 'A' as int + 10)
    else None
  }

  /** The number a text of digits denotes, without any bound. */
  function Value(s: string, base: nat): Option<nat> {
    if s == "" then Some(0)
    else
      var n := |s| - 1;
      var d := DigitValue(s[n]);
      var rest := Value(s[..n], base);
      if rest.None? || d.None? || d.value >= base then None else Some(rest.value * base + d.value)
  }

  /** strconv.ParseUint with an explicit base; `max` is the largest value of the bit size. */
  function ParseUint(s: string, base: nat, max: nat): Option<nat> {
    var v := Value(s, base);
    if s == "" || v.None? || v.value > max then None else v
  }

  /** strconv.ParseInt at 64 bits with an explicit base. */
  function ParseInt(s: string, base: nat): (r: Option<int>)
    ensures r.Some? ==> IsInt64(r.value)
  {
    if s == "" then None
    else
      var neg := s[0] == '-';
      var digits := if s[0] == '-' || s[0] == '+' then s[1..] else s;
      var v := ParseUint(digits, base, MAX_UINT64);
      if v.None? then None
      else
        var size: int := v.value;
        var n := if neg then -size else size;
        if IsInt64(n) then Some(n) else None
  }

  function DigitChar(d: nat): (c: char)
    requires d < 16
    ensures DigitValue(c) == Some(d)
    ensures d < 10 ==> IsDigit(c)
  {
    if d < 10 then ('0' as int + d) as char else ('A' as int + d - 10) as char
  }

  /** The digits of a number, without leading zeros. */
  function Format(n: nat, base: nat): (s: string)
    requires 2 <= base <= 16
    ensures s != ""
    ensures base <= 10 ==> forall i | 0 <= i < |s| :: IsDigit(s[i])
    decreases n
  {
    if n < base then [DigitChar(n)]
    else
      DivSmaller(n, base);
      Format(n / base, base) + [DigitChar(n % base)]
  }

  lemma DivSmaller(n: nat, base: nat)
    requires 2 <= base <= n
    ensures n / base < n && n == (n / base) * base + n % base
  {
    var q := n / base;
    assert q * base <= n;
    assert q * 2 <= q * base;
  }

  lemma ValueSnoc(front: string, c: char, base: nat)
    ensures
      var v, d := Value(front, base), DigitValue(c);
      Value(front + [c], base) == if v.None? || d.None? || d.value >= base then None else Some(v.value * base + d.value)
  {
    assert (front + [c])[..|front|] == front;
  }

  /** The printed digits denote the number. */
  lemma {:induction false} FormatValue(n: nat, base: nat)
    requires 2 <= base <= 16
    ensures Value(Format(n, base), base) == Some(n)
    decreases n
  {
    hide Value, Format;
    if n < base {
      FormatDigit(n, base);
    } else {
      DivSmaller(n, base);
      FormatValue(n / base, base);
      FormatSnoc(n, base);
      ValueSnoc(Format(n / base, base), DigitChar(n % base), base);
    }
  }

  lemma FormatDigit(n: nat, base: nat)
    requires n < base && 2 <= base <= 16
    ensures Value(Format(n, base), base) == Some(n)
  {
    ValueSnoc("", DigitChar(n), base);
    assert "" + [DigitChar(n)] == [DigitChar(n)];
  }

  lemma FormatSnoc(n: nat, base: nat)
    requires 2 <= base <= 16 && base <= n
    ensures Format(n, base) == Format(n / base, base) + [DigitChar(n % base)]
  {
  }

  function FormatInt(n: int): string {
    if n < 0 then "-" + Format(-n, 10) else Format(n, 10)
  }

  /** Reading a printed number back, within the range asked for. */
  lemma ParseFormat(n: nat, base: nat, max: nat)
    requires 2 <= base <= 16
    ensures ParseUint(Format(n, base), base, max) == if n <= max then Some(n) else None
  {
    FormatValue(n, base);
  }

  /** Go's int64 arithmetic: results are taken modulo 2^64 into the signed range. */
  function Wrap64(n: int): (r: int)
    ensures IsInt64(r)
    ensures IsInt64(n) ==> r == n
  {
    (n - MIN_INT64) % (MAX_UINT64 + 1) + MIN_INT64
  }

  /** Wrapping each step of a sum is wrapping the sum. */
  lemma WrapAdd(a: int, b: int)
    ensures Wrap64(Wrap64(a) + b) == Wrap64(a + b)
    ensures Wrap64(a + Wrap64(b)) == Wrap64(a + b)
  {
    WrapQuotient(a);
    WrapQuotient(b);
    hide Wrap64;
    WrapShift(a, (a - MIN_INT64) / (MAX_UINT64 + 1), b);
    WrapShift(b, (b - MIN_INT64) / (MAX_UINT64 + 1), a);
  }

  lemma WrapQuotient(a: int)
    ensures a - Wrap64(a) == (a - MIN_INT64) / (MAX_UINT64 + 1) * (MAX_UINT64 + 1)
  {
  }

  lemma WrapShift(a: int, k: int, b: int)
    requires a - Wrap64(a) == k * (MAX_UINT64 + 1)
    ensures Wrap64(Wrap64(a) + b) == Wrap64(a + b)
  {
    var m := MAX_UINT64 + 1;
    ModShift(Wrap64(a) + b - MIN_INT64, k, m);
  }

  lemma ModShift(x: int, k: int, m: int)
    requires m > 0
    ensures (x + k * m) % m == x % m
  {
    var q := x / m;
    assert x == q * m + x % m;
    assert x + k * m == (q + k) * m + x % m;
    ModUnique(x + k * m, q + k, x % m, m);
  }

  lemma ModUnique(x: int, q: int, r: int, m: int)
    requires m > 0 && 0 <= r < m && x == q * m + r
    ensures x % m == r
  {
    var q', r' := x / m, x % m;
    assert x == q' * m + r';
    assert (q - q') * m == r' - r;
    assert q - q' >= 1 ==> (q - q') * m >= m;
    assert q - q' <= -1 ==> (q - q') * m <= -m;
  }

  // ---- What digits mean, written out ----

  /** One or more decimal digits. */
  predicate Decimal(s: string) {
    s != "" && forall i | 0 <= i < |s| :: '0' <= s[i] <= '9'
  }

  /** The number they denote. */
  function Denoted(s: string): nat
    requires forall i | 0 <= i < |s| :: '0' <= s[i] <= '9'
  {
    if s == "" then 0 else Denoted(s[..|s| - 1]) * 10 + (s[|s| - 1] as int - '0' as int)
  }

  lemma {:induction false} DenotedValue(s: string)
    requires forall i | 0 <= i < |s| :: '0' <= s[i] <= '9'
    ensures Value(s, 10) == Some(Denoted(s))
  {
    if s != "" {
      DenotedValue(s[..|s| - 1]);
    }
  }

  /** A printed number is its decimal form without leading zeros. */
  lemma {:induction false} PrintedDecimal(n: nat)
    ensures var s := Format(n, 10); Decimal(s) && Denoted(s) == n && (n > 0 ==> s[0] != '0')
    decreases n
  {
    FormatValue(n, 10);
    DenotedValue(Format(n, 10));
    if n >= 10 {
      DivSmaller(n, 10);
      PrintedDecimal(n / 10);
      FormatSnoc(n, 10);
    }
  }

  predicate IsHexDigit(c: char) {
    '0' <= c <= '9' || 'a' <= c <= 'f' || 'A' <= c <= 'F'
  }

  /** What one hexadecimal digit is worth, in either case. */
  function HexWorth(c: char): nat
    requires IsHexDigit(c)
  {
    if c <= '9' then c as int - '0' as int
    else if c <= 'F' then c as int - 'A' as int + 10
    else c as int - 'a' as int + 10
  }

  function HexDenoted(s: string): nat
    requires forall i | 0 <= i < |s| :: IsHexDigit(s[i])
  {
    if s == "" then 0 else HexDenoted(s[..|s| - 1]) * 16 + HexWorth(s[|s| - 1])
  }

  /** A text of hexadecimal digits denotes its number, and no other text does. */
  lemma {:induction false} HexValue(s: string)
    ensures Value(s, 16).Some? <==> forall i | 0 <= i < |s| :: IsHexDigit(s[i])
    ensures Value(s, 16).Some? ==> Value(s, 16).value == HexDenoted(s)
  {
    if s != "" {
      var front, last := s[..|s| - 1], s[|s| - 1];
      HexValue(front);
      assert s == front + [last];
      ValueSnoc(front, last, 16);
      hide Value;
    }
  }

  /** Integers wrap at 64 bits. */
  lemma WrapIs(n: int)
    ensures -9_223_372_036_854_775_808 <= Wrap64(n) <= 9_223_372_036_854_775_807
    ensures (n - Wrap64(n)) % 18_446_744_073_709_551_616 == 0
  {
    WrapQuotient(n);
    hide Wrap64;
    ModUnique(n - Wrap64(n), (n - MIN_INT64) / (MAX_UINT64 + 1), 0, MAX_UINT64 + 1);
  }
}
