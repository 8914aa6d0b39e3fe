/**
 Integers, row identifiers and flags as RouterOS writes them
 (rest/scalar/scalar.go:62-160, routeros/parse.go:17-39 and 99-122,
 rest/record.go).
 */
module Scalars {
  import opened Prelude
  import opened Strconv
  import Intervals
  import Records

  /** scalar.split: the digits with their sign, and the base the prefix asks for. */
  function Split(s: string): (string, nat) {
    var neg := s != "" && s[0] == '-';
    var body := if neg then s[1..] else s;
    var hex := |body| > 2 && body[0] == '0' && (body[1] == 'x' || body[1] == 'X');
    var digits := if hex then body[2..] else body;
    (if neg then "-" + digits else digits, if hex then 16 else 10)
  }

  /** scalar.Int */
  function Int(s: string): (r: Option<int>)
    ensures r.Some? ==> IsInt64(r.value)
  {
    if s == "" then Some(0) else var (digits, base) := Split(s); ParseInt(digits, base)
  }

  /** scalar.Uint */
  function Uint(s: string): (r: Option<nat>)
    ensures r.Some? ==> r.value <= MAX_UINT64
  {
    if s == "" then Some(0) else var (digits, base) := Split(s); ParseUint(digits, base, MAX_UINT64)
  }

  /** routeros.parseInt, which reads the prefix for itself and gives zero for an error. */
  method ParseIntField(s: string) returns (n: int)
    ensures n == (if Int(s).None? then 0 else Int(s).value)
  {
    if s == "" {
      return 0;
    }
    var digits, base := s, 10;
    var neg := digits[0] == '-';
    if neg {
      digits := digits[1..];
    }
    if |digits| > 2 && digits[0] == '0' && (digits[1] == 'x' || digits[1] == 'X') {
      digits, base := digits[2..], 16;
    }
    if neg {
      digits := "-" + digits;
    }
    var r := ParseInt(digits, base);
    n := if r.None? then 0 else r.value;
  }

  /** scalar.ID */
  function ID(s: string): (r: Option<nat>)
    ensures r.Some? ==> r.value <= MAX_UINT32
  {
    if s == "" || s[0] != '*' then None else ParseUint(s[1..], 16, MAX_UINT32)
  }

  /** scalar.IsID */
  predicate IsID(s: string) {
    if s == "" || s[0] != '*' || |s| < 2 then false else ParseUint(s[1..], 16, MAX_UINT32).Some?
  }

  function FormatID(n: nat): string {
    "*" + Format(n, 16)
  }

  /** Simple case folding onto a lower-case ASCII letter; the long s folds onto s. */
  function Lower(c: char): char {
    if 'A' <= c <= 'Z' then (c as int - 'A' as int + 'a' as int) as char
    else if c == '\U{017F}' then 's'
    else c
  }

  /** strings.EqualFold against a lower-case ASCII word. */
  predicate EqualFold(s: string, word: string) {
    |s| == |word| && forall i | 0 <= i < |s| :: Lower(s[i]) == word[i]
  }

  /** scalar.Bool: present but empty is a set flag. */
  predicate Bool(v: string) {
    v == "" || EqualFold(v, "true") || EqualFold(v, "yes")
  }

  function FormatBool(b: bool): string {
    if b then "true" else "false"
  }

  /** Record.Bool: a flag that is absent is unset. */
  predicate BoolField(r: Records.Record, key: string) {
    key in r && Bool(r[key])
  }

  /** Record.Duration and Record.Int: absent or unreadable is zero. */
  function DurationField(r: Records.Record, key: string): int {
    Intervals.Read(if key in r then r[key] else "")
  }

  function IntField(r: Records.Record, key: string): int {
    var v := Int(if key in r then r[key] else "");
    if v.None? then 0 else v.value
  }

  /** A row read field by field gives back what was written into it; a field that is absent is unset or zero. */
  lemma FieldRoundTrip(r: Records.Record, key: string, b: bool, d: int, n: int)
    requires 0 <= d <= 9_223_372_036_854_775_807 && -9_223_372_036_854_775_808 <= n <= 9_223_372_036_854_775_807
    ensures BoolField(r[key := FormatBool(b)], key) == b
    ensures DurationField(r[key := Intervals.FormatDuration(d)], key) == d - d % 1_000_000
    ensures IntField(r[key := FormatInt(n)], key) == n
    ensures key !in r ==> !BoolField(r, key) && DurationField(r, key) == 0 && IntField(r, key) == 0
  {
    BoolRoundTrip(b);
    Intervals.DurationRoundTrip(d);
    Intervals.IntervalEmpty();
    IntRoundTrip(n);
    hide Intervals.FormatDuration, Intervals.Interval, FormatInt, Split, ParseInt;
    NoInt();
  }

  lemma NoInt()
    ensures Int("") == Some(0)
  {
  }

  // ---- Round trips ----

  lemma DecimalNotHex(n: nat)
    ensures var s := Format(n, 10); s[0] != '-' && s[0] != '+' && (|s| > 2 ==> s[1] != 'x' && s[1] != 'X')
  {
    var s := Format(n, 10);
    assert IsDigit(s[0]) && (|s| > 2 ==> IsDigit(s[1]));
  }

  /** Every int64 survives printing and reading, the minimum included. */
  lemma IntRoundTrip(n: int)
    requires -9_223_372_036_854_775_808 <= n <= 9_223_372_036_854_775_807
    ensures Int(FormatInt(n)) == Some(n)
  {
    var m := if n < 0 then -n else n;
    var digits := Format(m, 10);
    hide Format, Value;
    DecimalNotHex(m);
    ParseFormat(m, 10, MAX_UINT64);
    if n < 0 {
      assert ("-" + digits)[1..] == digits;
      assert Split(FormatInt(n)) == ("-" + digits, 10);
    } else {
      assert Split(FormatInt(n)) == (digits, 10);
    }
  }

  /** A number past int64 is refused rather than wrapped. */
  lemma IntOutOfRange(n: int)
    requires n < -9_223_372_036_854_775_808 || n > 9_223_372_036_854_775_807
    ensures Int(FormatInt(n)).None?
  {
    var m := if n < 0 then -n else n;
    var digits := Format(m, 10);
    hide Format, Value;
    DecimalNotHex(m);
    ParseFormat(m, 10, MAX_UINT64);
    if n < 0 {
      assert ("-" + digits)[1..] == digits;
      assert Split(FormatInt(n)) == ("-" + digits, 10);
    } else {
      assert Split(FormatInt(n)) == (digits, 10);
    }
  }

  function Negative(n: int): Option<int> { Some(-n) }

  /** The hexadecimal form is the same number, whatever the case of its mark. */
  lemma HexRead(n: nat, mark: char)
    requires n <= 18_446_744_073_709_551_615 && (mark == 'x' || mark == 'X')
    ensures Uint(['0', mark] + Format(n, 16)) == Some(n)
    ensures n <= 9_223_372_036_854_775_807 ==> Int(['0', mark] + Format(n, 16)) == Some(n)
    ensures n <= 9_223_372_036_854_775_808 ==> Int(['-', '0', mark] + Format(n, 16)) == Negative(n)
  {
    hide Format, Value, ParseInt, ParseUint;
    var digits := Format(n, 16);
    var s := ['0', mark] + digits;
    var minus := ['-', '0', mark] + digits;
    assert s[2..] == digits && Split(s) == (digits, 16);
    assert minus[1..] == s && Split(minus) == ("-" + digits, 16);
    HexParses(n);
  }

  lemma HexParses(n: nat)
    requires n <= 18_446_744_073_709_551_615
    ensures ParseUint(Format(n, 16), 16, MAX_UINT64) == Some(n)
    ensures n <= 9_223_372_036_854_775_807 ==> ParseInt(Format(n, 16), 16) == Some(n)
    ensures n <= 9_223_372_036_854_775_808 ==> ParseInt("-" + Format(n, 16), 16) == Negative(n)
  {
    hide Format, Value;
    var digits := Format(n, 16);
    ParseFormat(n, 16, MAX_UINT64);
    HexDigits(n);
    assert ("-" + digits)[1..] == digits;
  }

  lemma {:induction false} HexDigits(n: nat)
    ensures var s := Format(n, 16); forall i | 0 <= i < |s| :: s[i] != '-' && s[i] != '+'
    decreases n
  {
    assert DigitValue('-').None? && DigitValue('+').None?;
    if n >= 16 {
      HexDigits(n / 16);
      assert Format(n, 16) == Format(n / 16, 16) + [DigitChar(n % 16)];
    } else {
      assert Format(n, 16) == [DigitChar(n)];
    }
  }

  /** Every 32-bit row identifier survives printing and reading. */
  lemma IDRoundTrip(n: nat)
    ensures ID(FormatID(n)) == if n <= 4_294_967_295 then Some(n) else None
  {
    assert FormatID(n)[1..] == Format(n, 16);
    ParseFormat(n, 16, MAX_UINT32);
  }

  /** What looks like an identifier is exactly what reads as one. */
  lemma IsIDExact(s: string)
    ensures IsID(s) <==> ID(s).Some?
  {
    if s != "" && |s| < 2 {
      assert s[1..] == "";
    }
  }

  /** Every text of decimal digits is read as the number it denotes, zeros in front and all, or refused as too large. */
  lemma DecimalRead(s: string)
    requires Decimal(s)
    ensures Uint(s) == if Denoted(s) <= 18_446_744_073_709_551_615 then Some(Denoted(s)) else None
    ensures Int(s) == if Denoted(s) <= 9_223_372_036_854_775_807 then Some(Denoted(s)) else None
    ensures Int("+" + s) == Int(s)
    ensures Int("-" + s) == if Denoted(s) <= 9_223_372_036_854_775_808 then Negative(Denoted(s)) else None
  {
    DecimalSplit(s);
    DecimalParse(s);
    hide Split, ParseInt, ParseUint, Denoted;
  }

  lemma DecimalSplit(s: string)
    requires Decimal(s)
    ensures Split(s) == (s, 10) && Split("+" + s) == ("+" + s, 10) && Split("-" + s) == ("-" + s, 10)
  {
    assert |s| > 1 ==> '0' <= s[1] <= '9';
    assert ("-" + s)[1..] == s;
  }

  lemma DecimalParse(s: string)
    requires Decimal(s)
    ensures ParseUint(s, 10, MAX_UINT64) == if Denoted(s) <= 18_446_744_073_709_551_615 then Some(Denoted(s)) else None
    ensures ParseInt(s, 10) == if Denoted(s) <= 9_223_372_036_854_775_807 then Some(Denoted(s)) else None
    ensures ParseInt("+" + s, 10) == ParseInt(s, 10)
    ensures ParseInt("-" + s, 10) == if Denoted(s) <= 9_223_372_036_854_775_808 then Negative(Denoted(s)) else None
  {
    DenotedValue(s);
    hide Value, Denoted;
    assert ("+" + s)[1..] == s && ("-" + s)[1..] == s;
  }

  /** The empty text is zero; a sign or a mark alone is no number. */
  lemma NotNumbers()
    ensures Uint("") == Some(0) && Int("") == Some(0)
    ensures Int("-").None? && Int("+").None? && Int("0x").None? && Uint("0x").None? && Uint("-").None?
  {
    assert Value("0x"[..1], 10) == Some(0) && DigitValue('x').value >= 10;
    assert "-"[1..] == "" && "+"[1..] == "";
    assert "-" + "" == "-";
  }

  /** An identifier is an asterisk and hexadecimal digits denoting a 32-bit number, and reads as that number. */
  lemma IDExactly(s: string)
    ensures IsID(s) <==>
      |s| >= 2 && s[0] == '*' && (forall i | 0 <= i < |s[1..]| :: IsHexDigit(s[1..][i])) && HexDenoted(s[1..]) <= 4_294_967_295
    ensures IsID(s) ==> ID(s) == Some(HexDenoted(s[1..]))
  {
    if s != "" {
      HexValue(s[1..]);
    }
  }

  /** Only these texts are set flags: the empty one, and true and yes in any mixture of cases. */
  lemma BoolExactly(v: string)
    ensures Bool(v) <==>
      || v == ""
      || (|v| == 4 && v[0] in {'t', 'T'} && v[1] in {'r', 'R'} && v[2] in {'u', 'U'} && v[3] in {'e', 'E'})
      || (|v| == 3 && v[0] in {'y', 'Y'} && v[1] in {'e', 'E'} && v[2] in {'s', 'S', '\U{017F}'})
  {
    FoldsTo();
    hide Lower;
    assert |"true"| == 4 && |"yes"| == 3;
    assert "true"[0] == 't' && "true"[1] == 'r' && "true"[2] == 'u' && "true"[3] == 'e';
    assert "yes"[0] == 'y' && "yes"[1] == 'e' && "yes"[2] == 's';
  }

  lemma FoldsTo()
    ensures forall c :: (Lower(c) == 't' <==> c in {'t', 'T'}) && (Lower(c) == 'r' <==> c in {'r', 'R'})
    ensures forall c :: (Lower(c) == 'u' <==> c in {'u', 'U'}) && (Lower(c) == 'e' <==> c in {'e', 'E'})
    ensures forall c :: (Lower(c) == 'y' <==> c in {'y', 'Y'}) && (Lower(c) == 's' <==> c in {'s', 'S', '\U{017F}'})
  {
  }

  lemma BoolRoundTrip(b: bool)
    ensures Bool(FormatBool(b)) == b
  {
    assert |FormatBool(false)| == 5;
  }
}
