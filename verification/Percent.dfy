/**
 Percent-encoding of a query value (rest/query.go:78-94), against sections 2.1
 and 2.3 of RFC 3986.
 */
module Percent {
  import opened Prelude
  import opened Strconv

  /** Section 2.3 of RFC 3986: letters, digits, hyphen, period, underscore and tilde. */
  predicate Unreserved(c: char) {
    'A' <= c <= 'Z' || 'a' <= c <= 'z' || '0' <= c <= '9' || c == '-' || c == '.' || c == '_' || c == '~'
  }

  function Octet(b: byte): string {
    ['%', DigitChar(b as int / 16), DigitChar(b as int % 16)]
  }

  /** url.QueryEscape on one byte: unreserved as it is, a space as a plus, the rest as %XX. */
  function EscapeByte(b: byte): string {
    var c := b as int as char;
    if Unreserved(c) then [c] else if c == ' ' then "+" else Octet(b)
  }

  function QueryEscape(v: seq<byte>): string {
    if v == [] then "" else EscapeByte(v[0]) + QueryEscape(v[1..])
  }

  /** strings.ReplaceAll(s, "+", "%20") */
  function ReplacePlus(s: string): string {
    if s == "" then "" else (if s[0] == '+' then "%20" else [s[0]]) + ReplacePlus(s[1..])
  }

  function EscapeQuery(v: seq<byte>): string {
    ReplacePlus(QueryEscape(v))
  }

  /**
   Section 2.1 of RFC 3986: the octets an encoded text stands for. Only
   unreserved characters and complete %XX triples are encoded text.
   */
  function Decode(s: string): Option<seq<byte>> {
    if s == "" then Some([])
    else if s[0] == '%' then
      if |s| < 3 || !HexDigit(s[1]) || !HexDigit(s[2]) then None
      else
        var rest := Decode(s[3..]);
        if rest.None? then None
        else Some([(DigitValue(s[1]).value * 16 + DigitValue(s[2]).value) as byte] + rest.value)
    else if Unreserved(s[0]) then
      var rest := Decode(s[1..]);
      if rest.None? then None else Some([s[0] as int as byte] + rest.value)
    else None
  }

  predicate HexDigit(c: char) {
    DigitValue(c).Some? && DigitValue(c).value < 16
  }

  lemma {:induction false} ReplacePlusConcat(a: string, b: string)
    ensures ReplacePlus(a + b) == ReplacePlus(a) + ReplacePlus(b)
  {
    if a == "" {
      assert a + b == b;
    } else {
      assert (a + b)[1..] == a[1..] + b;
      ReplacePlusConcat(a[1..], b);
    }
  }

  lemma {:induction false} NoPlus(s: string)
    requires forall i | 0 <= i < |s| :: s[i] != '+'
    ensures ReplacePlus(s) == s
  {
    if s != "" {
      NoPlus(s[1..]);
    }
  }

  /** The one substitution turns the form convention into the RFC's: a space is %20 and nothing else changes. */
  lemma EscapedByte(b: byte)
    ensures ReplacePlus(EscapeByte(b)) == if Unreserved(b as int as char) then [b as int as char] else Octet(b)
  {
    var c := b as int as char;
    if Unreserved(c) {
      NoPlus([c]);
    } else if c == ' ' {
      assert "+"[1..] == "";
      assert ReplacePlus("+") == "%20" + ReplacePlus("");
      assert b == 32;
      assert Octet(b) == ['%', DigitChar(2), DigitChar(0)] == "%20";
    } else {
      assert DigitValue('+').None?;
      NoPlus(Octet(b));
    }
  }

  lemma DecodeOctet(b: byte, rest: string)
    ensures Decode(Octet(b) + rest) == if Decode(rest).None? then None else Some([b] + Decode(rest).value)
  {
    var s := Octet(b) + rest;
    assert s[0] == '%' && s[1] == Octet(b)[1] && s[2] == Octet(b)[2] && s[3..] == rest;
    OctetDigits(b);
    hide Octet, DigitValue, Unreserved;
  }

  lemma OctetDigits(b: byte)
    ensures
      var high, low := DigitValue(Octet(b)[1]), DigitValue(Octet(b)[2]);
      high.Some? && low.Some? && high.value < 16 && low.value < 16 && high.value * 16 + low.value == b as int
  {
    assert b as int == (b as int / 16) * 16 + b as int % 16;
  }

  lemma DecodePlain(b: byte, rest: string)
    requires Unreserved(b as int as char)
    ensures Decode([b as int as char] + rest) == if Decode(rest).None? then None else Some([b] + Decode(rest).value)
  {
    var s := [b as int as char] + rest;
    assert s[1..] == rest;
  }

  /**
   Decoding an escaped value gives the value back. `Decode` refuses every text
   that is not unreserved characters and %XX triples, so this also says that the
   output uses nothing else; in particular no plus sign is left.
   */
  lemma {:induction false} EscapeRoundTrip(v: seq<byte>)
    ensures Decode(EscapeQuery(v)) == Some(v)
  {
    if v != [] {
      EscapeRoundTrip(v[1..]);
      ReplacePlusConcat(EscapeByte(v[0]), QueryEscape(v[1..]));
      EscapedByte(v[0]);
      if Unreserved(v[0] as int as char) {
        DecodePlain(v[0], EscapeQuery(v[1..]));
      } else {
        DecodeOctet(v[0], EscapeQuery(v[1..]));
      }
      assert v == [v[0]] + v[1..];
    }
  }

  /** Text that decodes holds only unreserved characters, percent signs and hexadecimal digits. */
  lemma {:induction false} DecodableAlphabet(s: string)
    requires Decode(s).Some?
    ensures forall i | 0 <= i < |s| :: s[i] == '%' || Unreserved(s[i])
  {
    if s != "" {
      if s[0] == '%' {
        DecodableAlphabet(s[3..]);
        forall i | 0 <= i < |s|
          ensures s[i] == '%' || Unreserved(s[i])
        {
          if i >= 3 { assert s[i] == s[3..][i - 3]; }
        }
      } else {
        DecodableAlphabet(s[1..]);
      }
    }
  }

  /** Two values never escape to the same text, and no escaped text carries a plus. */
  lemma EscapeInjective(v: seq<byte>, w: seq<byte>)
    ensures EscapeQuery(v) == EscapeQuery(w) <==> v == w
    ensures '+' !in EscapeQuery(v)
  {
    EscapeRoundTrip(v);
    EscapeRoundTrip(w);
    DecodableAlphabet(EscapeQuery(v));
  }

  /** What one byte becomes, written out: itself where section 2.3 of RFC 3986 reserves it for nothing, else a percent sign and two upper-case digits. */
  function Escaped(b: byte): string {
    var c, digits := b as int as char, "0123456789ABCDEF";
    if 'a' <= c <= 'z' || 'A' <= c <= 'Z' || '0' <= c <= '9' || c in {'-', '.', '_', '~'} then [c]
    else ['%', digits[b as int / 16], digits[b as int % 16]]
  }

  lemma EscapedOne(b: byte)
    ensures EscapeQuery([b]) == Escaped(b)
  {
    OneByte(b);
    EscapedByte(b);
    OctetSpelled(b);
    hide ReplacePlus, EscapeByte, QueryEscape, Octet;
  }

  lemma OneByte(b: byte)
    ensures QueryEscape([b]) == EscapeByte(b)
  {
    assert [b][1..] == [];
  }

  /** A value is escaped byte by byte. */
  lemma {:induction false} EscapeConcat(a: seq<byte>, b: seq<byte>)
    ensures EscapeQuery(a + b) == EscapeQuery(a) + EscapeQuery(b)
  {
    hide EscapeByte, ReplacePlus;
    if a == [] {
      assert a + b == b;
      EscapeNothing();
    } else {
      assert (a + b)[1..] == a[1..] + b;
      EscapeConcat(a[1..], b);
      ReplacePlusConcat(EscapeByte(a[0]), QueryEscape(a[1..] + b));
      ReplacePlusConcat(EscapeByte(a[0]), QueryEscape(a[1..]));
    }
  }

  lemma EscapeNothing()
    ensures EscapeQuery([]) == ""
  {
  }

  lemma OctetSpelled(b: byte)
    ensures Octet(b) == ['%', "0123456789ABCDEF"[b as int / 16], "0123456789ABCDEF"[b as int % 16]]
  {
    DigitSpelled(b as int / 16);
    DigitSpelled(b as int % 16);
  }

  lemma DigitSpelled(d: nat)
    requires d < 16
    ensures DigitChar(d) == "0123456789ABCDEF"[d]
  {
  }
}
