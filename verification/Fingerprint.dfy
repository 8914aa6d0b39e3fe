/**
 The stream that is hashed into a connection fingerprint
 (native/internal/connection/providerconfig.go:239-250): each part behind its
 length as eight big-endian bytes. The hash itself is taken to be injective.
 */
module Fingerprint {
  import opened Prelude

  /** A number as `n` big-endian bytes, what does not fit cut off. */
  function BigEndian(v: nat, n: nat): (out: seq<byte>)
    ensures |out| == n
  {
    if n == 0 then [] else BigEndian(v / 256, n - 1) + [(v % 256) as byte]
  }

  /** Most significant byte first: one more low byte is one more byte at the end. */
  lemma LowByteLast(high: nat, low: byte, n: nat)
    ensures BigEndian(high * 256 + low as int, n + 1) == BigEndian(high, n) + [low]
  {
    assert (high * 256 + low as int) / 256 == high && (high * 256 + low as int) % 256 == low as int;
  }

  function Pow256(n: nat): nat {
    if n == 0 then 1 else 256 * Pow256(n - 1)
  }

  function FromBigEndian(s: seq<byte>): nat {
    if s == [] then 0 else FromBigEndian(s[..|s| - 1]) * 256 + s[|s| - 1] as int
  }

  function Stream(parts: seq<seq<byte>>): seq<byte> {
    if parts == [] then [] else BigEndian(|parts[0]|, 8) + parts[0] + Stream(parts[1..])
  }

  /** The loop of fingerprintConnection, writing into `hash`. */
  method WriteParts(parts: seq<seq<byte>>) returns (hash: seq<byte>)
    ensures hash == Stream(parts)
  {
    hash := [];
    for i := 0 to |parts|
      invariant hash + Stream(parts[i..]) == Stream(parts)
    {
      var size := BigEndian(|parts[i]|, 8);
      assert parts[i..][0] == parts[i] && parts[i..][1..] == parts[i + 1..];
      assert hash + (size + parts[i] + Stream(parts[i + 1..])) == hash + size + parts[i] + Stream(parts[i + 1..]);
      hash := hash + size;
      hash := hash + parts[i];
    }
    assert parts[|parts|..] == [];
  }

  lemma {:induction false} BigEndianReads(v: nat, n: nat)
    requires v < Pow256(n)
    ensures FromBigEndian(BigEndian(v, n)) == v
  {
    if n > 0 {
      BigEndianReads(v / 256, n - 1);
      assert BigEndian(v, n)[..n - 1] == BigEndian(v / 256, n - 1);
    }
  }

  /** A part as long as memory can hold: its length fits in 64 bits. */
  predicate Writable(parts: seq<seq<byte>>) {
    forall i | 0 <= i < |parts| :: |parts[i]| < 0x1_0000_0000_0000_0000
  }

  lemma Pow8()
    ensures Pow256(8) == 0x1_0000_0000_0000_0000
  {
    assert Pow256(4) == 0x1_0000_0000;
    assert Pow256(6) == 256 * Pow256(5) == 256 * 256 * Pow256(4);
    assert Pow256(8) == 256 * Pow256(7) == 256 * 256 * Pow256(6);
  }

  /** The first part can be told from the stream. */
  lemma HeadReads(parts: seq<seq<byte>>)
    requires parts != [] && Writable(parts)
    ensures
      var s := Stream(parts);
      && |s| >= 8 && FromBigEndian(s[..8]) == |parts[0]| && |s| >= 8 + |parts[0]|
      && s[8..8 + |parts[0]|] == parts[0] && s[8 + |parts[0]|..] == Stream(parts[1..])
  {
    Pow8();
    BigEndianReads(|parts[0]|, 8);
    var size, s := BigEndian(|parts[0]|, 8), Stream(parts);
    assert s == size + parts[0] + Stream(parts[1..]);
    assert s[..8] == size;
  }

  /** Different lists of parts never make the same stream, whatever the parts contain. */
  lemma {:induction false} StreamInjective(a: seq<seq<byte>>, b: seq<seq<byte>>)
    requires Writable(a) && Writable(b) && Stream(a) == Stream(b)
    ensures a == b
  {
    hide Stream, FromBigEndian;
    if a != [] && b != [] {
      HeadReads(a);
      HeadReads(b);
      StreamInjective(a[1..], b[1..]);
      assert a == [a[0]] + a[1..] && b == [b[0]] + b[1..];
    } else if a != [] {
      HeadReads(a);
      StreamEmpty(b);
    } else if b != [] {
      HeadReads(b);
      StreamEmpty(a);
    }
  }

  lemma StreamEmpty(parts: seq<seq<byte>>)
    requires parts == []
    ensures Stream(parts) == []
  {
  }
}
