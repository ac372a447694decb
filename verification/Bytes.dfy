/** Byte strings. */
module Bytes {
  import opened Numerals

  type byte = b: nat | b < 256

  type bytes = seq<byte>

  function Reversed<T>(s: seq<T>): (r: seq<T>)
    ensures |r| == |s| && forall k :: 0 <= k < |s| ==> r[k] == s[|s| - 1 - k]
  {
    seq(|s|, k requires 0 <= k < |s| => s[|s| - 1 - k])
  }

  lemma ReversedLaws<T>(a: seq<T>, b: seq<T>)
    ensures Reversed(Reversed(a)) == a
    ensures Reversed(a + b) == Reversed(b) + Reversed(a)
  {
  }

  /** The little-endian bytes of a number, as memcpy of an unsigned integer gives them. */
  function LE(n: nat, len: nat): (r: bytes)
    ensures |r| == len
  {
    Fixed(256, n, len)
  }

  function FromLE(b: bytes): nat {
    Val(256, b)
  }

  lemma LEFromLE(b: bytes)
    ensures LE(FromLE(b), |b|) == b
    ensures FromLE(b) < Pow(256, |b|)
  {
    FixedVal(256, b);
  }

  lemma FromLELE(n: nat, len: nat)
    requires n < Pow(256, len)
    ensures FromLE(LE(n, len)) == n
  {
    ValFixed(256, n, len);
  }

  lemma Pow256(len: nat)
    ensures Pow(256, 1) == 0x100 && Pow(256, 2) == 0x1_0000
    ensures Pow(256, 4) == 0x1_0000_0000 && Pow(256, 8) == 0x1_0000_0000_0000_0000
  {
    PowAdd(256, 4, 4);
  }

  /** Four digits, least significant first. */
  lemma Four(b: seq<nat>)
    requires |b| == 4
    ensures Val(256, b) == b[0] + 0x100 * b[1] + 0x1_0000 * b[2] + 0x100_0000 * b[3]
  {
    assert b[1..][1..] == b[2..] && b[2..][1..] == b[3..] && b[3..][1..] == [];
    calc {
      Val(256, b);
      b[0] + 256 * Val(256, b[1..]);
      b[0] + 256 * (b[1] + 256 * Val(256, b[2..]));
      b[0] + 256 * (b[1] + 256 * (b[2] + 256 * Val(256, b[3..])));
      b[0] + 256 * (b[1] + 256 * (b[2] + 256 * b[3]));
    }
  }

  lemma FourBytes(n: nat)
    requires n < 0x1_0000_0000
    ensures LE(n, 4) == [n % 0x100, n / 0x100 % 0x100, n / 0x1_0000 % 0x100, n / 0x100_0000 % 0x100]
    ensures FromLE(LE(n, 4)) == n
  {
    Pow256(4);
    FromLELE(n, 4);
    assert n / 0x100 / 0x100 == n / 0x1_0000 && n / 0x1_0000 / 0x100 == n / 0x100_0000;
    assert Fixed(256, n / 0x100_0000, 1) == [n / 0x100_0000 % 0x100];
    assert Fixed(256, n / 0x1_0000, 2) == [n / 0x1_0000 % 0x100] + Fixed(256, n / 0x100_0000, 1);
  }
}
