/** Byte strings as hexadecimal text. */
module Hex {
  import opened Numerals
  import opened Bytes

  const HEXMAP: string := "0123456789abcdef"

  /** The value of a hexadecimal digit of either case, or -1. */
  function DigitValue(c: char): (r: int)
    ensures -1 <= r < 16
  {
    if '0' <= c <= '9' then c as int - '0' as int
    else if 'a' <= c <= 'f' then c as int - 'a' as int + 10
    else if 'A' <= c <= 'F' then c as int - 'A' as int + 10
    else -1
  }

  predicate IsSpace(c: char) { c == ' ' || '\t' <= c <= '\r' }

  function Text(b: bytes): (s: string)
    ensures |s| == 2 * |b|
  {
    if b == [] then "" else [HEXMAP[b[0] / 16], HEXMAP[b[0] % 16]] + Text(b[1..])
  }

  /** The bytes of a text: pairs of digits, with space before a pair skipped, up to
      the first thing that is neither. */
  function Parsed(s: string): bytes {
    if s == "" then []
    else if IsSpace(s[0]) then Parsed(s[1..])
    else if |s| < 2 || DigitValue(s[0]) < 0 || DigitValue(s[1]) < 0 then []
    else [DigitValue(s[0]) * 16 + DigitValue(s[1])] + Parsed(s[2..])
  }

  lemma MapInverse(d: nat)
    requires d < 16
    ensures DigitValue(HEXMAP[d]) == d && !IsSpace(HEXMAP[d])
  {
  }

  /** Text and bytes are inverse, whatever follows that is neither digit nor space. */
  lemma {:induction false} ParsedText(b: bytes, rest: string)
    requires rest == "" || (!IsSpace(rest[0]) && DigitValue(rest[0]) < 0)
    ensures Parsed(Text(b) + rest) == b
  {
    hide DigitValue, IsSpace;
    if b == [] {
      assert Text(b) + rest == rest;
    } else {
      ParsedText(b[1..], rest);
      ParsedPair(b[0], Text(b[1..]) + rest);
      assert Text(b) + rest == [HEXMAP[b[0] / 16], HEXMAP[b[0] % 16]] + (Text(b[1..]) + rest);
      hide Text, Parsed;
      assert b == [b[0]] + b[1..];
    }
  }

  lemma ParsedPair(d: byte, rest: string)
    ensures Parsed([HEXMAP[d / 16], HEXMAP[d % 16]] + rest) == [d] + Parsed(rest)
  {
    hide DigitValue, IsSpace;
    MapInverse(d / 16);
    MapInverse(d % 16);
    assert ([HEXMAP[d / 16], HEXMAP[d % 16]] + rest)[2..] == rest;
  }

  lemma TextStep(b: bytes, k: nat)
    requires k <= |b|
    ensures Text(b[k..]) == if k == |b| then "" else [HEXMAP[b[k] / 16]] + [HEXMAP[b[k] % 16]] + Text(b[k + 1..])
  {
    if k < |b| { assert b[k..][1..] == b[k + 1..]; }
  }

  method HexStr(vch: bytes) returns (rv: string)
    ensures rv == Text(vch)
  {
    hide Text;
    rv := "";
    for k := 0 to |vch|
      invariant rv + Text(vch[k..]) == Text(vch)
    {
      TextStep(vch, k);
      rv := rv + [HEXMAP[vch[k] / 16]];
      rv := rv + [HEXMAP[vch[k] % 16]];
    }
    TextStep(vch, |vch|);
  }

  method ParseHex(s: string) returns (vch: bytes)
    ensures vch == Parsed(s)
  {
    hide Parsed, DigitValue, IsSpace;
    vch := [];
    var p := 0;
    while true
      invariant p <= |s|
      invariant vch + Parsed(s[p..]) == Parsed(s)
      decreases |s| - p
    {
      while p < |s| && IsSpace(s[p])
        invariant p <= |s|
        invariant vch + Parsed(s[p..]) == Parsed(s)
      {
        ParsedStep(s, p);
        p := p + 1;
      }
      ParsedStep(s, p);
      if p == |s| || DigitValue(s[p]) < 0 { break; }
      var n := DigitValue(s[p]) * 16;
      if p + 1 == |s| || DigitValue(s[p + 1]) < 0 { break; }
      n := n + DigitValue(s[p + 1]);
      ghost var rest := Parsed(s[p + 2..]);
      assert vch + ([n as byte] + rest) == vch + [n as byte] + rest;
      vch := vch + [n];
      p := p + 2;
    }
  }

  lemma ParsedStep(s: string, p: nat)
    requires p <= |s|
    ensures p < |s| && IsSpace(s[p]) ==> Parsed(s[p..]) == Parsed(s[p + 1..])
    ensures (p == |s| || !IsSpace(s[p])) && (p + 1 >= |s| || DigitValue(s[p]) < 0 || DigitValue(s[p + 1]) < 0)
      ==> Parsed(s[p..]) == []
    ensures p + 1 < |s| && !IsSpace(s[p]) && DigitValue(s[p]) >= 0 && DigitValue(s[p + 1]) >= 0
      ==> Parsed(s[p..]) == [DigitValue(s[p]) * 16 + DigitValue(s[p + 1])] + Parsed(s[p + 2..])
  {
    hide DigitValue, IsSpace;
    var t := s[p..];
    assert p + 1 <= |s| ==> t[1..] == s[p + 1..];
    assert p + 2 <= |s| ==> t[2..] == s[p + 2..];
  }

  /** strtol with base 16, of a text that starts with a digit and not with "0x". */
  function StrTol(s: string, value: nat): nat {
    if s == "" || DigitValue(s[0]) < 0 then value else StrTol(s[1..], value * 16 + DigitValue(s[0]))
  }

  /** The conversion to network byte order, on a little-endian host. */
  function HtoNL(n: nat): nat
    requires n < 0x1_0000_0000
  {
    FromLE(Reversed(LE(n, 4)))
  }

  lemma StrTolStep(s: string, value: nat)
    requires s != "" && DigitValue(s[0]) >= 0
    ensures StrTol(s, value) == StrTol(s[1..], value * 16 + DigitValue(s[0]))
  {
  }

  lemma TextHead(b: bytes)
    requires b != []
    ensures |Text(b)| >= 2 && Text(b)[1..][1..] == Text(b[1..])
    ensures DigitValue(Text(b)[0]) == b[0] / 16 && DigitValue(Text(b)[1]) == b[0] % 16
  {
    MapInverse(b[0] / 16);
    MapInverse(b[0] % 16);
    hide DigitValue;
  }

  lemma StrTolByte(b: bytes, value: nat)
    requires b != []
    ensures StrTol(Text(b), value) == StrTol(Text(b[1..]), value * 256 + b[0])
  {
    hide StrTol, Text, DigitValue;
    TextHead(b);
    var s, value1 := Text(b), value * 16 + b[0] / 16;
    StrTolStep(s, value);
    StrTolStep(s[1..], value1);
    assert value1 * 16 + b[0] % 16 == value * 256 + b[0];
  }

  /** The big-endian number of four bytes. */
  function FromBE(b: seq<nat>): nat
    requires |b| == 4
  {
    ((b[0] * 256 + b[1]) * 256 + b[2]) * 256 + b[3]
  }

  lemma BigEndian(b: bytes)
    requires |b| == 4
    ensures StrTol(Text(b), 0) == FromBE(b)
  {
    hide StrTol, Text;
    var b1, b2, b3 := b[1..], b[2..], b[3..];
    assert b1[1..] == b2 && b2[1..] == b3 && b3[1..] == [];
    assert b1[0] == b[1] && b2[0] == b[2] && b3[0] == b[3];
    var v1: nat := b[0];
    var v2: nat := v1 * 256 + b[1];
    var v3: nat := v2 * 256 + b[2];
    var v4: nat := v3 * 256 + b[3];
    StrTolByte(b, 0);
    assert StrTol(Text(b), 0) == StrTol(Text(b1), v1);
    StrTolByte(b1, v1);
    StrTolByte(b2, v2);
    StrTolByte(b3, v3);
    StrTolEnd(v4);
  }

  lemma StrTolEnd(n: nat)
    ensures StrTol(Text([]), n) == n
  {
  }

  lemma FromReversed(b: bytes)
    requires |b| == 4
    ensures FromBE(b) == FromLE(Reversed(b)) < 0x1_0000_0000
  {
    hide Val, LE;
    var r: bytes := [b[3], b[2], b[1], b[0]];
    assert Reversed(b) == r;
    Four(r);
    LEFromLE(r);
    Pow256(4);
  }

  /** Four bytes as text, read as a number, in network byte order: the little-endian
      number that they are. */
  lemma TextToNumber(b: bytes)
    requires |b| == 4
    ensures StrTol(Text(b), 0) < 0x1_0000_0000
    ensures HtoNL(StrTol(Text(b), 0)) == FromLE(b)
  {
    hide StrTol, Text, FromLE, FromBE, LE, Reversed;
    BigEndian(b);
    FromReversed(b);
    var n := StrTol(Text(b), 0);
    LEFromLE(Reversed(b));
    assert LE(n, 4) == Reversed(b);
    ReversedLaws(b, []);
  }
}
