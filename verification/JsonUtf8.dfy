/** The UTF-8 that code point escapes become, against the encoding of RFC 3629. */
module JsonUtf8 {
  import G = JsonGrammar

  /** A Unicode scalar value: a code point that is not a surrogate. */
  predicate IsScalar(cp: nat) { cp <= 0x10ffff && !(0xd800 <= cp <= 0xdfff) }

  function ByteAt(s: string, k: nat): int
    requires k < |s|
  {
    s[k] as int
  }

  predicate IsContinuation(s: string, k: nat) { k < |s| && 0x80 <= ByteAt(s, k) < 0xc0 }

  /** The code point that a text starts with and the bytes it takes, if the text starts
      with well-formed UTF-8: in the shortest form, and no surrogate. */
  function Decoded(s: string): G.Option<(nat, nat)> {
    if s == "" then G.None
    else
      var b := ByteAt(s, 0);
      if b < 0x80 then G.Some((b, 1))
      else if 0xc0 <= b < 0xe0 && IsContinuation(s, 1) then
        Checked(b % 0x20 * 0x40 + ByteAt(s, 1) % 0x40, 0x80, 2)
      else if 0xe0 <= b < 0xf0 && IsContinuation(s, 1) && IsContinuation(s, 2) then
        Checked(b % 0x10 * 0x1000 + ByteAt(s, 1) % 0x40 * 0x40 + ByteAt(s, 2) % 0x40, 0x800, 3)
      else if 0xf0 <= b < 0xf8 && IsContinuation(s, 1) && IsContinuation(s, 2) && IsContinuation(s, 3) then
        Checked(b % 8 * 0x40000 + ByteAt(s, 1) % 0x40 * 0x1000 + ByteAt(s, 2) % 0x40 * 0x40 + ByteAt(s, 3) % 0x40, 0x10000, 4)
      else G.None
  }

  function Checked(cp: nat, least: nat, len: nat): G.Option<(nat, nat)> {
    if cp < least || !IsScalar(cp) then G.None else G.Some((cp, len))
  }

  lemma DecodesTwo(s: string, a: nat, b: nat)
    requires |s| >= 2 && a < 0x20 && b < 0x40 && ByteAt(s, 0) == 0xc0 + a && ByteAt(s, 1) == 0x80 + b
    ensures Decoded(s) == Checked(a * 0x40 + b, 0x80, 2)
  {
    hide Checked;
  }

  lemma DecodesThree(s: string, a: nat, b: nat, c: nat)
    requires |s| >= 3 && a < 0x10 && b < 0x40 && c < 0x40
    requires ByteAt(s, 0) == 0xe0 + a && ByteAt(s, 1) == 0x80 + b && ByteAt(s, 2) == 0x80 + c
    ensures Decoded(s) == Checked(a * 0x1000 + b * 0x40 + c, 0x800, 3)
  {
    hide Checked;
  }

  lemma DecodesFour(s: string, a: nat, b: nat, c: nat, d: nat)
    requires |s| >= 4 && a < 8 && b < 0x40 && c < 0x40 && d < 0x40
    requires ByteAt(s, 0) == 0xf0 + a && ByteAt(s, 1) == 0x80 + b && ByteAt(s, 2) == 0x80 + c && ByteAt(s, 3) == 0x80 + d
    ensures Decoded(s) == Checked(a * 0x40000 + b * 0x1000 + c * 0x40 + d, 0x10000, 4)
  {
    hide Checked;
  }

  lemma DecodesSomething(s: string)
    ensures Decoded(s).Some? ==> Decoded(s).value.1 >= 1
  {
  }

  lemma RoundTripTwo(cp: nat, rest: string)
    requires 0x7f < cp <= 0x7ff
    ensures Decoded(G.CodePointToUTF8(cp) + rest) == Checked(cp, 0x80, 2)
  {
    hide Decoded, Checked;
    DecodesTwo(G.CodePointToUTF8(cp) + rest, cp / 0x40, cp % 0x40);
  }

  lemma RoundTripThree(cp: nat, rest: string)
    requires 0x7ff < cp <= 0xffff
    ensures Decoded(G.CodePointToUTF8(cp) + rest) == Checked(cp, 0x800, 3)
  {
    hide Decoded, Checked;
    Three(cp);
    DecodesThree(G.CodePointToUTF8(cp) + rest, cp / 0x1000, cp / 0x40 % 0x40, cp % 0x40);
  }

  lemma RoundTripFour(cp: nat, rest: string)
    requires 0xffff < cp <= 0x10ffff
    ensures Decoded(G.CodePointToUTF8(cp) + rest) == Checked(cp, 0x10000, 4)
  {
    hide Decoded, Checked;
    Four(cp);
    DecodesFour(G.CodePointToUTF8(cp) + rest, cp / 0x40000, cp / 0x1000 % 0x40, cp / 0x40 % 0x40, cp % 0x40);
  }

  lemma RoundTripOne(cp: nat, rest: string)
    requires cp <= 0x7f
    ensures Decoded(G.CodePointToUTF8(cp) + rest) == G.Some((cp, 1))
  {
    assert ByteAt(G.CodePointToUTF8(cp) + rest, 0) == cp;
  }

  lemma EncodedLength(cp: nat)
    ensures |G.CodePointToUTF8(cp)|
      == if cp <= 0x7f then 1 else if cp <= 0x7ff then 2 else if cp <= 0xffff then 3 else if cp <= 0x10ffff then 4 else 0
  {
  }

  /** The bytes for a code point are well-formed UTF-8 for it exactly when it is a scalar
      value: a surrogate that is not part of a pair becomes bytes that are no UTF-8. */
  lemma CodePointRoundTrip(cp: nat, rest: string)
    ensures Decoded(G.CodePointToUTF8(cp) + rest) == G.Some((cp, |G.CodePointToUTF8(cp)|)) <==> IsScalar(cp)
  {
    hide Decoded, G.CodePointToUTF8;
    EncodedLength(cp);
    if cp <= 0x7f {
      RoundTripOne(cp, rest);
    } else if cp <= 0x7ff {
      RoundTripTwo(cp, rest);
    } else if cp <= 0xffff {
      RoundTripThree(cp, rest);
    } else if cp <= 0x10ffff {
      RoundTripFour(cp, rest);
    } else {
      DecodesSomething(G.CodePointToUTF8(cp) + rest);
    }
  }

  lemma Three(cp: nat)
    requires cp <= 0xffff
    ensures cp / 0x1000 < 0x10 && cp / 0x1000 * 0x1000 + cp / 0x40 % 0x40 * 0x40 + cp % 0x40 == cp
  {
  }

  lemma Four(cp: nat)
    requires cp <= 0x10ffff
    ensures cp / 0x40000 < 8
    ensures cp / 0x40000 * 0x40000 + cp / 0x1000 % 0x40 * 0x1000 + cp / 0x40 % 0x40 * 0x40 + cp % 0x40 == cp
  {
    var a := cp / 0x40;
    var b := a / 0x40;
    assert cp / 0x1000 == b && cp / 0x40000 == b / 0x40;
    assert cp == a * 0x40 + cp % 0x40 && a == b * 0x40 + a % 0x40 && b == b / 0x40 * 0x40 + b % 0x40;
  }

  /** The scalar value of a surrogate pair. */
  function PairValue(high: nat, low: nat): nat
    requires 0xd800 <= high <= 0xdbff && 0xdc00 <= low <= 0xdfff
  {
    0x10000 + (high - 0xd800) * 0x400 + (low - 0xdc00)
  }

  /** Two escapes of which the first is a high surrogate give the pair's value when the
      second is a low one. The reader does not ask: any other second escape gives the
      value of the pair with the low surrogate of the same ten low bits. */
  lemma EscapedPair(doc: string, p: nat, end: nat, high: nat, low: nat)
    requires p + 10 <= end <= |doc| && doc[p + 4] == '\\' && doc[p + 5] == 'u'
    requires G.Hex4(doc, p, end) == G.Good(high) && 0xd800 <= high <= 0xdbff
    requires G.Hex4(doc, p + 6, end) == G.Good(low) && low <= 0xffff
    ensures G.CodePoint(doc, p, end) == G.Good((PairValue(high, 0xdc00 + low % 0x400), p + 10))
    ensures 0xdc00 <= low <= 0xdfff <==> 0xdc00 + low % 0x400 == low
    ensures IsScalar(PairValue(high, 0xdc00 + low % 0x400))
  {
    hide G.Hex4;
    assert high % 0x400 == high - 0xd800;
  }
}
