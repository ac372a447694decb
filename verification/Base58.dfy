/** Base58 text: a big-endian byte string as a big-endian numeral over 58 characters,
    one leading '1' for each leading zero byte. */
module Base58 {
  import opened Numerals
  import opened Bytes
  import opened BigNumber

  datatype Option<+T> = None | Some(value: T)

  // ----- numerals with leading zeroes -----

  /** `zeros` zero digits, then the shortest big-endian numeral of `n`. */
  ghost function Padded(base: nat, zeros: nat, n: nat): seq<nat>
    requires base > 1
  {
    Zeros(zeros) + Reverse(Digits(base, n))
  }

  function LeadingZeros(s: seq<nat>): (z: nat)
    ensures z <= |s| && forall k :: 0 <= k < z ==> s[k] == 0
    ensures z < |s| ==> s[z] != 0
  {
    if s == [] || s[0] != 0 then 0 else 1 + LeadingZeros(s[1..])
  }

  lemma LeadingZerosIs(s: seq<nat>, z: nat)
    requires z <= |s| && (forall k :: 0 <= k < z ==> s[k] == 0) && (z < |s| ==> s[z] != 0)
    ensures LeadingZeros(s) == z
  {
  }

  /** Leading zeroes add nothing to the value. */
  lemma ReverseValue(base: nat, s: seq<nat>)
    ensures var rest := Reverse(s[LeadingZeros(s)..]);
      Val(base, Reverse(s)) == Val(base, rest) && IsShortest(rest)
  {
    hide Val;
    var z := LeadingZeros(s);
    var rest := Reverse(s[z..]);
    assert Reverse(s) == rest + Zeros(z);
    ValAppend(base, rest, Zeros(z));
    ValZeros(base, z);
    TimesLaws(Pow(base, |rest|), 0, 0);
  }

  lemma StripZeros(base: nat, s: seq<nat>)
    requires Digital(base, s)
    ensures var rest := Reverse(s[LeadingZeros(s)..]);
      Digital(base, rest) && Zeros(LeadingZeros(s)) + Reverse(rest) == s
  {
    hide Reverse, LeadingZeros;
    var z := LeadingZeros(s);
    ReverseTwice(s[z..]);
    assert Zeros(z) + s[z..] == s;
  }

  /** Every digit string is a padded numeral, in one way. */
  lemma PaddedOf(base: nat, s: seq<nat>)
    requires base > 1 && Digital(base, s)
    ensures Padded(base, LeadingZeros(s), Val(base, Reverse(s))) == s
  {
    hide Val, Digits, Digital, LeadingZeros, Reverse, IsShortest;
    ReverseValue(base, s);
    StripZeros(base, s);
    DigitsVal(base, Reverse(s[LeadingZeros(s)..]));
  }

  lemma OfPadded(base: nat, zeros: nat, n: nat)
    requires base > 1
    ensures var s := Padded(base, zeros, n);
      Digital(base, s) && LeadingZeros(s) == zeros && Val(base, Reverse(s)) == n
  {
    hide Val, Digits;
    var ds := Digits(base, n);
    var s := Padded(base, zeros, n);
    LeadingZerosIs(s, zeros);
    assert Reverse(s) == ds + Zeros(zeros);
    ValAppend(base, ds, Zeros(zeros));
    ValZeros(base, zeros);
    TimesLaws(Pow(base, |ds|), 0, 0);
    ValDigits(base, n);
  }

  // ----- the alphabet -----

  /** The digits and letters in order, without 0, I, O and l. */
  function Alphabet(): (s: string)
    ensures |s| == 58 && forall d :: 0 <= d < 58 ==> s[d] == CharOf(d)
  {
    seq(58, d requires 0 <= d < 58 => CharOf(d))
  }

  function CharOf(d: nat): char
    requires d < 58
  {
    if d < 9 then '1' + d as char
    else if d < 17 then 'A' + (d - 9) as char
    else if d < 22 then 'J' + (d - 17) as char
    else if d < 33 then 'P' + (d - 22) as char
    else if d < 44 then 'a' + (d - 33) as char
    else 'm' + (d - 44) as char
  }

  /** strchr: the first place of a character in a text, or its length. */
  function IndexOf(text: string, c: char): (i: nat)
    ensures i <= |text| && (i < |text| ==> text[i] == c)
    ensures forall k :: 0 <= k < i ==> text[k] != c
  {
    if text == "" || text[0] == c then 0 else 1 + IndexOf(text[1..], c)
  }

  predicate InAlphabet(c: char) {
    IndexOf(Alphabet(), c) < 58
  }

  function DigitOf(c: char): (d: nat)
    requires InAlphabet(c)
    ensures d < 58 && Alphabet()[d] == c
  {
    IndexOf(Alphabet(), c)
  }

  /** The alphabet has no character twice: its characters ascend. */
  lemma CharOfLaws(d: nat)
    requires d < 58
    ensures InAlphabet(CharOf(d)) && DigitOf(CharOf(d)) == d && CharOf(d) != 0 as char && !IsSpace(CharOf(d))
  {
    var i := IndexOf(Alphabet(), CharOf(d));
    assert Alphabet()[d] == CharOf(d);
    assert i < 58 ==> Alphabet()[i] == CharOf(i);
  }

  function Chars(ds: seq<nat>): (s: string)
    requires Digital(58, ds)
    ensures |s| == |ds| && forall k :: 0 <= k < |s| ==> s[k] == CharOf(ds[k])
  {
    seq(|ds|, k requires 0 <= k < |ds| => CharOf(ds[k]))
  }

  predicate Alphabetic(s: string) {
    forall k :: 0 <= k < |s| ==> InAlphabet(s[k])
  }

  function CharDigits(s: string): (ds: seq<nat>)
    requires Alphabetic(s)
    ensures |ds| == |s| && Digital(58, ds) && forall k :: 0 <= k < |s| ==> ds[k] == DigitOf(s[k])
  {
    seq(|s|, k requires 0 <= k < |s| => DigitOf(s[k]))
  }

  // ----- the encoding -----

  ghost function EncodedDigits(b: bytes): seq<nat> {
    Padded(58, LeadingZeros(b), Val(256, Reverse(b)))
  }

  ghost function Encoded(b: bytes): string {
    OfPadded(58, LeadingZeros(b), Val(256, Reverse(b)));
    Chars(EncodedDigits(b))
  }

  ghost function DecodedDigits(s: string): bytes
    requires Alphabetic(s)
  {
    OfPadded(256, LeadingZeros(CharDigits(s)), Val(58, Reverse(CharDigits(s))));
    Padded(256, LeadingZeros(CharDigits(s)), Val(58, Reverse(CharDigits(s))))
  }

  predicate IsSpace(c: char) {
    c == ' ' || 9 as char <= c <= 13 as char
  }

  function SpaceCount(s: string): (n: nat)
    ensures n <= |s| && (forall k :: 0 <= k < n ==> IsSpace(s[k])) && (n < |s| ==> !IsSpace(s[n]))
  {
    if s == "" || !IsSpace(s[0]) then 0 else 1 + SpaceCount(s[1..])
  }

  function AlphabetCount(s: string): (n: nat)
    ensures n <= |s| && Alphabetic(s[..n]) && (n < |s| ==> !InAlphabet(s[n]))
  {
    if s == "" || !InAlphabet(s[0]) then 0 else 1 + AlphabetCount(s[1..])
  }

  /** The text between surrounding white space. */
  ghost function Body(s: string): Option<string> {
    var t := s[SpaceCount(s)..];
    var n := AlphabetCount(t);
    if SpaceCount(t[n..]) == |t[n..]| then Some(t[..n]) else None
  }

  ghost function Decoded(s: string): Option<bytes> {
    match Body(s)
    case None => None
    case Some(t) => Some(DecodedDigits(t))
  }

  lemma SpaceCountIs(s: string, n: nat)
    requires n <= |s| && (forall k :: 0 <= k < n ==> IsSpace(s[k])) && (n < |s| ==> !IsSpace(s[n]))
    ensures SpaceCount(s) == n
  {
  }

  lemma AlphabetCountIs(s: string, n: nat)
    requires n <= |s| && Alphabetic(s[..n]) && (n < |s| ==> !InAlphabet(s[n]))
    ensures AlphabetCount(s) == n
  {
    hide InAlphabet;
    if n > 0 {
      assert s[..n][0] == s[0] && s[1..][..n - 1] == s[..n][1..];
      AlphabetCountIs(s[1..], n - 1);
    }
  }

  /** The body is what stands between white space, when that is over the alphabet. */
  lemma BodyIs(s: string, i: nat, j: nat)
    requires i <= j <= |s| && Alphabetic(s[i..j])
    requires (forall k :: 0 <= k < i ==> IsSpace(s[k])) && (forall k :: j <= k < |s| ==> IsSpace(s[k]))
    ensures Body(s) == Some(s[i..j])
  {
    hide IsSpace, InAlphabet, SpaceCount, AlphabetCount;
    forall k | i <= k < j ensures InAlphabet(s[k]) && !IsSpace(s[k]) {
      assert s[i..j][k - i] == s[k];
      CharOfLaws(DigitOf(s[k]));
    }
    if i == j {
      SpaceCountIs(s, |s|);
      AlphabetCountIs(s[|s|..], 0);
      SpaceCountIs(s[|s|..], 0);
    } else {
      SpaceCountIs(s, i);
      var t := s[i..];
      if j < |s| { SpacesAreOutside(s[j]); }
      AlphabetCountIs(t, j - i);
      SpaceCountIs(t[j - i..], |s| - j);
      assert t[..j - i] == s[i..j];
    }
  }

  lemma SpacesAreOutside(c: char)
    requires IsSpace(c)
    ensures !InAlphabet(c)
  {
    if InAlphabet(c) { CharOfLaws(DigitOf(c)); }
  }

  /** A text is decoded exactly when it is a text over the alphabet between white space. */
  lemma DecodableExactly(s: string)
    ensures Decoded(s).Some? <==>
      exists i, j :: 0 <= i <= j <= |s| && Alphabetic(s[i..j]) &&
        (forall k :: 0 <= k < i ==> IsSpace(s[k])) && (forall k :: j <= k < |s| ==> IsSpace(s[k]))
  {
    hide IsSpace, InAlphabet, DecodedDigits, SpaceCount, AlphabetCount;
    var a := SpaceCount(s);
    var t := s[a..];
    var n := AlphabetCount(t);
    if Body(s).Some? {
      assert s[a..a + n] == t[..n];
      forall k | a + n <= k < |s| ensures IsSpace(s[k]) { assert s[k] == t[n..][k - a - n]; }
    }
    forall i, j | 0 <= i <= j <= |s| && Alphabetic(s[i..j]) &&
      (forall k :: 0 <= k < i ==> IsSpace(s[k])) && (forall k :: j <= k < |s| ==> IsSpace(s[k]))
      ensures Body(s).Some?
    {
      BodyIs(s, i, j);
    }
  }

  lemma CharsLaws(ds: seq<nat>)
    requires Digital(58, ds)
    ensures Alphabetic(Chars(ds)) && CharDigits(Chars(ds)) == ds
  {
    forall k | 0 <= k < |ds| ensures InAlphabet(Chars(ds)[k]) && DigitOf(Chars(ds)[k]) == ds[k] { CharOfLaws(ds[k]); }
  }

  lemma CharDigitsLaws(s: string)
    requires Alphabetic(s)
    ensures Chars(CharDigits(s)) == s
  {
  }

  /** Decoding undoes encoding, for every byte string. */
  lemma DecodeEncoded(b: bytes)
    ensures Alphabetic(Encoded(b)) && Decoded(Encoded(b)) == Some(b)
  {
    hide Padded, Val, LeadingZeros, InAlphabet, Body;
    OfPadded(58, LeadingZeros(b), Val(256, Reverse(b)));
    var ds := EncodedDigits(b);
    CharsLaws(ds);
    PaddedOf(256, b);
    assert CharDigits(Encoded(b)) == ds && LeadingZeros(ds) == LeadingZeros(b);
    assert Val(58, Reverse(ds)) == Val(256, Reverse(b));
    assert DecodedDigits(Encoded(b)) == b;
    BodyIs(Encoded(b), 0, |Encoded(b)|);
    assert Encoded(b)[0..|Encoded(b)|] == Encoded(b);
  }

  /** Encoding undoes decoding, for every text over the alphabet. */
  lemma EncodeDecoded(s: string)
    requires Alphabetic(s)
    ensures Decoded(s).Some? && Encoded(Decoded(s).value) == s
  {
    hide Padded, Val, LeadingZeros, InAlphabet, Body;
    BodyIs(s, 0, |s|);
    assert s[0..|s|] == s;
    var ds := CharDigits(s);
    OfPadded(256, LeadingZeros(ds), Val(58, Reverse(ds)));
    PaddedOf(58, ds);
    CharDigitsLaws(s);
    var b := DecodedDigits(s);
    assert LeadingZeros(b) == LeadingZeros(ds) && Val(256, Reverse(b)) == Val(58, Reverse(ds));
    assert EncodedDigits(b) == ds;
  }

  // ----- the size of the text -----

  /** 256^50 < 58^69: Base58 needs fewer than 138 characters for 100 bytes. */
  lemma SizeRatio()
    ensures Pow(256, 50) < Pow(58, 69)
  {
    Doubling(58, 1, 58);
    Doubling(58, 2, 3364);
    Doubling(58, 4, 11316496);
    Doubling(58, 8, 128063081718016);
    Doubling(58, 16, 16400152899115243850138976256);
    Doubling(58, 32, 268965015114358137726910587140455987105619365599731777536);
    PowAdd(58, 64, 4);
    PowAdd(58, 68, 1);
    Doubling(256, 1, 0x100);
    Doubling(256, 2, 0x1_0000);
    Doubling(256, 4, 0x1_0000_0000);
    Doubling(256, 8, 0x1_0000_0000_0000_0000);
    Doubling(256, 16, 0x1_0000_0000_0000_0000_0000_0000_0000_0000);
    PowAdd(256, 32, 16);
    PowAdd(256, 48, 2);
  }

  lemma Doubling(b: nat, e: nat, p: nat)
    requires Pow(b, e) == p
    ensures Pow(b, e + e) == p * p
  {
    PowAdd(b, e, e);
  }

  /** The text of n bytes fits the 138n/100 + 1 characters reserved for it. */
  lemma EncodedFits(b: bytes)
    ensures |Encoded(b)| <= |b| * 138 / 100 + 1
  {
    hide Val, Digits, Pow;
    var z, n := LeadingZeros(b), Val(256, Reverse(b));
    assert |Encoded(b)| == z + |Digits(58, n)|;
    var m := |b| - z;
    ReverseValue(256, b);
    ValBound(256, Reverse(b[z..]));
    DigitsFit(n, m);
  }

  lemma DigitsFit(n: nat, m: nat)
    requires n < Pow(256, m)
    ensures |Digits(58, n)| <= m * 138 / 100 + 1
  {
    hide Pow, Digits;
    var len := |Digits(58, n)|;
    if n == 0 {
      assert len == 0 by { DigitsOfZero(); }
    } else {
      DigitsLength(58, n);
      if 50 * (len - 1) > 69 * m {
        calc {
          Pow(256, 50 * m);
        == { PowMul(256, 50, m); }
          Pow(Pow(256, 50), m);
        <= { SizeRatio(); PowBaseMonotone(Pow(256, 50), Pow(58, 69), m); }
          Pow(Pow(58, 69), m);
        == { PowMul(58, 69, m); }
          Pow(58, 69 * m);
        <= { PowMonotone(58, 69 * m, 50 * (len - 1)); }
          Pow(58, 50 * (len - 1));
        == { PowMul(58, len - 1, 50); }
          Pow(Pow(58, len - 1), 50);
        <= { PowBaseMonotone(Pow(58, len - 1), n, 50); }
          Pow(n, 50);
        < { PowBaseStrict(n, Pow(256, m), 50); }
          Pow(Pow(256, m), 50);
        == { PowMul(256, m, 50); }
          Pow(256, 50 * m);
        }
        assert false;
      }
    }
  }

  lemma DigitsOfZero()
    ensures Digits(58, 0) == []
  {
  }

  // ----- the program's loops -----

  method EncodeBase58(b: bytes) returns (text: string)
    requires |b| + 1 < 0x1_0000_0000
    ensures text == Encoded(b)
    ensures |text| <= |b| * 138 / 100 + 1
  {
    hide Digits, Val, Reverse, FromVch, Padded, Encoded, LeadingZeros;
    var vchTmp := Reversed(b) + [0];
    var bn := new BigNum(0);
    bn.SetVch(vchTmp);
    FromPaddedVch(b);
    var str := DigitText(bn);
    var p := 0;
    ghost var ds := Digits(58, Val(256, Reverse(b)));
    assert ds + Zeros(0) == ds;
    while p < |b| && b[p] == 0
      invariant p <= |b| && forall k :: 0 <= k < p ==> b[k] == 0
      invariant Digital(58, ds + Zeros(p)) && str == Chars(ds + Zeros(p))
    {
      assert ds + Zeros(p) + [0] == ds + Zeros(p + 1);
      str := str + [CharOf(0)];
      p := p + 1;
    }
    LeadingZerosIs(b, p);
    EncodedIs(b);
    EncodedFits(b);
    text := Reversed(str);
  }

  /** The digits of a number as text, last digit first; the number is used up. */
  method DigitText(bn: BigNum) returns (str: string)
    requires bn.value >= 0
    modifies bn
    ensures str == Chars(Digits(58, old(bn.value)))
  {
    hide CharOf, Digits;
    assert Digits(58, 0) == [] by { DigitsOfZero(); }
    str := "";
    ghost var ds: seq<nat> := [];
    while bn.value > 0
      invariant bn.value >= 0 && Digital(58, ds) && str == Chars(ds)
      invariant Digits(58, old(bn.value)) == ds + Digits(58, bn.value)
      decreases bn.value
    {
      DigitsStep(58, bn.value);
      var c: nat := bn.value % 58;
      ds := ds + [c];
      bn.value := bn.value / 58;
      str := str + [CharOf(c)];
    }
  }

  lemma EncodedIs(b: bytes)
    ensures var ds := Digits(58, Val(256, Reverse(b))) + Zeros(LeadingZeros(b));
      Digital(58, ds) && Reversed(Chars(ds)) == Encoded(b)
  {
    hide Digits, Val, LeadingZeros;
    var z, ds := LeadingZeros(b), Digits(58, Val(256, Reverse(b)));
    assert Reverse(ds + Zeros(z)) == EncodedDigits(b);
  }

  lemma FromPaddedVch(b: bytes)
    ensures FromVch(Reversed(b) + [0]) == Val(256, Reverse(b))
  {
    var v := Reversed(b) + [0];
    assert v[..|b|] + [v[|b|] % 128] == Reverse(b) + [0];
    ValSnoc(256, Reverse(b), 0);
    TimesLaws(Pow(256, |b|), 0, 0);
  }

  method SkipSpaces(psz: string, from: nat) returns (p: nat)
    requires from <= |psz|
    ensures p == from + SpaceCount(psz[from..])
  {
    p := from;
    while p < |psz| && IsSpace(psz[p])
      invariant from <= p <= |psz| && forall k :: from <= k < p ==> IsSpace(psz[k])
    {
      p := p + 1;
    }
    SpaceCountIs(psz[from..], p - from);
  }

  /** The value of the alphabetic text from `start` on, and where it ends. */
  method ReadDigits(psz: string, start: nat) returns (end: nat, value: nat)
    requires start <= |psz|
    ensures end == start + AlphabetCount(psz[start..])
    ensures Alphabetic(psz[start..end]) && value == Val(58, Reverse(CharDigits(psz[start..end])))
  {
    hide InAlphabet, Reverse, CharDigits;
    end, value := start, 0;
    EmptyText();
    assert psz[start..start] == "";
    while end < |psz|
      invariant start <= end <= |psz| && Alphabetic(psz[start..end])
      invariant value == Val(58, Reverse(CharDigits(psz[start..end])))
    {
      if !InAlphabet(psz[end]) { break; }
      var digit := DigitOf(psz[end]);
      AppendDigit(psz[start..end], psz[end]);
      assert psz[start..end + 1] == psz[start..end] + [psz[end]];
      value := value * 58 + digit;
      end := end + 1;
    }
    assert psz[start..][..end - start] == psz[start..end];
    AlphabetCountIs(psz[start..], end - start);
  }

  lemma EmptyText()
    ensures Reverse(CharDigits("")) == [] && Val(58, []) == 0
  {
  }

  /** How many '1's the text starts with. */
  method CountOnes(psz: string, start: nat, ghost end: nat) returns (zeros: nat)
    requires start <= end <= |psz| && Alphabetic(psz[start..end])
    requires end < |psz| ==> !InAlphabet(psz[end])
    ensures zeros == LeadingZeros(CharDigits(psz[start..end]))
  {
    ghost var t := psz[start..end];
    zeros := 0;
    CharOfLaws(0);
    while start + zeros < |psz| && psz[start + zeros] == CharOf(0)
      invariant start + zeros <= end && forall k :: 0 <= k < zeros ==> t[k] == CharOf(0)
    {
      assert start + zeros < end;
      zeros := zeros + 1;
    }
    if start + zeros < end { assert t[zeros] == CharOf(DigitOf(t[zeros])); }
    LeadingZerosIs(CharDigits(t), zeros);
  }

  method DecodeBase58(psz: string) returns (ok: bool, result: bytes)
    ensures ok == Decoded(psz).Some?
    ensures ok ==> result == Decoded(psz).value
  {
    hide InAlphabet, IsSpace, SpaceCount, AlphabetCount, LeadingZeros, Val, CharDigits, Digits, ToVch, Reverse;
    var start := SkipSpaces(psz, 0);
    assert psz[0..] == psz;
    var end, value := ReadDigits(psz, start);
    ghost var t := psz[start..];
    assert t[..end - start] == psz[start..end] && t[end - start..] == psz[end..];
    var rest := SkipSpaces(psz, end);
    if rest != |psz| { return false, []; }
    var bn := new BigNum(value);
    var vchTmp := bn.GetVch();
    TrimmedVch(value);
    if |vchTmp| >= 2 && vchTmp[|vchTmp| - 1] == 0 && vchTmp[|vchTmp| - 2] >= 0x80 {
      vchTmp := vchTmp[..|vchTmp| - 1];
    }
    var zeros := CountOnes(psz, start, end);
    result := seq(zeros, _ => 0) + Reversed(vchTmp);
    SameBytes(vchTmp, zeros, value);
    return true, result;
  }

  lemma SameBytes(v: bytes, zeros: nat, n: nat)
    requires v == Digits(256, n)
    ensures seq(zeros, _ => 0) + Reversed(v) == Padded(256, zeros, n)
  {
    hide Digits;
  }

  lemma AppendDigit(s: string, c: char)
    requires Alphabetic(s) && InAlphabet(c)
    ensures Alphabetic(s + [c])
    ensures Val(58, Reverse(CharDigits(s + [c]))) == Val(58, Reverse(CharDigits(s))) * 58 + DigitOf(c)
  {
    var ds := Reverse(CharDigits(s));
    assert Reverse(CharDigits(s + [c])) == [DigitOf(c)] + ds;
    assert ([DigitOf(c)] + ds)[1..] == ds;
  }

  lemma PositiveVch(n: nat)
    requires n > 0
    ensures var ds := Digits(256, n); var m := |ds| - 1;
      ds != [] && ds[m] != 0 && ToVch(n) == if ds[m] >= 128 then ds + [0] else ds
  {
    DigitsLength(256, n);
    hide Digits, Pow, Times;
    var ds := Digits(256, n);
    assert ds[..|ds| - 1] + [ds[|ds| - 1]] == ds;
  }

  /** A non-negative number's bytes without a byte that holds only the sign. */
  lemma TrimmedVch(n: nat)
    ensures var v := ToVch(n);
      Digits(256, n) ==
        if |v| >= 2 && v[|v| - 1] == 0 && v[|v| - 2] >= 0x80 then v[..|v| - 1] else v
  {
    if n > 0 {
      PositiveVch(n);
      hide Digits, ToVch;
      var ds := Digits(256, n);
      assert (ds + [0])[..|ds|] == ds;
    }
  }
}
