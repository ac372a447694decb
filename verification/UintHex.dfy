/** base_uint as hexadecimal text. On a little-endian host the limbs' memory is the
    little-endian byte string of the number. */
module UintHex {
  import opened Numerals
  import opened Bytes
  import opened BaseUint
  import Hex

  /** The memory of the limbs. */
  function Memory(limbs: seq<limb>): (m: bytes)
    ensures |m| == 4 * |limbs|
  {
    if limbs == [] then [] else LE(limbs[0], 4) + Memory(limbs[1..])
  }

  lemma {:induction false} MemoryVal(limbs: seq<limb>)
    ensures FromLE(Memory(limbs)) == Val(BASE, limbs)
  {
    hide Times, Fixed;
    if limbs != [] {
      MemoryVal(limbs[1..]);
      ValAppend(256, LE(limbs[0], 4), Memory(limbs[1..]));
      Pow256(4);
      FromLELE(limbs[0], 4);
    }
  }

  /** The number that hexadecimal digits denote. */
  function Number(digits: string): nat
    requires forall c :: c in digits ==> Hex.DigitValue(c) >= 0
  {
    if digits == "" then 0
    else
      var m := |digits| - 1;
      Number(digits[..m]) * 16 + Hex.DigitValue(digits[m])
  }

  /** The digits of a text: after leading space and "0x", as many as there are. */
  function DigitsOf(s: string): (ds: string)
    ensures forall c :: c in ds ==> Hex.DigitValue(c) >= 0
  {
    Leading(AfterPrefix(AfterSpace(s)))
  }

  function AfterSpace(s: string): string {
    if s != "" && Hex.IsSpace(s[0]) then AfterSpace(s[1..]) else s
  }

  function AfterPrefix(s: string): string {
    if |s| >= 2 && s[0] == '0' && (s[1] == 'x' || s[1] == 'X') then s[2..] else s
  }

  function Leading(s: string): (ds: string)
    ensures forall c :: c in ds ==> Hex.DigitValue(c) >= 0
  {
    if s != "" && Hex.DigitValue(s[0]) >= 0 then [s[0]] + Leading(s[1..]) else ""
  }

  method GetHex(limbs: seq<limb>) returns (s: string)
    ensures s == Hex.Text(Reversed(Memory(limbs)))
  {
    var pn := Memory(limbs);
    hide Hex.Text, Memory;
    s := "";
    ghost var r := Reversed(pn);
    for i := 0 to |pn|
      invariant s + Hex.Text(r[i..]) == Hex.Text(r)
    {
      var b := pn[|pn| - i - 1];
      assert b == r[i];
      Hex.TextStep(r, i);
      ghost var rest := Hex.Text(r[i + 1..]);
      var d := [Hex.HEXMAP[b / 16]] + [Hex.HEXMAP[b % 16]];
      assert s + (d + rest) == s + d + rest;
      s := s + d;
    }
    Hex.TextStep(r, |pn|);
  }

  /** The bytes are filled from the last digit back, as long as there are digits and
      bytes: the number is the digits', modulo 2^BITS. */
  method SetHex(pn: array<byte>, s: string)
    modifies pn
    ensures FromLE(pn[..]) == Number(DigitsOf(s)) % Pow(256, pn.Length)
  {
    hide Number, Val, Times, Hex.DigitValue, Hex.IsSpace, FromLE;
    for i := 0 to pn.Length
      invariant forall k :: 0 <= k < i ==> pn[k] == 0
    {
      pn[i] := 0;
    }
    var begin, end := DigitRange(s);
    ghost var ds := DigitsOf(s);
    var psz := end - 1;
    var p1 := 0;
    FilledNone(ds, pn[..]);
    while psz >= begin && p1 < pn.Length
      invariant begin - 1 <= psz < end && 0 <= p1 <= pn.Length
      invariant Filled(ds[..psz + 1 - begin], ds, pn[..], p1)
      decreases psz + pn.Length - p1
    {
      ghost var was, n := pn[..], psz + 1 - begin;
      assert ds[n - 1] == s[psz];
      pn[p1] := Hex.DigitValue(s[psz]);
      psz := psz - 1;
      if psz >= begin {
        assert ds[n - 2] == s[psz];
        pn[p1] := Hex.DigitValue(s[psz]) * 16 + pn[p1];
        psz := psz - 1;
        FilledTwo(ds[..n], ds, was, p1);
        assert ds[..n][..n - 2] == ds[..n - 2] && pn[..] == was[p1 := pn[p1]];
        p1 := p1 + 1;
      } else {
        FilledOne(ds[..n], ds, was, p1);
        assert pn[..] == was[p1 := pn[p1]];
        return;
      }
    }
    FilledAll(ds[..psz + 1 - begin], ds, pn[..], p1);
  }

  /** Where the digits of a text are. */
  method DigitRange(s: string) returns (begin: nat, end: nat)
    ensures begin <= end <= |s| && s[begin..end] == DigitsOf(s)
  {
    begin := DigitsStart(s);
    end := LeadingEnd(s, begin);
  }

  /** Past the digits. */
  method LeadingEnd(s: string, begin: nat) returns (end: nat)
    requires begin <= |s|
    ensures begin <= end <= |s| && s[begin..end] == Leading(s[begin..])
  {
    end := begin;
    assert s[begin..end] == "";
    assert LeadsTo(s, begin, end);
    hide Hex.DigitValue, Leading, LeadsTo;
    while end < |s| && Hex.DigitValue(s[end]) >= 0
      invariant begin <= end <= |s| && LeadsTo(s, begin, end)
    {
      LeadsOn(s, begin, end);
      end := end + 1;
    }
    LeadsOn(s, begin, end);
  }

  /** The leading digits from begin are the text up to end and those from end on. */
  ghost predicate LeadsTo(s: string, begin: nat, end: nat)
    requires begin <= end <= |s|
  {
    Leading(s[begin..]) == s[begin..end] + Leading(s[end..])
  }

  lemma LeadsOn(s: string, begin: nat, end: nat)
    requires begin <= end <= |s| && LeadsTo(s, begin, end)
    ensures if end < |s| && Hex.DigitValue(s[end]) >= 0 then LeadsTo(s, begin, end + 1) else s[begin..end] == Leading(s[begin..])
  {
    hide Hex.DigitValue, Leading;
    LeadingStep(s, end);
    if end < |s| && Hex.DigitValue(s[end]) >= 0 {
      var rest := Leading(s[end + 1..]);
      assert s[begin..end + 1] + rest == s[begin..end] + ([s[end]] + rest);
    } else {
      assert s[begin..end] + "" == s[begin..end];
    }
  }

  /** Past the white space and the prefix. */
  method DigitsStart(s: string) returns (begin: nat)
    ensures begin <= |s| && Leading(s[begin..]) == DigitsOf(s)
  {
    assert DigitsOf(s) == Leading(AfterPrefix(AfterSpace(s)));
    hide Hex.IsSpace, AfterSpace, AfterPrefix, Leading, DigitsOf;
    begin := 0;
    assert s[0..] == s;
    while begin < |s| && Hex.IsSpace(s[begin])
      invariant begin <= |s| && AfterSpace(s[begin..]) == AfterSpace(s)
    {
      SpaceStep(s, begin);
      begin := begin + 1;
    }
    SpaceStep(s, begin);
    PrefixStep(s, begin);
    if begin + 1 < |s| && s[begin] == '0' && (s[begin + 1] == 'x' || s[begin + 1] == 'X') {
      begin := begin + 2;
    }
  }

  lemma SpaceStep(s: string, k: nat)
    requires k <= |s|
    ensures AfterSpace(s[k..]) == if k < |s| && Hex.IsSpace(s[k]) then AfterSpace(s[k + 1..]) else s[k..]
  {
    hide Hex.IsSpace;
    if k < |s| { assert s[k..][1..] == s[k + 1..]; }
  }

  lemma PrefixStep(s: string, k: nat)
    requires k <= |s|
    ensures AfterPrefix(s[k..])
      == if k + 1 < |s| && s[k] == '0' && (s[k + 1] == 'x' || s[k + 1] == 'X') then s[k + 2..] else s[k..]
  {
    if k + 1 < |s| { assert s[k..][2..] == s[k + 2..]; }
  }

  lemma LeadingStep(s: string, k: nat)
    requires k <= |s|
    ensures Leading(s[k..]) == if k < |s| && Hex.DigitValue(s[k]) >= 0 then [s[k]] + Leading(s[k + 1..]) else ""
  {
    hide Hex.DigitValue;
    if k < |s| { assert s[k..][1..] == s[k + 1..]; }
  }

  /** The digits are those still unread, times a power of 256, and the bytes filled;
      the other bytes are zero. */
  ghost predicate Filled(unread: string, ds: string, m: bytes, i: nat)
    requires i <= |m|
    requires forall c :: c in unread || c in ds ==> Hex.DigitValue(c) >= 0
  {
    Number(ds) == FromLE(m[..i]) + Times(Pow(256, i), Number(unread)) && forall k :: i <= k < |m| ==> m[k] == 0
  }

  lemma FilledNone(ds: string, m: bytes)
    requires (forall c :: c in ds ==> Hex.DigitValue(c) >= 0) && forall k :: 0 <= k < |m| ==> m[k] == 0
    ensures Filled(ds[..|ds|], ds, m, 0)
  {
    hide Number;
    assert ds[..|ds|] == ds && m[..0] == [] && Pow(256, 0) == 1;
    TimesLaws(Number(ds), 0, 0);
  }

  lemma NumberLast(ds: string)
    requires ds != "" && forall c :: c in ds ==> Hex.DigitValue(c) >= 0
    ensures Number(ds) == Number(ds[..|ds| - 1]) * 16 + Hex.DigitValue(ds[|ds| - 1])
    ensures |ds| == 1 ==> Number(ds) == Hex.DigitValue(ds[0])
  {
    if |ds| == 1 { assert ds[..0] == ""; }
  }

  lemma NextByte(m: bytes, i: nat, b: byte, rest: nat)
    requires i < |m|
    ensures FromLE(m[i := b][..i + 1]) + Times(Pow(256, i + 1), rest) == FromLE(m[..i]) + Times(Pow(256, i), b + rest * 256)
  {
    hide Times, Val;
    var p := Pow(256, i);
    assert m[i := b][..i + 1] == m[..i] + [b];
    ValSnoc(256, m[..i], b);
    TimesLaws(256, p, rest);
    TimesLaws(p, 256, rest);
    TimesLaws(p, b, rest * 256);
    assert rest * 256 == Times(256, rest) by { By256(rest); }
  }

  lemma By256(n: nat)
    ensures n * 256 == Times(256, n)
  {
  }

  lemma FilledTwo(unread: string, ds: string, m: bytes, i: nat)
    requires i < |m| && |unread| >= 2
    requires forall c :: c in unread || c in ds ==> Hex.DigitValue(c) >= 0
    requires Filled(unread, ds, m, i)
    ensures var n := |unread|; var b := Hex.DigitValue(unread[n - 2]) * 16 + Hex.DigitValue(unread[n - 1]);
      Filled(unread[..n - 2], ds, m[i := b], i + 1)
  {
    hide Number, Times, FromLE, Hex.DigitValue;
    var n := |unread|;
    NumberLast(unread);
    NumberLast(unread[..n - 1]);
    assert unread[..n - 1][..n - 2] == unread[..n - 2];
    NextByte(m, i, Hex.DigitValue(unread[n - 2]) * 16 + Hex.DigitValue(unread[n - 1]), Number(unread[..n - 2]));
  }

  lemma FilledOne(unread: string, ds: string, m: bytes, i: nat)
    requires i < |m| && |unread| == 1
    requires forall c :: c in unread || c in ds ==> Hex.DigitValue(c) >= 0
    requires Filled(unread, ds, m, i)
    ensures FromLE(m[i := Hex.DigitValue(unread[0])]) == Number(ds) % Pow(256, |m|)
  {
    hide Number, Times, FromLE, Hex.DigitValue;
    var b := Hex.DigitValue(unread[0]);
    NumberLast(unread);
    NextByte(m, i, b, 0);
    TimesLaws(Pow(256, i + 1), 0, 0);
    TimesLaws(0, Pow(256, i + 1), 0);
    assert Filled("", ds, m[i := b], i + 1) by { assert Number("") == 0 by { NumberNone(); } }
    NumberNone();
    FilledAll("", ds, m[i := b], i + 1);
  }

  lemma NumberNone()
    ensures Number("") == 0
  {
  }

  lemma FilledAll(unread: string, ds: string, m: bytes, i: nat)
    requires i <= |m| && (i == |m| || unread == "")
    requires forall c :: c in unread || c in ds ==> Hex.DigitValue(c) >= 0
    requires Filled(unread, ds, m, i)
    ensures FromLE(m) == Number(ds) % Pow(256, |m|)
  {
    hide Number, Times, Val;
    NumberNone();
    ValBound(256, m);
    if i == |m| {
      assert m[..i] == m;
      DivModUnique(Number(ds), Pow(256, |m|), Number(unread), FromLE(m));
    } else {
      ValAppend(256, m[..i], m[i..]);
      assert m == m[..i] + m[i..] && m[i..] == Zeros(|m| - i);
      ValZeros(256, |m| - i);
      TimesLaws(Pow(256, i), 0, 0);
      TimesLaws(0, Pow(256, i), 0);
      TimesLaws(Pow(256, |m|), 0, 0);
      TimesLaws(0, Pow(256, |m|), 0);
      DivModUnique(Number(ds), Pow(256, |m|), 0, FromLE(m));
    }
  }

  // ----- the round trip -----

  lemma TextDigits(b: bytes)
    ensures forall c :: c in Hex.Text(b) ==> Hex.DigitValue(c) >= 0
    ensures Leading(Hex.Text(b)) == Hex.Text(b) == AfterPrefix(AfterSpace(Hex.Text(b)))
  {
    hide Hex.Text, Hex.DigitValue, Leading;
    TextIsDigits(b);
    LeadingAll(Hex.Text(b));
    StartsAtOnce(Hex.Text(b));
  }

  lemma {:induction false} TextIsDigits(b: bytes)
    ensures forall c :: c in Hex.Text(b) ==> Hex.DigitValue(c) >= 0
  {
    hide Hex.DigitValue;
    if b != [] {
      TextIsDigits(b[1..]);
      Hex.MapInverse(b[0] / 16);
      Hex.MapInverse(b[0] % 16);
    }
  }

  lemma {:induction false} LeadingAll(s: string)
    requires forall c :: c in s ==> Hex.DigitValue(c) >= 0
    ensures Leading(s) == s
  {
    hide Hex.DigitValue;
    if s != "" {
      LeadingAll(s[1..]);
      assert s == [s[0]] + s[1..];
    }
  }

  /** Text of digits starts with neither white space nor the prefix. */
  lemma StartsAtOnce(s: string)
    requires forall c :: c in s ==> Hex.DigitValue(c) >= 0
    ensures AfterPrefix(AfterSpace(s)) == s
  {
    if s != "" {
      assert Hex.DigitValue(s[0]) >= 0;
      if |s| >= 2 { NotX(s[1]); }
    }
  }

  lemma NotX(c: char)
    ensures Hex.DigitValue(c) >= 0 ==> c != 'x' && c != 'X'
  {
  }

  function Pair(d: byte): string { [Hex.HEXMAP[d / 16], Hex.HEXMAP[d % 16]] }

  lemma TextPair(b: bytes)
    ensures Hex.Text(b) == if b == [] then "" else Pair(b[0]) + Hex.Text(b[1..])
  {
  }

  lemma {:induction false} TextSnoc(b: bytes, d: byte)
    ensures Hex.Text(b + [d]) == Hex.Text(b) + Pair(d)
  {
    hide Hex.Text, Pair;
    TextPair(b);
    TextPair(b + [d]);
    TextPair([]);
    if b == [] {
      assert b + [d] == [d] && [d][1..] == [];
    } else {
      TextSnoc(b[1..], d);
      assert (b + [d])[1..] == b[1..] + [d] && (b + [d])[0] == b[0];
      var first, rest := Pair(b[0]), Hex.Text(b[1..]);
      assert first + (rest + Pair(d)) == first + rest + Pair(d);
    }
  }

  lemma NumberTwo(t: string, x: char, y: char)
    requires (forall c :: c in t ==> Hex.DigitValue(c) >= 0) && Hex.DigitValue(x) >= 0 && Hex.DigitValue(y) >= 0
    ensures Number(t + [x, y]) == (Number(t) * 16 + Hex.DigitValue(x)) * 16 + Hex.DigitValue(y)
  {
    hide Hex.DigitValue, Number;
    var s := t + [x, y];
    NumberLast(s);
    NumberLast(s[..|s| - 1]);
    assert s[..|s| - 1] == t + [x] && (t + [x])[..|t|] == t;
  }

  /** One more byte of text is one more byte in front. */
  lemma TextMore(b: bytes, d: byte)
    ensures forall c :: c in Hex.Text(b + [d]) || c in Hex.Text(b) ==> Hex.DigitValue(c) >= 0
    ensures Number(Hex.Text(b + [d])) == d as nat + Number(Hex.Text(b)) * 256
  {
    hide Hex.Text, Hex.DigitValue, Number;
    TextDigits(b);
    TextDigits(b + [d]);
    TextSnoc(b, d);
    Hex.MapInverse(d / 16);
    Hex.MapInverse(d % 16);
    NumberTwo(Hex.Text(b), Hex.HEXMAP[d / 16], Hex.HEXMAP[d % 16]);
  }

  lemma {:induction false} TextNumber(m: bytes)
    ensures forall c :: c in Hex.Text(Reversed(m)) ==> Hex.DigitValue(c) >= 0
    ensures Number(Hex.Text(Reversed(m))) == FromLE(m)
  {
    if m == [] {
      NumberNone();
    } else {
      hide Hex.Text, Hex.DigitValue, Number, Times;
      TextNumber(m[1..]);
      assert Reversed(m) == Reversed(m[1..]) + [m[0]];
      TextMore(Reversed(m[1..]), m[0]);
      By256(FromLE(m[1..]));
    }
  }

  /** Setting a number from its own text gives the number back. */
  lemma TextRoundTrip(limbs: seq<limb>)
    ensures Number(DigitsOf(Hex.Text(Reversed(Memory(limbs))))) % Pow(256, 4 * |limbs|) == Val(BASE, limbs)
  {
    hide Val, Times, Hex.Text, Number, Hex.DigitValue, Memory, Leading, AfterPrefix, AfterSpace;
    var m := Memory(limbs);
    TextDigits(Reversed(m));
    TextNumber(m);
    MemoryVal(limbs);
    LEFromLE(m);
    SmallMod(FromLE(m), Pow(256, |m|));
  }

  lemma SmallMod(n: nat, m: nat)
    requires n < m
    ensures n % m == n
  {
  }
}
