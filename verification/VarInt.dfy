/** Variable-length integers: base 128, most significant digit first, the high bit of a
    byte saying that another follows, and one subtracted from all but the last digit. */
module VarInt {
  import opened Numerals
  import opened Bytes
  import opened Serialize

  // ----- the documented meaning -----

  /** All bytes but the last have the high bit, and there is a last. */
  predicate IsTerminated(a: bytes) {
    a != [] && a[|a| - 1] < 128 && forall k :: 0 <= k < |a| - 1 ==> a[k] >= 128
  }

  /** The sum of 128^j * ((a[len-j-1] & 0x7F) + 1) for j from i to len-1. */
  function HighSum(a: bytes, i: nat): nat
    requires 1 <= i <= |a|
    decreases |a| - i
  {
    if i == |a| then 0 else Times(Pow(128, i), a[|a| - i - 1] % 128 + 1) + HighSum(a, i + 1)
  }

  /** The number that a terminated byte string encodes. */
  function Meaning(a: bytes): nat
    requires a != []
  {
    a[|a| - 1] % 128 + HighSum(a, 1)
  }

  /** What reading has accumulated after the bytes, over unbounded integers, when each
      of them says that another follows. */
  function Accumulated(a: bytes): nat {
    if a == [] then 0 else Accumulated(a[..|a| - 1]) * 128 + a[|a| - 1] % 128 + 1
  }

  /** The sum, shifted by one digit, is what is accumulated. */
  lemma {:induction false} HighSumAccumulated(a: bytes, i: nat)
    requires 1 <= i <= |a|
    ensures HighSum(a, i) == Times(Pow(128, i), Accumulated(a[..|a| - i]))
    decreases |a| - i
  {
    hide Times;
    var p, m := Pow(128, i), |a| - i;
    TimesLaws(p, 0, 0);
    if m > 0 {
      HighSumAccumulated(a, i + 1);
      var acc := Accumulated(a[..m - 1]);
      var d: nat := a[m - 1] % 128 + 1;
      assert a[..m][..m - 1] == a[..m - 1];
      assert Accumulated(a[..m]) == acc * 128 + d;
      NextPower(i, acc);
      TimesLaws(p, acc * 128, d);
    } else {
      assert a[..0] == [];
    }
  }

  lemma NextPower(i: nat, acc: nat)
    ensures Times(Pow(128, i + 1), acc) == Times(Pow(128, i), acc * 128)
  {
    hide Times;
    PowAdd(128, i, 1);
    TimesLaws(Pow(128, i), 128, acc);
    assert Pow(128, 1) == 128 && acc * 128 == Times(128, acc) by { OneTwoEight(acc); }
  }

  lemma OneTwoEight(n: nat)
    ensures Pow(128, 1) == 128 && Times(128, n) == n * 128
  {
  }

  lemma MeaningStep(a: bytes)
    requires a != []
    ensures Meaning(a) == Accumulated(a[..|a| - 1]) * 128 + a[|a| - 1] % 128
  {
    HighSumAccumulated(a, 1);
    OneTwoEight(Accumulated(a[..|a| - 1]));
  }

  // ----- what is written -----

  /** The bytes of a number that another byte follows. */
  function EncodeHigh(n: nat): (r: bytes)
    decreases n
  {
    (if n <= 0x7f then [] else EncodeHigh(n / 128 - 1)) + [128 + n % 128]
  }

  function Encode(n: nat): (r: bytes) {
    (if n <= 0x7f then [] else EncodeHigh(n / 128 - 1)) + [n % 128]
  }

  lemma HighStep(n: nat)
    ensures EncodeHigh(n) == (if n <= 0x7f then [] else EncodeHigh(n / 128 - 1)) + [128 + n % 128]
    ensures Encode(n) == (if n <= 0x7f then [] else EncodeHigh(n / 128 - 1)) + [n % 128]
  {
  }

  lemma {:induction false} EncodeHighMeaning(n: nat)
    ensures forall k :: 0 <= k < |EncodeHigh(n)| ==> EncodeHigh(n)[k] >= 128
    ensures Accumulated(EncodeHigh(n)) == n + 1
    decreases n
  {
    hide EncodeHigh, Accumulated;
    HighStep(n);
    var r := EncodeHigh(n);
    var m := |r| - 1;
    assert r[m] == 128 + n % 128;
    AccumulatedLast(r);
    if n <= 0x7f {
      assert r[..m] == [];
    } else {
      EncodeHighMeaning(n / 128 - 1);
      assert r[..m] == EncodeHigh(n / 128 - 1);
    }
  }

  lemma AccumulatedLast(a: bytes)
    requires a != []
    ensures Accumulated(a) == Accumulated(a[..|a| - 1]) * 128 + a[|a| - 1] % 128 + 1
    ensures Accumulated([]) == 0
  {
  }

  /** The encoding is terminated and means the number. */
  lemma EncodeMeaning(n: nat)
    ensures IsTerminated(Encode(n)) && Meaning(Encode(n)) == n
  {
    hide Encode, EncodeHigh, Meaning;
    HighStep(n);
    var r := Encode(n);
    MeaningStep(r);
    assert r[|r| - 1] == n % 128;
    if n <= 0x7f {
      assert r[..|r| - 1] == [];
    } else {
      EncodeHighMeaning(n / 128 - 1);
      assert r[..|r| - 1] == EncodeHigh(n / 128 - 1);
    }
  }

  lemma {:induction false} HighUnique(a: bytes)
    requires a != [] && forall k :: 0 <= k < |a| ==> a[k] >= 128
    ensures Accumulated(a) >= 1 && EncodeHigh(Accumulated(a) - 1) == a
    decreases |a|
  {
    var m := |a| - 1;
    var b, d: nat := a[..m], a[m] % 128;
    assert b == [] ==> Accumulated(b) == 0;
    assert Accumulated(a) == Accumulated(b) * 128 + d + 1;
    hide Accumulated, EncodeHigh;
    assert a == b + [a[m]] && a[m] == 128 + d;
    HighDigit(Accumulated(b), d);
    if b != [] { HighUnique(b); }
  }

  lemma HighDigit(acc: nat, d: nat)
    requires d < 128
    ensures EncodeHigh(acc * 128 + d) == (if acc == 0 then [] else EncodeHigh(acc - 1)) + [128 + d]
  {
    HighStep(acc * 128 + d);
    hide EncodeHigh;
    assert (acc * 128 + d) / 128 == acc;
  }

  /** Every terminated byte string encodes exactly one number, and is its encoding. */
  lemma MeaningUnique(a: bytes)
    requires IsTerminated(a)
    ensures Encode(Meaning(a)) == a
    ensures forall n :: Encode(n) == a <==> n == Meaning(a)
  {
    hide Encode, EncodeHigh, Accumulated, Meaning;
    MeaningStep(a);
    var m := |a| - 1;
    var acc := Accumulated(a[..m]);
    var n := acc * 128 + a[m];
    assert n % 128 == a[m] && n / 128 == acc;
    assert a == a[..m] + [a[m]];
    HighStep(n);
    if a[..m] == [] { AccumulatedLast(a); } else { HighUnique(a[..m]); }
    forall n' ensures Encode(n') == a ==> n' == Meaning(a) {
      EncodeMeaning(n');
    }
  }

  /** A number below 128^k takes at most k bytes. */
  lemma {:induction false} EncodeHighLength(n: nat, k: nat)
    requires n < Pow(128, k) && k > 0
    ensures |EncodeHigh(n)| <= k
    decreases k
  {
    if n > 0x7f {
      PowStep(n, k);
      EncodeHighLength(n / 128 - 1, k - 1);
    }
  }

  lemma PowStep(n: nat, k: nat)
    requires 0x7f < n < Pow(128, k) && k > 0
    ensures k > 1 && n / 128 - 1 < Pow(128, k - 1)
  {
    assert Pow(128, k) == Pow(128, k - 1) * 128;
    assert Pow(128, 0) == 1;
  }

  lemma EncodeLength(n: nat)
    ensures |Encode(n)| == |EncodeHigh(n)| >= 1
  {
  }

  /** The room for a number of `w` bits. */
  function Room(w: nat): nat { (w + 6) / 7 }

  lemma RoomSuffices(w: nat)
    ensures Pow(2, w) <= Pow(128, Room(w))
  {
    var k := Room(w);
    assert Times(7, k) >= w;
    PowMul(2, 7, k);
    assert Pow(2, 7) == 128;
    PowMonotone(2, w, Times(7, k));
  }

  /** A number of `w` bits takes at most ceil(w / 7) bytes. */
  lemma EncodeFits(n: nat, w: nat)
    requires n < Pow(2, w) && w > 0
    ensures |Encode(n)| <= Room(w)
  {
    RoomSuffices(w);
    EncodeHighLength(n, Room(w));
    EncodeLength(n);
  }

  method GetSizeOfVarInt(n0: nat) returns (nRet: nat)
    ensures nRet == |Encode(n0)|
  {
    hide EncodeHigh, Encode;
    var n := n0;
    nRet := 0;
    EncodeLength(n0);
    while true
      invariant nRet + |EncodeHigh(n)| == |Encode(n0)|
      decreases n
    {
      nRet := nRet + 1;
      HighStep(n);
      if n <= 0x7f { break; }
      n := n / 128 - 1;
    }
  }

  /** Writing a number of a `w`-bit unsigned type: the digits go to a buffer with room
      for ceil(w / 7), which suffices, and from there to the stream in reverse. */
  method WriteVarInt(os: bytes, n0: nat, w: nat) returns (os': bytes)
    requires n0 < Pow(2, w) && w > 0
    ensures os' == os + Encode(n0)
  {
    hide EncodeHigh, Encode, Pow;
    var n: nat := n0;
    var tmp := new byte[(w + 6) / 7];
    var len := 0;
    RoomSuffices(w);
    assert Reversed(tmp[..0]) == [];
    while true
      invariant 0 <= len < tmp.Length && n < Pow(128, tmp.Length - len)
      invariant len > 0 ==> EncodeHigh(n) + Reversed(tmp[..len]) == Encode(n0)
      invariant len == 0 ==> n == n0
      decreases n
    {
      HighStep(n);
      ghost var tail := Reversed(tmp[..len]);
      tmp[len] := n % 128 + (if len > 0 then 128 else 0);
      assert Reversed(tmp[..len + 1]) == [tmp[len]] + tail;
      if n <= 0x7f { break; }
      PowStep(n, tmp.Length - len);
      assert EncodeHigh(n / 128 - 1) + ([tmp[len]] + tail) == EncodeHigh(n / 128 - 1) + [tmp[len]] + tail;
      n := n / 128 - 1;
      len := len + 1;
    }
    assert Reversed(tmp[..len + 1]) == Encode(n0);
    os' := WriteBackwards(os, tmp, len);
  }

  /** The last loop of WriteVarInt: the bytes up to tmp[len], the last of them first. */
  method WriteBackwards(os: bytes, tmp: array<byte>, len: nat) returns (os': bytes)
    requires len < tmp.Length
    ensures os' == os + Reversed(tmp[..len + 1])
  {
    os' := os;
    var k := len;
    while k >= 0
      invariant -1 <= k <= len
      invariant os' + Reversed(tmp[..k + 1]) == os + Reversed(tmp[..len + 1])
    {
      assert Reversed(tmp[..k + 1]) == [tmp[k]] + Reversed(tmp[..k]);
      os' := os' + [tmp[k]];
      k := k - 1;
    }
    assert tmp[..0] == [];
  }

  // ----- what is read -----

  /** How many bytes there are up to the first without the high bit; none if there is
      no such byte. */
  function TermLength(s: bytes): (n: nat)
    ensures n <= |s| && (n > 0 ==> IsTerminated(s[..n]))
    ensures n == 0 ==> forall k :: 0 <= k < |s| ==> s[k] >= 128
  {
    if s == [] then 0
    else if s[0] < 128 then 1
    else
      var m := TermLength(s[1..]);
      if m == 0 then 0
      else
        assert s[..m + 1] == [s[0]] + s[1..][..m];
        m + 1
  }

  /** Reading into a `w`-bit unsigned type gives the number encoded by the bytes up to
      the first without the high bit, modulo 2^w, and leaves the rest. */
  function Reading(s: bytes, w: nat): Parsed<nat> {
    var n := TermLength(s);
    if n == 0 then Failed else
      Ok(Wrap(Meaning(s[..n]), Pow(2, w)), s[n..])
  }

  /** The conversion to an unsigned type. */
  function Wrap(n: nat, modulus: nat): nat
    requires modulus > 0
  {
    n % modulus
  }

  method ReadVarInt(s: bytes, w: nat) returns (r: Parsed<nat>)
    requires w >= 7
    ensures r == Reading(s, w)
  {
    hide Accumulated, Pow, Meaning, Wrap;
    var n, k := 0, 0;
    var modulus := Pow(2, w);
    AccumulatedStep(s, 0);
    WrapUnique(0, modulus, 0, 0);
    while true
      invariant 0 <= k <= |s|
      invariant forall j :: 0 <= j < k ==> s[j] >= 128
      invariant n == Wrap(Accumulated(s[..k]), modulus)
      decreases |s| - k
    {
      if k == |s| { TermLengthAt(s, k); return Failed; }
      var chData := s[k];
      AccumulatedStep(s, k);
      ghost var acc := Accumulated(s[..k]);
      var digit: nat := chData % 128;
      WrapShift(acc, digit, modulus);
      n := Wrap(Wrap(n * 128, modulus) + digit, modulus);
      k := k + 1;
      if chData >= 128 {
        WrapAdd(acc * 128 + digit, 1, modulus);
        n := Wrap(n + 1, modulus);
      } else {
        TermLengthAt(s, k - 1);
        return Ok(n, s[k..]);
      }
    }
  }

  lemma WrapParts(n: nat, modulus: nat) returns (q: nat)
    requires modulus > 0
    ensures n == Wrap(n, modulus) + Times(modulus, q) && Wrap(n, modulus) < modulus
  {
    DivMod(n, modulus);
    q := n / modulus;
  }

  lemma WrapUnique(n: nat, modulus: nat, q: nat, r: nat)
    requires n == r + Times(modulus, q) && r < modulus
    ensures Wrap(n, modulus) == r
  {
    DivModUnique(n, modulus, q, r);
  }

  lemma WrapBelow(n: nat, modulus: nat)
    requires n < modulus
    ensures Wrap(n, modulus) == n
  {
  }

  lemma WrapAdd(n: nat, d: nat, modulus: nat)
    requires modulus > 0
    ensures Wrap(Wrap(n, modulus) + d, modulus) == Wrap(n + d, modulus)
  {
    hide Wrap, Times;
    var q := WrapParts(n, modulus);
    var q' := WrapParts(Wrap(n, modulus) + d, modulus);
    TimesLaws(modulus, q, q');
    WrapUnique(n + d, modulus, q + q', Wrap(Wrap(n, modulus) + d, modulus));
  }

  lemma WrapShift(n: nat, d: nat, modulus: nat)
    requires modulus > 0
    ensures Wrap(Wrap(Wrap(n, modulus) * 128, modulus) + d, modulus) == Wrap(n * 128 + d, modulus)
  {
    hide Wrap, Times;
    var q := WrapParts(n, modulus);
    var q' := WrapParts(Wrap(n, modulus) * 128, modulus);
    TimesLaws(modulus, q * 128, q');
    OneTwoEight(q);
    TimesLaws(modulus, 128, q);
    TimesLaws(128, modulus, q);
    OneTwoEight(Times(modulus, q));
    WrapUnique(n * 128, modulus, q * 128 + q', Wrap(Wrap(n, modulus) * 128, modulus));
    WrapAdd(n * 128, d, modulus);
  }

  lemma AccumulatedStep(s: bytes, k: nat)
    requires k <= |s|
    ensures k == 0 ==> Accumulated(s[..k]) == 0
    ensures k < |s| ==> Accumulated(s[..k + 1]) == Accumulated(s[..k]) * 128 + s[k] % 128 + 1
    ensures k < |s| ==> Meaning(s[..k + 1]) == Accumulated(s[..k]) * 128 + s[k] % 128
  {
    if k < |s| {
      assert s[..k + 1][..k] == s[..k];
      MeaningStep(s[..k + 1]);
    }
  }

  lemma {:induction false} TermLengthAt(s: bytes, k: nat)
    requires k <= |s| && forall j :: 0 <= j < k ==> s[j] >= 128
    ensures k == |s| ==> TermLength(s) == 0
    ensures k < |s| && s[k] < 128 ==> TermLength(s) == k + 1
  {
    if k > 0 { TermLengthAt(s[1..], k - 1); }
  }

  // ----- the round trip, and its limits -----

  /** Reading undoes writing and leaves the rest of the stream. */
  lemma WriteThenRead(n: nat, w: nat, rest: bytes)
    requires n < Pow(2, w)
    ensures Reading(Encode(n) + rest, w) == Ok(n, rest)
  {
    var r := Encode(n);
    EncodeMeaning(n);
    assert forall j :: 0 <= j < |r| ==> (r + rest)[j] == r[j];
    TermLengthAt(r + rest, |r| - 1);
    assert (r + rest)[..|r|] == r && (r + rest)[|r|..] == rest;
    hide Encode, Meaning, Pow;
    WrapBelow(n, Pow(2, w));
  }

  /** A number read is the one encoded exactly when that one fits the type. */
  lemma ReadExactly(a: bytes, w: nat, rest: bytes)
    requires IsTerminated(a)
    ensures Reading(a + rest, w) == Ok(Meaning(a), rest) <==> Meaning(a) < Pow(2, w)
  {
    assert forall j :: 0 <= j < |a| ==> (a + rest)[j] == a[j];
    TermLengthAt(a + rest, |a| - 1);
    assert (a + rest)[..|a|] == a && (a + rest)[|a|..] == rest;
    hide Meaning, Pow, Wrap;
    var q := WrapParts(Meaning(a), Pow(2, w));
    if Meaning(a) < Pow(2, w) { WrapBelow(Meaning(a), Pow(2, w)); }
  }

  /** No value on the way to the number exceeds it, so that nothing wraps when the
      number fits. */
  lemma {:induction false} IntermediatesAreSmaller(a: bytes, k: nat)
    requires IsTerminated(a) && k < |a|
    ensures Accumulated(a[..k]) <= Meaning(a)
    decreases |a| - k
  {
    hide Accumulated, Meaning;
    AccumulatedStep(a, k);
    if k == |a| - 1 {
      assert a[..k + 1] == a;
    } else {
      IntermediatesAreSmaller(a, k + 1);
    }
  }

  /** Two encodings that the documentation lists are not those of the numbers it gives. */
  lemma DocumentedExamples()
    ensures Encode(16511) == [0xff, 0x7f] && Encode(65535) == [0x82, 0xfe, 0x7f]
    ensures Meaning([0x80, 0xff, 0x7f]) != 16511 && Meaning([0x82, 0xfd, 0x7f]) != 65535
  {
    var a: bytes, b: bytes := [0xff, 0x7f], [0x82, 0xfe, 0x7f];
    Three(0x80, 0xff, 0x7f);
    Three(0x82, 0xfd, 0x7f);
    assert EncodeHigh(127) == [0xff];
    assert EncodeHigh(510) == EncodeHigh(2) + [0xfe] && EncodeHigh(2) == [0x82];
  }

  lemma Three(a: byte, b: byte, c: byte)
    ensures Meaning([a, b, c]) == ((a % 128 + 1) as int * 128 + b % 128 + 1) * 128 + c % 128
  {
    var s := [a, b, c];
    MeaningStep(s);
    assert s[..2] == [a, b] && [a, b][..1] == [a] && [a][..0] == [];
    AccumulatedStep([a, b], 1);
    AccumulatedStep([a], 0);
  }
}
