/** CBigNum: an integer held by OpenSSL, and its sign-magnitude byte strings. The
    BIGNUM functions BN_mpi2bn and BN_bn2mpi are modelled by their byte format. */
module BigNumber {
  import opened Numerals
  import opened Bytes

  /** The integer that a little-endian byte string denotes: the top bit of the last
      byte is the sign, the rest the magnitude. */
  function FromVch(v: bytes): int {
    if v == [] then 0
    else
      var m := |v| - 1;
      var magnitude := Val(256, v[..m] + [v[m] % 128]);
      if v[m] >= 128 then 0 - magnitude as int else magnitude
  }

  function Magnitude(n: int): nat {
    if n < 0 then -n else n
  }

  /** The shortest byte string that denotes the integer. */
  function ToVch(n: int): (v: bytes) {
    if n == 0 then []
    else
      var ds := Digits(256, Magnitude(n));
      DigitsLength(256, Magnitude(n));
      var m := |ds| - 1;
      var sign := if n < 0 then 128 else 0;
      if ds[m] >= 128 then ds + [sign] else ds[..m] + [ds[m] + sign]
  }

  ghost predicate IsMinimal(v: bytes) {
    v == [] || v[|v| - 1] % 128 != 0 || (|v| >= 2 && v[|v| - 2] >= 128)
  }

  lemma FromToVch(n: int)
    ensures FromVch(ToVch(n)) == n
    ensures IsMinimal(ToVch(n))
  {
    hide Digits, Val, Pow, Times;
    if n != 0 {
      var ds := Digits(256, Magnitude(n));
      ValDigits(256, Magnitude(n));
      DigitsLength(256, Magnitude(n));
      var m := |ds| - 1;
      var v := ToVch(n);
      if ds[m] >= 128 {
        ValSnoc(256, ds, 0);
        TimesLaws(Pow(256, |ds|), 0, 0);
        assert v[..|v| - 1] + [v[|v| - 1] % 128] == ds + [0];
      } else {
        assert v[..|v| - 1] + [v[|v| - 1] % 128] == ds;
      }
    }
  }

  /** A byte string survives the trip through an integer exactly when it is minimal. */
  lemma ToFromVch(v: bytes)
    ensures ToVch(FromVch(v)) == v <==> IsMinimal(v)
  {
    FromToVch(FromVch(v));
    if IsMinimal(v) && v != [] { MinimalRoundTrip(v); }
  }

  /** The digits of the magnitude: with the sign bit off, or without a byte that
      holds only the sign. */
  lemma MinimalDigits(v: bytes)
    requires IsMinimal(v) && v != []
    ensures var m := |v| - 1;
      Digits(256, Magnitude(FromVch(v))) == if v[m] % 128 != 0 then v[..m] + [v[m] % 128] else v[..m]
  {
    hide Digits;
    var m := |v| - 1;
    if v[m] % 128 != 0 {
      DigitsVal(256, v[..m] + [v[m] % 128]);
    } else {
      ValSnoc(256, v[..m], 0);
      TimesLaws(Pow(256, m), 0, 0);
      DigitsVal(256, v[..m]);
    }
  }

  lemma MinimalRoundTrip(v: bytes)
    requires IsMinimal(v) && v != []
    ensures ToVch(FromVch(v)) == v
  {
    hide Digits, FromVch;
    var m := |v| - 1;
    MinimalDigits(v);
    MinimalSign(v);
    assert v == v[..m] + [v[m]];
  }

  lemma MinimalSign(v: bytes)
    requires IsMinimal(v) && v != []
    ensures var n := FromVch(v);
      n != 0 && (n < 0 <==> v[|v| - 1] >= 128)
  {
    hide Val;
    MinimalDigits(v);
    if FromVch(v) == 0 { DigitsZero(); }
  }

  lemma DigitsZero()
    ensures Digits(256, 0) == []
  {
  }

  // ----- the MPI format: a 4-byte big-endian length, then big-endian bytes -----

  function Mpi(n: int): bytes {
    Reversed(LE(|ToVch(n)|, 4)) + Reversed(ToVch(n))
  }

  function FromMpi(d: bytes): int
    requires |d| >= 4 && FromLE(Reversed(d[..4])) == |d| - 4
  {
    FromVch(Reversed(d[4..]))
  }

  class BigNum {
    var value: int

    constructor (value: int)
      ensures this.value == value
    {
      this.value := value;
    }

    method SetVch(vch: bytes)
      requires |vch| < 0x1_0000_0000
      modifies this
      ensures value == FromVch(vch)
    {
      var size := |vch|;
      var header: bytes := [size / 0x100_0000 % 256, size / 0x1_0000 % 256, size / 0x100 % 256, size % 256];
      var vch2 := header + Reversed(vch);
      FourBytes(size);
      assert vch2[..4] == header && Reversed(header) == LE(size, 4);
      assert FromLE(Reversed(vch2[..4])) == FromLE(LE(size, 4)) == |vch2| - 4;
      assert vch2[4..] == Reversed(vch) && Reversed(Reversed(vch)) == vch;
      value := FromMpi(vch2);
    }

    method GetVch() returns (vch: bytes)
      ensures vch == ToVch(value)
    {
      var mpi := Mpi(value);
      if |mpi| <= 4 { return []; }
      vch := mpi[4..];
      assert vch == Reversed(ToVch(value));
      ReversedLaws(ToVch(value), []);
      vch := Reversed(vch);
    }
  }
}
