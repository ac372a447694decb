/** base_uint: an unsigned integer of a fixed number of bits, as limbs of 32 bits, least
    significant first. */
module BaseUint {
  import opened Numerals

  const BASE: nat := 0x1_0000_0000

  type limb = n: nat | n < 0x1_0000_0000

  // ----- limbs as a number -----

  lemma LimbsBound(s: seq<limb>)
    ensures Val(BASE, s) < Pow(BASE, |s|)
  {
    ValBound(BASE, s);
  }

  /** 2^BITS, for a width in limbs. */
  lemma ModulusIsPowerOfTwo(width: nat)
    ensures Pow(BASE, width) == Pow(2, 32 * width)
  {
    PowTwo32();
    PowMul(2, 32, width);
    TimesLaws(32, width, 0);
    assert Times(32, width) == 32 * width;
  }

  lemma PowTwo32()
    ensures Pow(2, 32) == BASE
  {
    assert Pow(2, 8) == 256;
    PowAdd(2, 8, 8);
    PowAdd(2, 16, 16);
  }

  lemma {:induction false} MaxVal(s: seq<limb>)
    requires forall k :: 0 <= k < |s| ==> s[k] == BASE - 1
    ensures Val(BASE, s) + 1 == Pow(BASE, |s|)
  {
    hide Times;
    if s != [] {
      MaxVal(s[1..]);
      TimesLaws(BASE, Val(BASE, s[1..]), 1);
      TimesLaws(1, BASE, 0);
      TimesLaws(BASE, 1, 0);
    }
  }

  lemma {:induction false} ZeroVal(s: seq<limb>)
    requires forall k :: 0 <= k < |s| ==> s[k] == 0
    ensures Val(BASE, s) == 0
  {
    ValZeros(BASE, |s|);
    assert s == Zeros(|s|);
  }

  lemma {:induction false} ComplementVal(s: seq<limb>, t: seq<limb>)
    requires |s| == |t| && forall k :: 0 <= k < |s| ==> s[k] as nat + t[k] == BASE - 1
    ensures Val(BASE, s) + Val(BASE, t) + 1 == Pow(BASE, |s|)
  {
    hide Times;
    if s != [] {
      ComplementVal(s[1..], t[1..]);
      var v, w := Val(BASE, s[1..]), Val(BASE, t[1..]);
      TimesLaws(BASE, v, w);
      TimesLaws(BASE, v + w, 1);
      TimesLaws(1, BASE, 0);
      TimesLaws(BASE, 1, 0);
    }
  }

  /** A number is its low limbs and its high limbs. */
  lemma Split(s: seq<limb>, i: nat)
    requires i <= |s|
    ensures Val(BASE, s) == Val(BASE, s[..i]) + Times(Pow(BASE, i), Val(BASE, s[i..]))
  {
    ValAppend(BASE, s[..i], s[i..]);
    assert s == s[..i] + s[i..];
  }

  lemma Middle(s: seq<limb>, i: nat)
    requires i < |s|
    ensures Val(BASE, s) == Val(BASE, s[..i]) + Times(Pow(BASE, i), s[i] + Times(BASE, Val(BASE, s[i + 1..])))
  {
    hide Times;
    Split(s, i);
    assert s[i..][1..] == s[i + 1..];
  }

  lemma ModOf(n: nat, m: nat, r: nat)
    requires r < m && (n == r || n == r + m)
    ensures n % m == r
  {
    TimesLaws(m, 0, 0);
    TimesLaws(1, m, 0);
    TimesLaws(m, 1, 0);
    if n == r { DivModUnique(n, m, 0, r); } else { DivModUnique(n, m, 1, r); }
  }

  // ----- addition -----

  /** Adding limb by limb so far: the sum's low limbs and the carry. */
  ghost predicate Added(a: seq<limb>, b: seq<limb>, sum: seq<limb>, i: nat, carry: nat)
    requires i <= |a| == |b| == |sum|
  {
    Val(BASE, sum[..i]) + Times(Pow(BASE, i), carry) == Val(BASE, a[..i]) + Val(BASE, b[..i])
  }

  lemma AddedStep(a: seq<limb>, b: seq<limb>, sum: seq<limb>, i: nat, carry: nat)
    requires i < |a| == |b| == |sum| && Added(a, b, sum, i, carry)
    ensures var n: nat := carry + a[i] + b[i]; Added(a, b, sum[i := n % BASE], i + 1, n / BASE)
  {
    hide Times, Val;
    var n: nat := carry + a[i] + b[i];
    var p := Pow(BASE, i);
    var sum' := sum[i := n % BASE];
    assert sum'[..i + 1] == sum[..i] + [n % BASE] && a[..i + 1] == a[..i] + [a[i]] && b[..i + 1] == b[..i] + [b[i]];
    ValSnoc(BASE, sum[..i], n % BASE);
    ValSnoc(BASE, a[..i], a[i]);
    ValSnoc(BASE, b[..i], b[i]);
    TimesLaws(p, a[i], b[i]);
    TimesLaws(p, carry, a[i] as nat + b[i]);
    CarryOut(i, n);
  }

  lemma CarryOut(i: nat, n: nat)
    ensures Times(Pow(BASE, i), n % BASE) + Times(Pow(BASE, i + 1), n / BASE) == Times(Pow(BASE, i), n)
  {
    hide Times;
    var p := Pow(BASE, i);
    NextPow(i);
    DivMod(n, BASE);
    TimesLaws(p, BASE, n / BASE);
    TimesLaws(p, n % BASE, Times(BASE, n / BASE));
  }

  lemma NextPow(i: nat)
    ensures Pow(BASE, i + 1) == Times(Pow(BASE, i), BASE)
  {
    TimesLaws(BASE, Pow(BASE, i), 0);
  }

  lemma AddedAll(a: seq<limb>, b: seq<limb>, sum: seq<limb>, carry: nat)
    requires |a| == |b| == |sum| && Added(a, b, sum, |a|, carry) && carry <= 1
    ensures Val(BASE, sum) == (Val(BASE, a) + Val(BASE, b)) % Pow(BASE, |a|)
  {
    hide Val, Times, Pow;
    assert a[..|a|] == a && b[..|b|] == b && sum[..|sum|] == sum;
    LimbsBound(sum);
    var m := Pow(BASE, |a|);
    assert Times(m, carry) == if carry == 0 then 0 else m by {
      TimesLaws(m, 0, 0);
      TimesLaws(0, m, 0);
      TimesLaws(1, m, 0);
      TimesLaws(m, 1, 0);
    }
    hide Added;
    ModOf(Val(BASE, a) + Val(BASE, b), m, Val(BASE, sum));
  }

  // ----- one more, one less -----

  /** Limbs that differ by a carry through the lowest `i` of them. */
  lemma Carried(s: seq<limb>, t: seq<limb>, i: nat)
    requires i < |s| == |t|
    requires forall k :: 0 <= k < i ==> s[k] == BASE - 1 && t[k] == 0
    requires t[i] == (s[i] + 1) % BASE && t[i + 1..] == s[i + 1..]
    requires t[i] != 0 || i == |s| - 1
    ensures Val(BASE, t) == (Val(BASE, s) + 1) % Pow(BASE, |s|)
    ensures Val(BASE, s) == (Val(BASE, t) + Pow(BASE, |s|) - 1) % Pow(BASE, |s|)
  {
    hide Times, Val, Pow;
    LimbsBound(s);
    LimbsBound(t);
    if t[i] != 0 {
      CarriedInside(s, t, i);
    } else {
      MaxVal(s);
      ZeroVal(t);
    }
    var m := Pow(BASE, |s|);
    ModOf(Val(BASE, s) + 1, m, Val(BASE, t));
    ModOf(Val(BASE, t) + m - 1, m, Val(BASE, s));
  }

  lemma CarriedInside(s: seq<limb>, t: seq<limb>, i: nat)
    requires i < |s| == |t|
    requires forall k :: 0 <= k < i ==> s[k] == BASE - 1 && t[k] == 0
    requires t[i] as nat == s[i] as nat + 1 && t[i + 1..] == s[i + 1..]
    ensures Val(BASE, t) == Val(BASE, s) + 1
  {
    hide Times, Val, Pow;
    var p, rest := Pow(BASE, i), Times(BASE, Val(BASE, s[i + 1..]));
    Middle(s, i);
    Middle(t, i);
    MaxVal(s[..i]);
    ZeroVal(t[..i]);
    TimesLaws(p, s[i] + rest, 1);
    TimesLaws(1, p, 0);
    TimesLaws(p, 1, 0);
  }

  // ----- comparison -----

  lemma SameLimbs(a: seq<limb>, b: seq<limb>)
    requires |a| == |b|
    ensures Val(BASE, a) == Val(BASE, b) <==> a == b
  {
    hide Val;
    if Val(BASE, a) == Val(BASE, b) { ValInjective(BASE, a, b); }
  }

  /** The highest limb that differs decides. */
  lemma TopDecides(a: seq<limb>, b: seq<limb>, i: nat)
    requires i < |a| == |b| && (forall k :: i < k < |a| ==> a[k] == b[k]) && a[i] < b[i]
    ensures Val(BASE, a) < Val(BASE, b)
  {
    hide Times, Val;
    assert a[i + 1..] == b[i + 1..];
    var p, rest := Pow(BASE, i), Times(BASE, Val(BASE, a[i + 1..]));
    Middle(a, i);
    Middle(b, i);
    LimbsBound(a[..i]);
    TimesLaws(p, a[i] + rest, 1);
    TimesLaws(1, p, 0);
    TimesLaws(p, 1, 0);
    TimesMonotone(p, a[i] + rest + 1, b[i] + rest);
  }

  // ----- shifting -----

  /** Bitwise or. */
  function Or(x: nat, y: nat): nat {
    if x == 0 && y == 0 then 0
    else 2 * Or(x / 2, y / 2) + (if x % 2 == 1 || y % 2 == 1 then 1 else 0)
  }

  /** Numbers with no bit in common: a multiple of 2^s and one below 2^s. */
  lemma {:induction false} DisjointOr(x: nat, y: nat, s: nat)
    requires y < Pow(2, s)
    ensures Or(Times(Pow(2, s), x), y) == Or(y, Times(Pow(2, s), x)) == Times(Pow(2, s), x) + y
  {
    hide Times;
    if s == 0 {
      assert Pow(2, 0) == 1;
      TimesLaws(x, 0, 0);
      OrZero(x);
    } else {
      var n := Times(Pow(2, s - 1), x);
      DoubleTimes(s, x);
      DoublePow(s);
      DisjointOr(x, y / 2, s - 1);
      assert Times(Pow(2, s), x) == 2 * n;
      assert 2 * n / 2 == n && 2 * n % 2 == 0;
      OrStep(2 * n, y);
      OrStep(y, 2 * n);
    }
  }

  lemma OrStep(x: nat, y: nat)
    ensures Or(x, y) == 2 * Or(x / 2, y / 2) + (if x % 2 == 1 || y % 2 == 1 then 1 else 0)
  {
    if x == 0 && y == 0 { assert Or(0, 0) == 0; }
  }

  lemma {:induction false} OrZero(x: nat)
    ensures Or(x, 0) == Or(0, x) == x
  {
    if x > 0 { OrZero(x / 2); }
  }

  lemma DoublePow(s: nat)
    requires s > 0
    ensures Pow(2, s) == 2 * Pow(2, s - 1)
  {
  }

  lemma DoubleTimes(s: nat, x: nat)
    requires s > 0
    ensures Times(Pow(2, s), x) == 2 * Times(Pow(2, s - 1), x)
  {
    TimesLaws(2, Pow(2, s - 1), x);
  }

  /** A limb shifted left by less than its width: what stays in the limb, and what goes
      to the next. */
  function Shl(d: limb, s: nat): limb
    requires s < 32
  {
    Times(Pow(2, s), d) % 0x1_0000_0000
  }

  function High(d: limb, s: nat): (h: limb)
    requires s < 32
    ensures h < Pow(2, s)
  {
    ShiftParts(d, s);
    Times(Pow(2, s), d) / 0x1_0000_0000
  }

  lemma ShiftParts(d: limb, s: nat)
    requires s < 32
    ensures Times(Pow(2, s), d) / 0x1_0000_0000 < Pow(2, s) <= 0x1_0000_0000
  {
    hide Times;
    var p := Pow(2, s);
    PowTwo32();
    PowMonotone(2, s, 32);
    TimesMonotone(p, d + 1, BASE);
    TimesLaws(p, d, 1);
    TimesLaws(1, p, 0);
    TimesLaws(p, 1, 0);
    var n := Times(p, d);
    TimesLaws(p, BASE, 0);
    QuotientBelow(n, p);
  }

  lemma QuotientBelow(n: nat, p: nat)
    requires n < Times(BASE, p)
    ensures n / BASE < p
  {
  }

  /** The limbs of a number shifted left by less than a limb: one more than it has. */
  function Shifted(a: seq<limb>, s: nat, carry: limb): (r: seq<limb>)
    requires s < 32 && carry < Pow(2, s)
    ensures |r| == |a| + 1
  {
    if a == [] then [carry]
    else
      ShiftParts(a[0], s);
      LowFits(a[0], s, carry);
      [Shl(a[0], s) + carry] + Shifted(a[1..], s, High(a[0], s))
  }

  /** What stays in a limb is a multiple of 2^s. */
  lemma LowMultiple(d: limb, s: nat) returns (x: nat)
    requires s < 32
    ensures Shl(d, s) == Times(Pow(2, s), x) && x < Pow(2, 32 - s)
  {
    hide Times, Pow;
    var p, q := Pow(2, s), Pow(2, 32 - s);
    PowTwo32();
    PowAdd(2, s, 32 - s);
    var k, r := Parts(d, q);
    x := r;
    TimesLaws(p, x, Times(q, k));
    TimesLaws(p, q, k);
    BelowProduct(p, q, x);
    DivModUnique(Times(p, d), BASE, k, Times(p, x));
  }

  lemma Parts(n: nat, q: nat) returns (k: nat, r: nat)
    requires q > 0
    ensures n == r + Times(q, k) && r < q
  {
    DivMod(n, q);
    k, r := n / q, n % q;
  }

  lemma BelowProduct(p: nat, q: nat, x: nat)
    requires x < q && p > 0
    ensures Times(p, x) + p <= Times(p, q)
  {
    hide Times;
    TimesMonotone(p, x + 1, q);
    TimesLaws(p, x, 1);
    TimesLaws(1, p, 0);
    TimesLaws(p, 1, 0);
  }

  /** What stays in a limb leaves room for what comes from the limb below. */
  lemma LowFits(d: limb, s: nat, carry: limb)
    requires s < 32 && carry < Pow(2, s)
    ensures Shl(d, s) as nat + carry < BASE
    ensures Or(Shl(d, s), carry) == Or(carry, Shl(d, s)) == Shl(d, s) as nat + carry
  {
    hide Times, Pow, Shl, Or;
    var x := LowMultiple(d, s);
    PowTwo32();
    PowAdd(2, s, 32 - s);
    BelowProduct(Pow(2, s), Pow(2, 32 - s), x);
    DisjointOr(x, carry, s);
  }

  lemma {:induction false} ShiftedVal(a: seq<limb>, s: nat, carry: limb)
    requires s < 32 && carry < Pow(2, s)
    ensures Val(BASE, Shifted(a, s, carry)) == Times(Pow(2, s), Val(BASE, a)) + carry
  {
    hide Times, Shl, High, Pow;
    var p := Pow(2, s);
    if a == [] {
      ValOne(BASE, carry);
      TimesLaws(p, 0, 0);
      TimesLaws(0, p, 0);
    } else {
      ShiftParts(a[0], s);
      LowFits(a[0], s, carry);
      ShiftedVal(a[1..], s, High(a[0], s));
      var v, rest := Val(BASE, a[1..]), Shifted(a[1..], s, High(a[0], s));
      assert Shifted(a, s, carry)[1..] == rest;
      TimesLaws(p, a[0], Times(BASE, v));
      TimesLaws(p, BASE, v);
      TimesLaws(BASE, p, v);
      TimesLaws(BASE, Times(p, v), High(a[0], s));
      LowHigh(a[0], s);
    }
  }

  lemma LowHigh(d: limb, s: nat)
    requires s < 32
    ensures Shl(d, s) + Times(BASE, High(d, s)) == Times(Pow(2, s), d)
  {
    DivMod(Times(Pow(2, s), d), BASE);
  }

  // ----- the limbs after a shift -----

  /** A limb shifted right. */
  function Shr(d: limb, s: nat): (r: limb)
    requires s < 32
  {
    ShrBelow(d, Pow(2, s));
    d / Pow(2, s)
  }

  lemma ShrBelow(d: limb, p: nat)
    requires p > 0
    ensures 0 <= d / p <= d
  {
    hide Times;
    DivMod(d, p);
    TimesMonotone(d / p, 1, p);
    TimesLaws(d / p, 1, 0);
    TimesLaws(d / p, p, 0);
    TimesLaws(d / p, 0, 0);
  }

  /** What leaves a limb on the left is what is left of it after the complementary
      shift to the right. */
  lemma HighIsShr(d: limb, s: nat)
    requires 0 < s < 32
    ensures High(d, s) == Shr(d, 32 - s)
  {
    hide Times, Pow;
    var p, q := Pow(2, s), Pow(2, 32 - s);
    PowTwo32();
    PowAdd(2, s, 32 - s);
    var k, x := Parts(d, q);
    TimesLaws(p, x, Times(q, k));
    TimesLaws(p, q, k);
    BelowProduct(p, q, x);
    DivModUnique(Times(p, d), BASE, k, Times(p, x));
    DivModUnique(d, q, k, x);
  }

  lemma ShiftByNone(d: limb)
    ensures High(d, 0) == 0 && Shl(d, 0) == d && Shr(d, 0) == d
  {
    hide Times;
    assert Pow(2, 0) == 1;
    TimesLaws(d, 0, 0);
  }

  lemma {:induction false} ShiftedAt(a: seq<limb>, s: nat, carry: limb, j: nat)
    requires s < 32 && carry < Pow(2, s) && j <= |a|
    ensures Shifted(a, s, carry)[j]
      == (if j < |a| then Shl(a[j], s) else 0) as nat + (if j == 0 then carry else High(a[j - 1], s))
  {
    hide Pow, Times, Shl, High;
    if j > 0 { ShiftedAt(a[1..], s, High(a[0], s), j - 1); }
  }

  /** Limb `j` of the number shifted left by `k` limbs and `s` bits. */
  function LeftLimb(a: seq<limb>, k: nat, s: nat, j: nat): nat
    requires s < 32 && j < |a|
  {
    if j < k then 0 else Shl(a[j - k], s) as nat + (if j == k then 0 else High(a[j - k - 1], s))
  }

  lemma LeftValue(a: seq<limb>, k: nat, s: nat, t: seq<limb>)
    requires s < 32 && |t| == |a| && forall j :: 0 <= j < |a| ==> t[j] == LeftLimb(a, k, s, j)
    ensures Val(BASE, t) == Times(Pow(2, 32 * k + s), Val(BASE, a)) % Pow(BASE, |a|)
  {
    hide Val, Times, Pow, Shifted, Shl, High;
    var goal: seq<limb> := Zeros(k) + Shifted(a, s, 0);
    forall j | 0 <= j < |a| ensures t[j] == goal[j] {
      if j >= k { ShiftedAt(a, s, 0, j - k); }
    }
    assert goal[..|a|] == t;
    Split(goal, |a|);
    LimbsBound(t);
    DivModUnique(Val(BASE, goal), Pow(BASE, |a|), Val(BASE, goal[|a|..]), Val(BASE, t));
    ValAppend(BASE, Zeros(k), Shifted(a, s, 0));
    ValZeros(BASE, k);
    ShiftedVal(a, s, 0);
    WholeShift(k, s);
    TimesLaws(Pow(BASE, k), Pow(2, s), Val(BASE, a));
  }

  lemma WholeShift(k: nat, s: nat)
    ensures Pow(2, 32 * k + s) == Times(Pow(BASE, k), Pow(2, s))
  {
    ModulusIsPowerOfTwo(k);
    PowAdd(2, 32 * k, s);
  }

  /** Limb `j` of the number shifted right by `k` limbs and `s` bits. */
  function RightLimb(a: seq<limb>, k: nat, s: nat, j: nat): nat
    requires s < 32
  {
    if j + k >= |a| then 0
    else Shr(a[j + k], s) as nat + (if s == 0 || j + k + 1 >= |a| then 0 else Shl(a[j + k + 1], 32 - s))
  }

  /** The limbs that are left, without the zeros above them. */
  lemma RightLimbs(a: seq<limb>, s: nat, t: seq<limb>)
    requires s < 32 && |t| == |a| && forall j :: 0 <= j < |a| ==> t[j] == RightLimb(a, 0, s, j)
    ensures Val(BASE, t) == Val(BASE, a) / Pow(2, s)
  {
    hide Val, Times, Pow, Shifted, Shl, High, Shr;
    if s == 0 {
      assert Pow(2, 0) == 1 by { PowNone(); }
      forall j | 0 <= j < |a| ensures t[j] == a[j] { ShiftByNone(a[j]); }
      assert t == a;
    } else {
      var s' := 32 - s;
      var all := Shifted(a, s', 0);
      forall j | 0 <= j < |a| ensures t[j] == all[1..][j] {
        ShiftedAt(a, s', 0, j + 1);
        HighIsShr(a[j], s');
      }
      assert t == all[1..];
      ShiftedVal(a, s', 0);
      FirstLimb(all);
      QuotientByParts(Val(BASE, a), s, all[0], Val(BASE, t));
    }
  }

  lemma PowNone()
    ensures Pow(2, 0) == 1
  {
  }

  lemma FirstLimb(s: seq<limb>)
    requires s != []
    ensures Val(BASE, s) == s[0] + Times(BASE, Val(BASE, s[1..]))
  {
  }

  lemma QuotientByParts(n: nat, s: nat, low: nat, v: nat)
    requires 0 < s < 32 && Times(Pow(2, 32 - s), n) == low + Times(BASE, v) && low < BASE
    ensures n / Pow(2, s) == v
  {
    hide Times, Pow;
    var p, q := Pow(2, 32 - s), Pow(2, s);
    PowTwo32();
    PowAdd(2, 32 - s, s);
    var k, x := Parts(n, q);
    TimesLaws(p, x, Times(q, k));
    TimesLaws(p, q, k);
    BelowProduct(p, q, x);
    DivModUnique(Times(p, n), BASE, k, Times(p, x));
    DivModUnique(Times(p, n), BASE, v, low);
    DivModUnique(n, q, k, x);
  }

  lemma RightValue(a: seq<limb>, k: nat, s: nat, t: seq<limb>)
    requires s < 32 && |t| == |a| && forall j :: 0 <= j < |a| ==> t[j] == RightLimb(a, k, s, j)
    ensures Pow(2, 32 * k + s) > 0 && Val(BASE, t) == Val(BASE, a) / Pow(2, 32 * k + s)
  {
    hide Val, Times, Pow, Shl, High, Shr;
    WholeShift(k, s);
    if k >= |a| {
      ZeroVal(t);
      LimbsBound(a);
      PowMonotone(BASE, |a|, k);
      TimesMonotone(Pow(BASE, k), 1, Pow(2, s));
      TimesLaws(Pow(BASE, k), 1, 0);
      TimesLaws(1, Pow(BASE, k), 0);
      TimesLaws(Pow(2, 32 * k + s), 0, 0);
      DivModUnique(Val(BASE, a), Pow(2, 32 * k + s), 0, Val(BASE, a));
    } else {
      var b, n := a[k..], |a| - k;
      RightLimbs(b, s, t[..n]);
      Split(t, n);
      ZeroVal(t[n..]);
      TimesLaws(Pow(BASE, n), 0, 0);
      Split(a, k);
      LimbsBound(a[..k]);
      QuotientOfQuotient(Val(BASE, a), Val(BASE, a[..k]), Val(BASE, b), k, s);
    }
  }

  lemma QuotientOfQuotient(n: nat, low: nat, high: nat, k: nat, s: nat)
    requires n == low + Times(Pow(BASE, k), high) && low < Pow(BASE, k)
    ensures n / Pow(2, 32 * k + s) == high / Pow(2, s)
  {
    hide Times, Pow;
    var p, q := Pow(BASE, k), Pow(2, s);
    WholeShift(k, s);
    var v, x := Parts(high, q);
    TimesLaws(p, x, Times(q, v));
    TimesLaws(p, q, v);
    BelowProduct(p, q, x);
    DivModUnique(n, Times(p, q), v, low + Times(p, x));
    DivModUnique(high, q, v, x);
  }

  // ----- the class -----

  class BaseUint {
    const pn: array<limb>

    ghost predicate Valid()
    {
      pn.Length >= 2
    }

    ghost function Value(): nat
      reads pn
    {
      Val(BASE, pn[..])
    }

    /** 2^BITS. */
    ghost function Modulus(): nat {
      Pow(BASE, pn.Length)
    }

    constructor (width: nat)
      requires width >= 2
      ensures fresh(pn) && Valid() && pn.Length == width && Value() == 0
    {
      pn := new limb[width](i => 0);
      new;
      ZeroVal(pn[..]);
    }

    constructor Copy(a: BaseUint)
      requires a.Valid()
      ensures fresh(pn) && Valid() && pn.Length == a.pn.Length && pn[..] == a.pn[..]
    {
      var src := a.pn;
      pn := new limb[src.Length](i requires 0 <= i < src.Length reads src => src[i]);
      new;
    }

    method AddAssign(b: BaseUint)
      requires Valid() && b.Valid() && b.pn.Length == pn.Length
      modifies pn
      ensures Value() == (old(Value()) + old(b.Value())) % Modulus()
    {
      hide Val, Times, Added;
      ghost var x, y := pn[..], b.pn[..];
      var carry: nat := 0;
      AddedNone(x, y, pn[..]);
      for i := 0 to pn.Length
        invariant carry <= 1 && Added(x, y, pn[..], i, carry)
        invariant pn[i..] == x[i..] && b.pn[i..] == y[i..]
      {
        var n: nat := carry + pn[i] + b.pn[i];
        assert pn[i] == pn[i..][0] == x[i] && b.pn[i] == b.pn[i..][0] == y[i];
        AddedStep(x, y, pn[..], i, carry);
        ghost var was := pn[..];
        pn[i] := n % 0x1_0000_0000;
        assert pn[..] == was[i := pn[i]];
        assert pn[i + 1..] == x[i..][1..] && b.pn[i + 1..] == y[i..][1..];
        carry := n / 0x1_0000_0000;
      }
      AddedAll(x, y, pn[..], carry);
    }

    method Increment()
      requires Valid()
      modifies pn
      ensures Value() == (old(Value()) + 1) % Modulus()
    {
      hide Val;
      ghost var x := pn[..];
      var i := 0;
      while true
        invariant 0 <= i < pn.Length && pn[i..] == x[i..]
        invariant forall k :: 0 <= k < i ==> x[k] == BASE - 1 && pn[k] == 0
        decreases pn.Length - i
      {
        assert pn[i] == pn[i..][0] == x[i];
        pn[i] := if pn[i] == 0xffff_ffff then 0 else pn[i] + 1;
        assert pn[i + 1..] == x[i..][1..] == x[i + 1..];
        if !(pn[i] == 0 && i < pn.Length - 1) { break; }
        i := i + 1;
      }
      Carried(x, pn[..], i);
    }

    method Decrement()
      requires Valid()
      modifies pn
      ensures Value() == (old(Value()) + Modulus() - 1) % Modulus()
    {
      hide Val;
      ghost var x := pn[..];
      var i := 0;
      while true
        invariant 0 <= i < pn.Length && pn[i..] == x[i..]
        invariant forall k :: 0 <= k < i ==> pn[k] == BASE - 1 && x[k] == 0
        decreases pn.Length - i
      {
        assert pn[i] == pn[i..][0] == x[i];
        pn[i] := if pn[i] == 0 then 0xffff_ffff else pn[i] - 1;
        assert pn[i + 1..] == x[i..][1..] == x[i + 1..];
        if !(pn[i] == 0xffff_ffff && i < pn.Length - 1) { break; }
        i := i + 1;
      }
      if x[i] != 0 || i == pn.Length - 1 { Carried(pn[..], x, i); } else { assert false; }
    }

    method Negated() returns (ret: BaseUint)
      requires Valid()
      ensures fresh(ret) && fresh(ret.pn) && ret.Valid() && ret.pn.Length == pn.Length
      ensures ret.Value() == (Modulus() - Value()) % Modulus()
    {
      hide Val;
      ret := new BaseUint(pn.Length);
      for i := 0 to pn.Length
        invariant forall k :: 0 <= k < i ==> ret.pn[k] == 0xffff_ffff - pn[k]
      {
        ret.pn[i] := 0xffff_ffff - pn[i];
      }
      ComplementVal(pn[..], ret.pn[..]);
      ret.Increment();
    }

    method SubtractAssign(b: BaseUint)
      requires Valid() && b.Valid() && b.pn.Length == pn.Length
      modifies pn
      ensures Value() == (old(Value()) + Modulus() - old(b.Value())) % Modulus()
    {
      hide Val;
      LimbsBound(b.pn[..]);
      LimbsBound(pn[..]);
      var neg := b.Negated();
      AddNegated(Value(), b.Value(), Modulus());
      AddAssign(neg);
    }

    method ShiftLeftAssign(shift0: nat)
      requires Valid() && shift0 < 0x1_0000_0000
      modifies pn
      ensures Value() == Times(Pow(2, shift0), old(Value())) % Modulus()
    {
      hide Val, Times, Pow, Shl, High, Shr, Or;
      var a := new BaseUint.Copy(this);
      ghost var x := pn[..];
      for i := 0 to pn.Length
        invariant a.pn[..] == x
        invariant forall j :: 0 <= j < i ==> pn[j] == 0
      {
        pn[i] := 0;
      }
      var k, shift := shift0 / 32, shift0 % 32;
      for i := 0 to pn.Length
        invariant a.pn[..] == x
        invariant forall j :: 0 <= j < pn.Length ==> pn[j] == LeftSoFar(x, k, shift, i, j)
      {
        assert a.pn[i] == a.pn[..][i] == x[i];
        LeftStep(x, k, shift, i);
        if i + k + 1 < pn.Length && shift != 0 {
          pn[i + k + 1] := OrLimb(pn[i + k + 1], Shr(a.pn[i], 32 - shift));
        }
        if i + k < pn.Length {
          pn[i + k] := OrLimb(pn[i + k], Shl(a.pn[i], shift));
        }
      }
      LeftValue(x, k, shift, pn[..]);
      assert shift0 == 32 * k + shift;
    }

    method ShiftRightAssign(shift0: nat)
      requires Valid() && shift0 < 0x1_0000_0000
      modifies pn
      ensures Pow(2, shift0) > 0 && Value() == old(Value()) / Pow(2, shift0)
    {
      hide Val, Times, Pow, Shl, High, Shr, Or;
      var a := new BaseUint.Copy(this);
      ghost var x := pn[..];
      for i := 0 to pn.Length
        invariant a.pn[..] == x
        invariant forall j :: 0 <= j < i ==> pn[j] == 0
      {
        pn[i] := 0;
      }
      var k, shift := shift0 / 32, shift0 % 32;
      for i := 0 to pn.Length
        invariant a.pn[..] == x
        invariant forall j :: 0 <= j < pn.Length ==> pn[j] == RightSoFar(x, k, shift, i, j)
      {
        assert a.pn[i] == a.pn[..][i] == x[i];
        RightStep(x, k, shift, i);
        if i - k - 1 >= 0 && shift != 0 {
          pn[i - k - 1] := OrLimb(pn[i - k - 1], Shl(a.pn[i], 32 - shift));
        }
        if i - k >= 0 {
          pn[i - k] := OrLimb(pn[i - k], Shr(a.pn[i], shift));
        }
      }
      RightValue(x, k, shift, pn[..]);
      assert shift0 == 32 * k + shift;
    }

    method Less(b: BaseUint) returns (r: bool)
      requires Valid() && b.Valid() && b.pn.Length == pn.Length
      ensures r <==> Value() < b.Value()
    {
      hide Val;
      var i := pn.Length - 1;
      while i >= 0
        invariant -1 <= i < pn.Length && forall k :: i < k < pn.Length ==> pn[k] == b.pn[k]
      {
        if pn[i] < b.pn[i] {
          TopDecides(pn[..], b.pn[..], i);
          return true;
        } else if pn[i] > b.pn[i] {
          TopDecides(b.pn[..], pn[..], i);
          return false;
        }
        i := i - 1;
      }
      assert pn[..] == b.pn[..];
      return false;
    }

    method LessOrEqual(b: BaseUint) returns (r: bool)
      requires Valid() && b.Valid() && b.pn.Length == pn.Length
      ensures r <==> Value() <= b.Value()
    {
      hide Val;
      var i := pn.Length - 1;
      while i >= 0
        invariant -1 <= i < pn.Length && forall k :: i < k < pn.Length ==> pn[k] == b.pn[k]
      {
        if pn[i] < b.pn[i] {
          TopDecides(pn[..], b.pn[..], i);
          return true;
        } else if pn[i] > b.pn[i] {
          TopDecides(b.pn[..], pn[..], i);
          return false;
        }
        i := i - 1;
      }
      assert pn[..] == b.pn[..];
      return true;
    }

    method Greater(b: BaseUint) returns (r: bool)
      requires Valid() && b.Valid() && b.pn.Length == pn.Length
      ensures r <==> Value() > b.Value()
    {
      hide Val;
      var i := pn.Length - 1;
      while i >= 0
        invariant -1 <= i < pn.Length && forall k :: i < k < pn.Length ==> pn[k] == b.pn[k]
      {
        if pn[i] > b.pn[i] {
          TopDecides(b.pn[..], pn[..], i);
          return true;
        } else if pn[i] < b.pn[i] {
          TopDecides(pn[..], b.pn[..], i);
          return false;
        }
        i := i - 1;
      }
      assert pn[..] == b.pn[..];
      return false;
    }

    method GreaterOrEqual(b: BaseUint) returns (r: bool)
      requires Valid() && b.Valid() && b.pn.Length == pn.Length
      ensures r <==> Value() >= b.Value()
    {
      hide Val;
      var i := pn.Length - 1;
      while i >= 0
        invariant -1 <= i < pn.Length && forall k :: i < k < pn.Length ==> pn[k] == b.pn[k]
      {
        if pn[i] > b.pn[i] {
          TopDecides(b.pn[..], pn[..], i);
          return true;
        } else if pn[i] < b.pn[i] {
          TopDecides(pn[..], b.pn[..], i);
          return false;
        }
        i := i - 1;
      }
      assert pn[..] == b.pn[..];
      return true;
    }

    method Equal(b: BaseUint) returns (r: bool)
      requires Valid() && b.Valid() && b.pn.Length == pn.Length
      ensures r <==> Value() == b.Value()
    {
      hide Val;
      for i := 0 to pn.Length
        invariant forall k :: 0 <= k < i ==> pn[k] == b.pn[k]
      {
        if pn[i] != b.pn[i] {
          SameLimbs(pn[..], b.pn[..]);
          assert pn[..][i] != b.pn[..][i];
          return false;
        }
      }
      assert pn[..] == b.pn[..];
      return true;
    }
  }

  lemma AddedNone(a: seq<limb>, b: seq<limb>, sum: seq<limb>)
    requires |a| == |b| == |sum|
    ensures Added(a, b, sum, 0, 0)
  {
    TimesLaws(Pow(BASE, 0), 0, 0);
    assert a[..0] == [] && b[..0] == [] && sum[..0] == [];
  }

  lemma AddNegated(a: nat, b: nat, m: nat)
    requires a < m && b < m
    ensures (a + (m - b) % m) % m == (a + m - b) % m
  {
    if b == 0 {
      ModOf(m, m, 0);
      ModOf(a, m, a);
      ModOf(a + m, m, a);
    } else {
      ModOf(m - b, m, m - b);
    }
  }

  /** Bitwise or of two limbs. */
  function OrLimb(x: limb, y: limb): limb {
    PowTwo32();
    OrBelow(x, y, 32);
    Or(x, y)
  }

  lemma {:induction false} OrBelow(x: nat, y: nat, s: nat)
    requires x < Pow(2, s) && y < Pow(2, s)
    ensures Or(x, y) < Pow(2, s)
  {
    if s > 0 {
      DoublePow(s);
      OrBelow(x / 2, y / 2, s - 1);
      OrStep(x, y);
    }
  }

  /** The limbs in the course of shifting left, before limb `i` is shifted. */
  function LeftSoFar(a: seq<limb>, k: nat, s: nat, i: nat, j: nat): nat
    requires s < 32 && i <= |a| && j < |a|
  {
    if j < i + k then LeftLimb(a, k, s, j) else if j == i + k && i > 0 then High(a[i - 1], s) else 0
  }

  lemma LeftStep(a: seq<limb>, k: nat, s: nat, i: nat)
    requires s < 32 && i < |a|
    ensures i + k + 1 < |a| ==>
      OrLimb(0, if s == 0 then 0 else Shr(a[i], 32 - s)) == LeftSoFar(a, k, s, i + 1, i + k + 1)
    ensures i + k < |a| ==>
      LeftSoFar(a, k, s, i, i + k) < BASE && OrLimb(LeftSoFar(a, k, s, i, i + k), Shl(a[i], s)) == LeftLimb(a, k, s, i + k)
    ensures s == 0 && i + k + 1 < |a| ==> LeftSoFar(a, k, s, i + 1, i + k + 1) == 0
  {
    hide Shl, High, Shr, Or, Pow, Times;
    if s == 0 { ShiftByNone(a[i]); } else { HighIsShr(a[i], s); }
    OrZero(High(a[i], s));
    LowFits(a[i], s, if i > 0 then High(a[i - 1], s) else 0);
  }

  /** The limbs in the course of shifting right, before limb `i` is shifted. */
  function RightSoFar(a: seq<limb>, k: nat, s: nat, i: nat, j: nat): nat
    requires s < 32 && i <= |a|
  {
    if j + k + 1 < i then RightLimb(a, k, s, j) else if j + k + 1 == i then Shr(a[i - 1], s) else 0
  }

  lemma RightStep(a: seq<limb>, k: nat, s: nat, i: nat)
    requires s < 32 && i < |a|
    ensures i >= k + 1 ==>
      OrLimb(Shr(a[i - 1], s), if s == 0 then 0 else Shl(a[i], 32 - s)) == RightLimb(a, k, s, i - k - 1)
    ensures i >= k ==> OrLimb(0, Shr(a[i], s)) == Shr(a[i], s)
    ensures s == 0 && i >= k + 1 ==> RightLimb(a, k, s, i - k - 1) == Shr(a[i - 1], s)
    ensures i == |a| - 1 && i >= k ==> RightLimb(a, k, s, i - k) == Shr(a[i], s)
  {
    hide Shl, High, Shr, Or, Pow, Times;
    OrZero(Shr(a[i], s));
    if i > 0 {
      OrZero(Shr(a[i - 1], s));
      if s > 0 {
        HighIsShr(a[i - 1], 32 - s);
        LowFits(a[i], 32 - s, High(a[i - 1], 32 - s));
      }
    }
  }
}
