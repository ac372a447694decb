/** Powers and positional numerals, least significant digit first: the arithmetic
    behind byte strings, Base58 text and multi-limb integers. */
module Numerals {

  function Pow(b: nat, e: nat): (r: nat)
    ensures b > 0 ==> r > 0
  {
    if e == 0 then 1 else Times(b, Pow(b, e - 1))
  }

  /** Multiplication behind a name, so that its laws are applied where they are meant. */
  function Times(a: int, b: int): (r: int)
    ensures a >= 0 && b >= 0 ==> r >= 0
    ensures a > 0 && b > 0 ==> r > 0
  {
    a * b
  }

  lemma {:induction false} TimesLaws(a: int, b: int, c: int)
    ensures Times(a, b) == Times(b, a)
    ensures Times(a, Times(b, c)) == Times(Times(a, b), c)
    ensures Times(a, b + c) == Times(a, b) + Times(a, c)
    ensures Times(a, b - c) == Times(a, b) - Times(a, c)
    ensures Times(1, a) == a && Times(0, a) == 0
  {
  }

  lemma {:induction false} TimesMonotone(a: nat, b: nat, c: nat)
    requires b <= c
    ensures Times(a, b) <= Times(a, c)
  {
    var d := c - b;
    assert Times(a, c) == Times(a, b) + Times(a, d);
  }

  lemma {:induction false} PowAdd(b: nat, m: nat, n: nat)
    ensures Pow(b, m + n) == Times(Pow(b, m), Pow(b, n))
  {
    hide Times;
    if m == 0 {
      TimesLaws(Pow(b, n), 0, 0);
    } else {
      PowAdd(b, m - 1, n);
      TimesLaws(b, Pow(b, m - 1), Pow(b, n));
    }
  }

  lemma {:induction false} PowMul(b: nat, m: nat, n: nat)
    ensures Pow(Pow(b, m), n) == Pow(b, Times(m, n))
  {
    hide Times;
    if n > 0 {
      PowMul(b, m, n - 1);
      TimesLaws(m, n - 1, 1);
      TimesLaws(1, m, 0);
      TimesLaws(m, 1, 0);
      PowAdd(b, m, Times(m, n - 1));
    } else {
      TimesLaws(m, 0, 0);
    }
  }

  lemma {:induction false} PowMonotone(b: nat, m: nat, n: nat)
    requires b > 0 && m <= n
    ensures Pow(b, m) <= Pow(b, n)
  {
    hide Times;
    if m < n {
      PowMonotone(b, m, n - 1);
      TimesMonotone(Pow(b, n - 1), 1, b);
      TimesLaws(b, Pow(b, n - 1), 1);
      TimesLaws(Pow(b, n - 1), 1, 0);
    }
  }

  lemma {:induction false} PowBaseMonotone(a: nat, b: nat, n: nat)
    requires a <= b
    ensures Pow(a, n) <= Pow(b, n)
  {
    hide Times;
    if n > 0 {
      PowBaseMonotone(a, b, n - 1);
      TimesMonotone(a, Pow(a, n - 1), Pow(b, n - 1));
      TimesLaws(a, Pow(b, n - 1), 0);
      TimesMonotone(Pow(b, n - 1), a, b);
      TimesLaws(b, Pow(b, n - 1), 0);
    }
  }

  lemma {:induction false} PowBaseStrict(a: nat, b: nat, n: nat)
    requires a < b && n > 0
    ensures Pow(a, n) < Pow(b, n)
  {
    hide Times;
    PowBaseMonotone(a, b, n - 1);
    TimesMonotone(a, Pow(a, n - 1), Pow(b, n - 1));
    TimesLaws(a, Pow(b, n - 1), 0);
    TimesLaws(b, Pow(b, n - 1), 0);
    TimesMonotone(Pow(b, n - 1), a + 1, b);
    TimesLaws(Pow(b, n - 1), a, 1);
    TimesLaws(1, Pow(b, n - 1), 0);
  }

  // ----- numerals -----

  ghost predicate Digital(base: nat, ds: seq<nat>) {
    forall k :: 0 <= k < |ds| ==> ds[k] < base
  }

  function Val(base: nat, ds: seq<nat>): nat {
    if ds == [] then 0 else ds[0] + Times(base, Val(base, ds[1..]))
  }

  lemma {:induction false} ValAppend(base: nat, a: seq<nat>, b: seq<nat>)
    ensures Val(base, a + b) == Val(base, a) + Times(Pow(base, |a|), Val(base, b))
  {
    hide Times;
    if a == [] {
      assert a + b == b;
      TimesLaws(Val(base, b), 0, 0);
    } else {
      assert (a + b)[1..] == a[1..] + b;
      ValAppend(base, a[1..], b);
      TimesLaws(base, Val(base, a[1..]), Times(Pow(base, |a| - 1), Val(base, b)));
      TimesLaws(base, Pow(base, |a| - 1), Val(base, b));
    }
  }

  lemma {:induction false} ValOne(base: nat, d: nat)
    ensures Val(base, [d]) == d
  {
    hide Times;
    assert [d][1..] == [];
    TimesLaws(base, 0, 0);
  }

  /** The next digit of a numeral. */
  lemma {:induction false} ValSnoc(base: nat, ds: seq<nat>, d: nat)
    ensures Val(base, ds + [d]) == Val(base, ds) + Times(Pow(base, |ds|), d)
  {
    hide Times;
    ValAppend(base, ds, [d]);
    ValOne(base, d);
  }

  lemma {:induction false} ValBound(base: nat, ds: seq<nat>)
    requires Digital(base, ds)
    ensures Val(base, ds) < Pow(base, |ds|)
  {
    hide Times;
    if ds != [] {
      ValBound(base, ds[1..]);
      TimesMonotone(base, Val(base, ds[1..]) + 1, Pow(base, |ds| - 1));
      TimesLaws(base, Val(base, ds[1..]), 1);
      TimesLaws(base, 1, 0);
      TimesLaws(1, base, 0);
    }
  }

  /** A numeral's last digit is its value's remainder, and the others its quotient. */
  lemma {:induction false} ValDivMod(base: nat, d: nat, v: nat)
    requires d < base
    ensures (d + Times(base, v)) % base == d && (d + Times(base, v)) / base == v
  {
    hide Times;
    DivModUnique(d + Times(base, v), base, v, d);
  }

  lemma {:induction false} DivModUnique(n: nat, b: nat, q: nat, r: nat)
    requires n == r + Times(b, q) && r < b
    ensures n / b == q && n % b == r
  {
    hide Times;
    var q', r' := n / b, n % b;
    DivMod(n, b);
    if q' < q {
      TimesMonotone(b, q' + 1, q);
      TimesLaws(b, q', 1);
      TimesLaws(1, b, 0);
    } else if q < q' {
      TimesMonotone(b, q + 1, q');
      TimesLaws(b, q, 1);
      TimesLaws(1, b, 0);
    }
  }

  lemma {:induction false} ValInjective(base: nat, a: seq<nat>, b: seq<nat>)
    requires Digital(base, a) && Digital(base, b) && |a| == |b| && Val(base, a) == Val(base, b)
    ensures a == b
  {
    if a != [] {
      ValDivMod(base, a[0], Val(base, a[1..]));
      ValDivMod(base, b[0], Val(base, b[1..]));
      ValInjective(base, a[1..], b[1..]);
      assert a == [a[0]] + a[1..] && b == [b[0]] + b[1..];
    }
  }

  /** Most significant digit first. */
  function Reverse(ds: seq<nat>): (r: seq<nat>)
    ensures |r| == |ds| && forall k :: 0 <= k < |ds| ==> r[k] == ds[|ds| - 1 - k]
  {
    seq(|ds|, k requires 0 <= k < |ds| => ds[|ds| - 1 - k])
  }

  lemma {:induction false} ReverseTwice(ds: seq<nat>)
    ensures Reverse(Reverse(ds)) == ds
  {
  }

  function Zeros(n: nat): (r: seq<nat>)
    ensures |r| == n && forall k :: 0 <= k < n ==> r[k] == 0
  {
    seq(n, _ => 0)
  }

  lemma {:induction false} ValZeros(base: nat, n: nat)
    ensures Val(base, Zeros(n)) == 0
  {
    hide Times;
    if n > 0 {
      assert Zeros(n)[1..] == Zeros(n - 1);
      ValZeros(base, n - 1);
      TimesLaws(base, 0, 0);
    }
  }

  // ----- the shortest numeral -----

  function Digits(base: nat, n: nat): (ds: seq<nat>)
    requires base > 1
    ensures Digital(base, ds) && IsShortest(ds)
  {
    if n == 0 then [] else DivLess(n, base); [n % base] + Digits(base, n / base)
  }

  lemma {:induction false} DivLess(n: nat, base: nat)
    requires n > 0 && base > 1
    ensures n / base < n
    ensures n % base == 0 ==> n / base > 0
  {
    hide Times;
    DivMod(n, base);
    TimesMonotone(n / base, 2, base);
    TimesLaws(base, n / base, 0);
    TimesLaws(n / base, 1, 1);
    TimesLaws(1, n / base, 0);
    TimesLaws(base, 0, 0);
  }

  lemma {:induction false} DivMod(n: nat, base: nat)
    requires base > 0
    ensures n == n % base + Times(base, n / base)
  {
  }

  ghost predicate IsShortest(ds: seq<nat>) {
    ds == [] || ds[|ds| - 1] != 0
  }

  lemma {:induction false} DigitsStep(base: nat, n: nat)
    requires base > 1 && n > 0
    ensures Digits(base, n) == [n % base] + Digits(base, n / base) && n / base < n
  {
    DivLess(n, base);
  }

  lemma {:induction false} ValDigits(base: nat, n: nat)
    requires base > 1
    ensures Val(base, Digits(base, n)) == n
  {
    if n > 0 {
      DivLess(n, base);
      ValDigits(base, n / base);
      assert Digits(base, n)[1..] == Digits(base, n / base);
      DivMod(n, base);
    }
  }

  lemma {:induction false} DigitsVal(base: nat, ds: seq<nat>)
    requires base > 1 && Digital(base, ds) && IsShortest(ds)
    ensures Digits(base, Val(base, ds)) == ds
  {
    if ds != [] {
      DigitsVal(base, ds[1..]);
      ValDivMod(base, ds[0], Val(base, ds[1..]));
      assert ds == [ds[0]] + ds[1..];
    }
  }

  /** A shortest numeral of a positive value is as long as the value is large. */
  lemma {:induction false} DigitsLength(base: nat, n: nat)
    requires base > 1 && n > 0
    ensures Digits(base, n) != [] && Pow(base, |Digits(base, n)| - 1) <= n < Pow(base, |Digits(base, n)|)
  {
    hide Times;
    var ds := Digits(base, n);
    ValDigits(base, n);
    ValBound(base, ds);
    var m := |ds| - 1;
    assert ds == ds[..m] + [ds[m]];
    ValSnoc(base, ds[..m], ds[m]);
    TimesMonotone(Pow(base, m), 1, ds[m]);
    TimesLaws(Pow(base, m), 1, 0);
  }

  // ----- numerals of a given length -----

  function Fixed(base: nat, n: nat, len: nat): (ds: seq<nat>)
    requires base > 0
    ensures |ds| == len && Digital(base, ds)
    decreases len
  {
    if len == 0 then [] else [n % base] + Fixed(base, n / base, len - 1)
  }

  lemma {:induction false} ValFixed(base: nat, n: nat, len: nat)
    requires base > 0 && n < Pow(base, len)
    ensures Val(base, Fixed(base, n, len)) == n
    decreases len
  {
    hide Times;
    if len > 0 {
      var q := n / base;
      DivMod(n, base);
      if q >= Pow(base, len - 1) { TimesMonotone(base, Pow(base, len - 1), q); }
      ValFixed(base, q, len - 1);
      assert Fixed(base, n, len)[1..] == Fixed(base, q, len - 1);
    }
  }

  lemma {:induction false} FixedVal(base: nat, ds: seq<nat>)
    requires base > 0 && Digital(base, ds)
    ensures Val(base, ds) < Pow(base, |ds|) && Fixed(base, Val(base, ds), |ds|) == ds
  {
    ValBound(base, ds);
    ValFixed(base, Val(base, ds), |ds|);
    ValInjective(base, Fixed(base, Val(base, ds), |ds|), ds);
  }
}
