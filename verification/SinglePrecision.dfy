/** Conversion of counters to the C type `float`, by which the hash tables decide to grow. */
module SinglePrecision {
  import opened Arithmetic

  /** The distance of neighbouring floats around `x`: 24 bits are significant. */
  function Unit(x: nat): (u: nat)
    ensures u >= 1
  {
    if x < 0x100_0000 then 1 else 2 * Unit(x / 2)
  }

  /** The float nearest to `x`; of two equally near ones, the one with an even significand. */
  function AsFloat(x: nat): nat {
    var u := Unit(x);
    var q, r := x / u, x % u;
    if 2 * r < u || (2 * r == u && q % 2 == 0) then q * u else (q + 1) * u
  }

  /** The quotient of the floats is not below one half. */
  predicate HalfUsed(used: nat, size: nat) {
    2 * AsFloat(used) >= size
  }

  lemma SmallExact(x: nat)
    requires x < 0x100_0000
    ensures AsFloat(x) == x
  {
  }

  lemma Significand()
    ensures Pow2(23) == 0x80_0000 && Pow2(24) == 0x100_0000
  {
    assert Pow2(4) == 16;
    hide Pow2;
    PowSum(4, 4);
    PowSum(8, 4);
    PowSum(12, 12);
    Doubled(23);
  }

  lemma Doubled(m: nat)
    ensures Pow2(m + 1) == 2 * Pow2(m)
  {
  }

  lemma {:induction false} UnitIs(x: nat, m: nat)
    requires m >= 23 && Pow2(m) <= x < Pow2(m + 1)
    ensures Unit(x) == Pow2(m - 23)
    decreases m
  {
    Significand();
    if m == 23 {
      assert Pow2(0) == 1;
    } else {
      PowersGrow(24, m);
      Doubled(m - 1);
      Doubled(m);
      Doubled(m - 24);
      UnitIs(x / 2, m - 1);
    }
  }

  lemma {:induction false} PowersGrow(a: nat, b: nat)
    requires a <= b
    ensures Pow2(a) <= Pow2(b)
    decreases b
  {
    if a < b { PowersGrow(a, b - 1); }
  }

  /** The significand and the remainder of a number between two powers of two. */
  lemma Split(x: nat, m: nat) returns (u: nat, q: nat, r: nat)
    requires m >= 23 && Pow2(m) <= x < Pow2(m + 1)
    ensures u == Unit(x) == Pow2(m - 23) && x == u * q + r && r < u && q < 0x100_0000
    ensures AsFloat(x) == if 2 * r < u || (2 * r == u && q % 2 == 0) then u * q else u * q + u
    ensures Pow2(m + 1) == u * 0x100_0000
  {
    hide Pow2, Unit;
    UnitIs(x, m);
    u := Unit(x);
    q, r := x / u, x % u;
    Rounded(x);
    Significand();
    PowSum(m - 23, 24);
    if q >= 0x100_0000 { TimesMonotone(u, 0x100_0000, q); }
  }

  lemma Rounded(x: nat)
    ensures var u := Unit(x);
            var q, r := x / u, x % u;
            && x == u * q + r && r < u
            && AsFloat(x) == if 2 * r < u || (2 * r == u && q % 2 == 0) then u * q else u * q + u
  {
    hide Unit;
    var u := Unit(x);
    var q, r := x / u, x % u;
    assert x == u * q + r;
    assert (q + 1) * u == u * q + u && q * u == u * q;
  }

  /** A multiple of the unit, no other one being nearer; 24 bits hold it. */
  lemma Nearest(x: nat, k: nat)
    ensures var d := if x <= AsFloat(x) then AsFloat(x) - x else x - AsFloat(x);
      && AsFloat(x) % Unit(x) == 0 && 2 * d <= Unit(x)
      && (Unit(x) * k <= x ==> d <= x - Unit(x) * k) && (x <= Unit(x) * k ==> d <= Unit(x) * k - x)
  {
    Rounded(x);
    hide AsFloat, Unit;
    var u := Unit(x);
    var q, r := x / u, x % u;
    assert u * q + u == u * (q + 1);
    RemainderIs(u * q, u, q, 0);
    RemainderIs(u * (q + 1), u, q + 1, 0);
    if k <= q { TimesMonotone(u, k, q); } else { TimesMonotone(u, q + 1, k); }
  }

  lemma TimesMonotone(u: nat, a: nat, b: nat)
    requires a <= b
    ensures u * a <= u * b
    ensures a < b ==> u * a + u <= u * b
  {
    assert u * b == u * a + u * (b - a);
    if a < b { TimesAtLeast(b - a, u); }
  }

  lemma PowerExact(n: nat)
    ensures AsFloat(Pow2(n)) == Pow2(n)
  {
    Significand();
    if n <= 23 {
      PowersGrow(n, 23);
      SmallExact(Pow2(n));
    } else {
      Doubled(n);
      hide AsFloat, Unit;
      var u, q, r := Split(Pow2(n), n);
      hide Pow2;
      PowSum(n - 23, 23);
      assert u * q + r == u * 0x80_0000;
      SameQuotient(u, q, r, 0x80_0000);
    }
  }

  lemma SameQuotient(u: nat, q: nat, r: nat, p: nat)
    requires r < u && u * q + r == u * p
    ensures q == p && r == 0
  {
    if q < p {
      TimesMonotone(u, q, p);
    } else {
      TimesMonotone(u, p, q);
    }
  }

  /** How far below one half the rounded quotient reaches it, in a table of `Pow2(n)` slots. */
  function Slack(n: nat): nat {
    if n < 26 then 0 else Pow2(n - 26)
  }

  /** Up to a size of 2^25 the quotient is exact. Larger tables count as half used slightly before they are. */
  lemma HalfUsedWhen(used: nat, n: nat)
    requires n >= 1 && 2 * used <= Pow2(n)
    ensures HalfUsed(used, Pow2(n)) <==> Pow2(n) <= 2 * (used + Slack(n))
  {
    Doubled(n - 1);
    if used == Pow2(n - 1) {
      PowerExact(n - 1);
    } else if n < 26 {
      PowersGrow(n - 1, 24);
      Significand();
      SmallExact(used);
    } else if used < Pow2(n - 2) {
      Doubled(n - 2);
      FarBelow(used, n);
    } else {
      Doubled(n - 2);
      NearHalf(used, n);
    }
  }

  lemma AtMostTwice(x: nat)
    ensures AsFloat(x) <= 2 * x
  {
    if x < 0x100_0000 {
      SmallExact(x);
    } else {
      UnitSmall(x);
      Rounded(x);
    }
  }

  lemma {:induction false} UnitSmall(x: nat)
    requires x > 0
    ensures Unit(x) <= x
  {
    if x >= 0x100_0000 { UnitSmall(x / 2); }
  }

  lemma FarBelow(used: nat, n: nat)
    requires n >= 26 && used < Pow2(n - 2)
    ensures !HalfUsed(used, Pow2(n)) && 2 * (used + Slack(n)) < Pow2(n)
  {
    AtMostTwice(used);
    PowersGrow(n - 26, n - 2);
    Doubled(n - 1);
    Doubled(n - 2);
  }

  lemma NearHalf(used: nat, n: nat)
    requires n >= 26 && Pow2(n - 2) <= used < Pow2(n - 1)
    ensures HalfUsed(used, Pow2(n)) <==> Pow2(n) <= 2 * (used + Slack(n))
  {
    Doubled(n - 1);
    Doubled(n - 26);
    hide AsFloat, Unit, Pow2;
    var u, q, r := Split(used, n - 2);
    assert u == 2 * Slack(n) && Pow2(n - 1) == u * 0x100_0000;
    if q < 0xFF_FFFF {
      TimesMonotone(u, q, 0xFF_FFFF);
      assert u * 0x100_0000 == u * 0xFF_FFFF + u;
    } else {
      assert q == 0xFF_FFFF && u * 0x100_0000 == u * 0xFF_FFFF + u;
    }
  }

  /** A table of 2^26 slots counts as half used one slot early. */
  lemma GrowsEarly()
    ensures HalfUsed(Pow2(25) - 1, Pow2(26))
  {
    Doubled(25);
    assert Pow2(0) == 1;
    hide HalfUsed, Pow2;
    HalfUsedWhen(Pow2(25) - 1, 26);
  }
}
