/** Powers of two and remainders. */
module Arithmetic {
  function Pow2(n: nat): (p: nat)
    ensures p >= 1
  {
    if n == 0 then 1 else 2 * Pow2(n - 1)
  }

  lemma OddTimesOdd(a: int, o: int)
    requires a % 2 == 1 && o % 2 == 1
    ensures (a * o) % 2 == 1
  {
    var x, y := a / 2, o / 2;
    assert a == 2 * x + 1 && o == 2 * y + 1;
    assert a * o == 2 * (2 * x * y + x + y) + 1;
  }

  /** An odd factor can be cancelled modulo a power of two. */
  lemma {:induction false} CancelOdd(n: nat, a: int, o: int, q: int) returns (r: int)
    requires o % 2 == 1 && a * o == q * Pow2(n)
    ensures a == r * Pow2(n)
    decreases n
  {
    if n == 0 {
      r := a;
    } else {
      var p := Pow2(n - 1);
      assert a * o == 2 * (q * p);
      if a % 2 == 1 { OddTimesOdd(a, o); }
      var b := a / 2;
      assert a == 2 * b;
      assert 2 * (b * o) == 2 * (q * p);
      r := CancelOdd(n - 1, b, o, q);
      assert a == r * (2 * p);
    }
  }

  lemma SameRemainder(x: int, y: int, m: nat)
    requires m > 0 && x % m == y % m
    ensures x - y == (x / m - y / m) * m
  {
  }

  lemma SmallMultiple(d: nat, r: int, m: nat)
    requires d == r * m && d < m
    ensures d == 0
  {
    if r >= 1 {
      TimesAtLeast(r, m);
    } else {
      assert r * m <= 0;
    }
  }

  lemma TimesAtLeast(r: int, m: nat)
    requires r >= 1
    ensures r * m >= m
  {
    assert r * m == (r - 1) * m + m;
  }

  lemma RemainderIs(x: int, m: nat, q: int, r: nat)
    requires m > 0 && x == m * q + r && r < m
    ensures x % m == r
  {
    var q', r' := x / m, x % m;
    assert x == m * q' + r';
    if r' >= r {
      assert r' - r == (q - q') * m;
      SmallMultiple(r' - r, q - q', m);
    } else {
      assert r - r' == (q' - q) * m;
      SmallMultiple(r - r', q' - q, m);
    }
  }

  lemma Twice(x: nat, p: nat)
    ensures x * (2 * p) == 2 * (x * p)
  {
  }

  lemma {:induction false} PowSum(a: nat, b: nat)
    ensures Pow2(a) * Pow2(b) == Pow2(a + b)
    decreases b
  {
    if b > 0 {
      PowSum(a, b - 1);
      Twice(Pow2(a), Pow2(b - 1));
    }
  }

  lemma WordRange()
    ensures Pow2(32) == 0x1_0000_0000
  {
    assert Pow2(8) == 256;
    PowSum(8, 8);
    PowSum(16, 16);
  }
}
