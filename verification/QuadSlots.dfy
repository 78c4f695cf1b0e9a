/** The slot computations of quadratic_probing_hashmap.c with the types of the C code: hash codes
    are cut to 32 bits, get computes with `unsigned int`, put and remove with `int`. */
module QuadSlots {
  import opened Arithmetic
  import opened Common
  import opened Probing

  /** Where a probe leads: a slot of the table, or an index or an overflow outside of the language. */
  datatype Probe = Slot(s: nat) | Outside

  function Signed(h: nat): (x: int)
    ensures -INT_MAX - 1 <= x <= INT_MAX
  {
    AsInt(Wrap(h))
  }

  function Offset(i: nat): nat {
    i / 2 + i * i / 2
  }

  /** The remainder of C, which has the sign of the dividend. */
  function Truncated(x: int, m: nat): int
    requires m > 0
  {
    if x >= 0 then x % m else -(-x % m)
  }

  /** Probe `i` of get. */
  function GetProbe(h: nat, i: nat, size: nat): Probe
    requires size > 0
  {
    if INT_MAX < i * i then Outside else Slot((h % WORD + Offset(i)) % WORD % size)
  }

  /** Probe `i` of put and of remove. */
  function PutProbe(h: nat, i: nat, size: nat): Probe
    requires size > 0
  {
    var sum := Signed(h) + Offset(i);
    if INT_MAX < i * i || INT_MAX < sum || Truncated(sum, size) < 0 then Outside
    else Slot(Truncated(sum, size))
  }

  // ---------------------------------------------------------------------------------
  // Remainders

  lemma Congruent(x: int, y: int, m: nat, c: int)
    requires m > 0 && x - y == m * c
    ensures x % m == y % m
  {
    var q, r := y / m, y % m;
    assert y == m * q + r;
    assert m * (c + q) == m * c + m * q;
    RemainderIs(x, m, c + q, r);
  }

  /** A table size divides the number of words. */
  lemma SizeDivides(n: nat) returns (c: nat)
    requires n <= 32
    ensures WORD == Pow2(n) * c
  {
    PowSum(n, 32 - n);
    WordRange();
    c := Pow2(32 - n);
  }

  /** Numbers that differ by whole words lead to the same slot. */
  lemma SameSlot(x: int, y: int, q: int, n: nat)
    requires n <= 32 && x - y == WORD * q
    ensures x % Pow2(n) == y % Pow2(n)
  {
    hide Pow2;
    var c := SizeDivides(n);
    Regroup(Pow2(n), c, q);
    Congruent(x, y, Pow2(n), c * q);
  }

  lemma Regroup(m: int, c: int, q: int)
    ensures m * (c * q) == m * c * q
  {
  }

  lemma TruncatedIs(x: int, m: nat)
    requires m > 0
    ensures Truncated(x, m) >= 0 ==> Truncated(x, m) == x % m
    ensures Truncated(x, m) < 0 <==> x < 0 && x % m != 0
  {
    if x < 0 {
      var q, r := -x / m, -x % m;
      assert -x == m * q + r;
      if r == 0 {
        assert m * -q == -(m * q);
        RemainderIs(x, m, -q, 0);
      } else {
        assert m * (-q - 1) == -(m * q) - m;
        RemainderIs(x, m, -q - 1, m - r);
      }
    }
  }

  // ---------------------------------------------------------------------------------
  // What the probes are

  /** Without an overflow of `i * i`, get computes the probe sequence for every hash code. */
  lemma GetProbeIs(h: nat, i: nat, n: nat)
    requires n <= 32
    ensures GetProbe(h, i, Pow2(n)).Outside? <==> INT_MAX < i * i
    ensures i * i <= INT_MAX ==> GetProbe(h, i, Pow2(n)) == Slot(Quadratic(h, i, Pow2(n)))
  {
    var x := h % WORD + Offset(i);
    SameSlot(x % WORD, x, -(x / WORD), n);
    SameSlot(x, h + Offset(i), -(h / WORD), n);
  }

  /**
   * Put and remove compute the same probe exactly when nothing overflows and the sum is not negative or is a
   * multiple of the size; otherwise the index is negative or the sum undefined.
   */
  lemma PutProbeIs(h: nat, i: nat, n: nat)
    requires n <= 32
    ensures var sum := Signed(h) + Offset(i);
      PutProbe(h, i, Pow2(n)).Slot? <==> i * i <= INT_MAX && sum <= INT_MAX && (0 <= sum || sum % Pow2(n) == 0)
    ensures PutProbe(h, i, Pow2(n)).Slot? ==> PutProbe(h, i, Pow2(n)) == Slot(Quadratic(h, i, Pow2(n)))
  {
    var sum := Signed(h) + Offset(i);
    TruncatedIs(sum, Pow2(n));
    var q := (Signed(h) - h % WORD) / WORD - h / WORD;
    assert Signed(h) - h == WORD * q;
    SameSlot(sum, h + Offset(i), q, n);
  }

  /** Where put stays inside the table it looks where get looks. */
  lemma ProbesAgree(h: nat, i: nat, n: nat)
    requires n <= 32 && PutProbe(h, i, Pow2(n)).Slot?
    ensures GetProbe(h, i, Pow2(n)) == PutProbe(h, i, Pow2(n))
  {
    PutProbeIs(h, i, n);
    GetProbeIs(h, i, n);
  }

  /** The hash code is not negative as an `int`, and the probes of one round stay below the overflow. */
  predicate Fits(h: nat, size: nat) {
    0 <= Signed(h) && Signed(h) + Offset(size) <= INT_MAX && size * size <= INT_MAX
  }

  lemma OffsetGrows(i: nat, j: nat)
    requires i <= j
    ensures i * i <= j * j && Offset(i) <= Offset(j)
  {
    assert i * i <= i * j <= j * j;
  }

  /** A hash code fits a table if and only if all probes of one round stay inside it. */
  lemma FitsExactly(h: nat, n: nat)
    requires 2 <= n <= 32
    ensures Fits(h, Pow2(n)) <==> forall i: nat :: i <= Pow2(n) ==> PutProbe(h, i, Pow2(n)).Slot?
  {
    var size := Pow2(n);
    if Fits(h, size) {
      forall i: nat | i <= size ensures PutProbe(h, i, size).Slot? { FitsInside(h, i, n); }
    } else if forall i: nat :: i <= size ==> PutProbe(h, i, size).Slot? {
      PutProbeIs(h, size, n);
      assert PutProbe(h, 0, size).Slot? && PutProbe(h, 2, size).Slot?;
      NegativeLeaves(h, n);
    }
  }

  lemma FitsInside(h: nat, i: nat, n: nat)
    requires n <= 32 && Fits(h, Pow2(n)) && i <= Pow2(n)
    ensures PutProbe(h, i, Pow2(n)) == GetProbe(h, i, Pow2(n)) == Slot(Quadratic(h, i, Pow2(n)))
  {
    OffsetGrows(i, Pow2(n));
    PutProbeIs(h, i, n);
    GetProbeIs(h, i, n);
  }

  /** A negative slot leaves a table of four slots or more by the third probe. */
  lemma NegativeLeaves(h: nat, n: nat)
    requires 2 <= n <= 32 && Signed(h) < 0
    ensures PutProbe(h, 0, Pow2(n)).Outside? || PutProbe(h, 2, Pow2(n)).Outside?
  {
    PutProbeIs(h, 0, n);
    PutProbeIs(h, 2, n);
    assert Pow2(n) == 4 * Pow2(n - 2);
    assert Offset(0) == 0 && Offset(2) == 3;
    hide PutProbe, Signed, Pow2;
    if Signed(h) % Pow2(n) == 0 { ThreeAbove(Signed(h), Pow2(n)); }
  }

  lemma ThreeAbove(s: int, m: nat)
    requires s < 0 && m >= 4 && s % m == 0
    ensures s + 3 < 0 && (s + 3) % m != 0
  {
    assert s == m * (s / m);
    SmallMultipleAbove(s, s / m, m);
    RemainderIs(s + 3, m, s / m, 3);
  }

  lemma SmallMultipleAbove(s: int, q: int, m: nat)
    requires s < 0 && s == m * q
    ensures s + m <= 0
  {
    if -s < m {
      assert -s == -q * m;
      SmallMultiple(-s, -q, m);
    }
  }

  /** Hash code 0x80000001 in a table of four slots: put looks at index -3, get at slot 1. */
  lemma HighBitLeaves()
    ensures Truncated(Signed(0x8000_0001), 4) == -3
    ensures PutProbe(0x8000_0001, 0, 4) == Outside && GetProbe(0x8000_0001, 0, 4) == Slot(1)
  {
  }
}
