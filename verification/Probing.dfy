/** Number theory of open addressing in a table of 2^n slots: both probe sequences of the
    repository's hash tables reach every slot. */
module Probing {
  import opened Arithmetic

  // ---------------------------------------------------------------------------------
  // An injection of 0..m into itself is onto

  predicate Injective(s: seq<nat>) {
    forall i, j :: 0 <= i < j < |s| ==> s[i] != s[j]
  }

  function Range(m: nat): set<nat> {
    if m == 0 then {} else Range(m - 1) + {m - 1}
  }

  lemma {:induction false} RangeSize(m: nat)
    ensures |Range(m)| == m
  {
    if m > 0 {
      RangeSize(m - 1);
      InRange(m - 1, m - 1);
    }
  }

  lemma {:induction false} InRange(m: nat, i: nat)
    ensures i in Range(m) <==> i < m
  {
    if m > 0 { InRange(m - 1, i); }
  }

  function Elements(s: seq<nat>): set<nat> {
    set x | x in s
  }

  lemma {:induction false} ElementsSize(s: seq<nat>)
    requires Injective(s)
    ensures |Elements(s)| == |s|
    decreases |s|
  {
    if s != [] {
      var n := |s| - 1;
      ElementsSize(s[..n]);
      assert Elements(s) == Elements(s[..n]) + {s[n]};
      assert s[n] !in s[..n];
    } else {
      assert Elements(s) == {};
    }
  }

  lemma SubsetOfSameSize(a: set<nat>, b: set<nat>)
    requires a <= b && |a| == |b|
    ensures a == b
  {
    if a != b {
      var x :| x in b && x !in a;
      assert |b - {x}| == |b| - 1;
      SubsetSize(a, b - {x});
    }
  }

  lemma {:induction false} SubsetSize(a: set<nat>, b: set<nat>)
    requires a <= b
    ensures |a| <= |b|
    decreases |a|
  {
    if a != {} {
      var x :| x in a;
      SubsetSize(a - {x}, b - {x});
    }
  }

  lemma InjectionIsOnto(s: seq<nat>, v: nat)
    requires Injective(s) && (forall i :: 0 <= i < |s| ==> s[i] < |s|) && v < |s|
    ensures v in s
  {
    ElementsSize(s);
    RangeSize(|s|);
    forall x | x in Elements(s) ensures x in Range(|s|) {
      InRange(|s|, x);
    }
    SubsetOfSameSize(Elements(s), Range(|s|));
    InRange(|s|, v);
  }

  // ---------------------------------------------------------------------------------
  // The probe sequences

  /** Slot of probe `i` in quadratic_probing_hashmap.c. */
  function Quadratic(slot: nat, i: nat, size: nat): (s: nat)
    requires size > 0
    ensures s < size
  {
    (slot + i / 2 + i * i / 2) % size
  }

  /** Slot of probe `i` in hashset.c. */
  function Linear(slot: nat, i: nat, size: nat): (s: nat)
    requires size > 0
    ensures s < size
  {
    (slot + i * 5009) % size
  }

  lemma EvenProbe(slot: nat, k: nat, size: nat)
    requires size > 0
    ensures Quadratic(slot, 2 * k, size) == (slot + k * (2 * k + 1)) % size
  {
    assert (2 * k) * (2 * k) == 2 * (2 * (k * k));
    assert k * (2 * k + 1) == k + 2 * (k * k);
  }

  lemma EvenDifference(j: int, k: int)
    ensures k * (2 * k + 1) - j * (2 * j + 1) == (k - j) * (2 * (k + j) + 1)
  {
    assert (k - j) * (2 * (k + j) + 1) == 2 * ((k - j) * (k + j)) + (k - j);
    assert (k - j) * (k + j) == k * k - j * j;
  }

  /** Offsets that differ by a small number times an odd one lead to different slots. */
  lemma DistinctSlots(x: nat, y: nat, d: nat, o: int, n: nat)
    requires x - y == d * o && o % 2 == 1 && 0 < d < Pow2(n)
    ensures x % Pow2(n) != y % Pow2(n)
  {
    var m := Pow2(n);
    if x % m == y % m {
      SameRemainder(x, y, m);
      var r := CancelOdd(n, d, o, x / m - y / m);
      SmallMultiple(d, r, m);
    }
  }

  lemma QuadraticDistinct(slot: nat, j: nat, k: nat, n: nat)
    requires j < k < Pow2(n)
    ensures Quadratic(slot, 2 * j, Pow2(n)) != Quadratic(slot, 2 * k, Pow2(n))
  {
    hide Quadratic, Pow2;
    EvenProbe(slot, j, Pow2(n));
    EvenProbe(slot, k, Pow2(n));
    EvenDifference(j, k);
    EvenApart(slot, j * (2 * j + 1), k * (2 * k + 1), k - j, k + j, n);
  }

  lemma EvenApart(slot: nat, b: nat, a: nat, d: nat, e: nat, n: nat)
    requires a - b == d * (2 * e + 1) && 0 < d < Pow2(n)
    ensures (slot + a) % Pow2(n) != (slot + b) % Pow2(n)
  {
    hide Pow2;
    DistinctSlots(slot + a, slot + b, d, 2 * e + 1, n);
  }

  /** Within `2 * size` probes, the even-numbered ones visit every slot. */
  lemma QuadraticReaches(slot: nat, n: nat, target: nat) returns (i: nat)
    requires target < Pow2(n)
    ensures i < 2 * Pow2(n) && Quadratic(slot, i, Pow2(n)) == target
  {
    var m := Pow2(n);
    var s := seq(m, k requires 0 <= k => Quadratic(slot, 2 * k, m));
    forall j, k | 0 <= j < k < |s| ensures s[j] != s[k] {
      QuadraticDistinct(slot, j, k, n);
    }
    InjectionIsOnto(s, target);
    var k :| 0 <= k < |s| && s[k] == target;
    i := 2 * k;
  }

  lemma LinearDistinct(slot: nat, j: nat, k: nat, n: nat)
    requires j < k < Pow2(n)
    ensures Linear(slot, j, Pow2(n)) != Linear(slot, k, Pow2(n))
  {
    DistinctSlots(slot + k * 5009, slot + j * 5009, k - j, 5009, n);
  }

  /** The odd step visits every slot within `size` probes. */
  lemma LinearReaches(slot: nat, n: nat, target: nat) returns (i: nat)
    requires target < Pow2(n)
    ensures i < Pow2(n) && Linear(slot, i, Pow2(n)) == target
  {
    var m := Pow2(n);
    var s := seq(m, k requires 0 <= k => Linear(slot, k, m));
    forall j, k | 0 <= j < k < |s| ensures s[j] != s[k] {
      LinearDistinct(slot, j, k, n);
    }
    InjectionIsOnto(s, target);
    i :| 0 <= i < |s| && s[i] == target;
  }
}
