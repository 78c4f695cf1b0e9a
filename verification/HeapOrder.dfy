/** Heap order on sequences, and what one sift step does to it (heap.c). */
module HeapOrder {
  /** Items are pointers; the comparison is the user's. */
  type Cmp = (int, int) -> int

  predicate Less(cmp: Cmp, a: int, b: int) {
    cmp(a, b) < 0
  }

  /** The comparison orders items by rank. */
  ghost predicate Consistent(cmp: Cmp) {
    && (forall a, b :: Less(cmp, a, b) ==> !Less(cmp, b, a))
    && (forall a, b, c :: !Less(cmp, a, b) && !Less(cmp, b, c) ==> !Less(cmp, a, c))
  }

  function Parent(i: nat): nat
    requires i > 0
  {
    (i - 1) / 2
  }

  function Swap(s: seq<int>, i: nat, j: nat): (r: seq<int>)
    requires i < |s| && j < |s|
    ensures |r| == |s|
  {
    s[i := s[j]][j := s[i]]
  }

  lemma SwapKeeps(s: seq<int>, i: nat, j: nat)
    requires i < |s| && j < |s|
    ensures multiset(Swap(s, i, j)) == multiset(s)
  {
  }

  /** No item is greater than its parent. */
  ghost predicate Ordered(cmp: Cmp, s: seq<int>) {
    forall i :: 0 < i < |s| ==> !Less(cmp, s[Parent(i)], s[i])
  }

  /** Ordered, except that the item at `k` may be greater than those above it. */
  ghost predicate Rising(cmp: Cmp, s: seq<int>, k: nat) {
    && k < |s|
    && (forall i :: 0 < i < |s| && i != k ==> !Less(cmp, s[Parent(i)], s[i]))
    && (k > 0 ==> forall i :: 0 < i < |s| && Parent(i) == k ==> !Less(cmp, s[Parent(k)], s[i]))
  }

  /** Ordered, except that the item at `k` may be smaller than those below it. */
  ghost predicate Sinking(cmp: Cmp, s: seq<int>, k: nat) {
    && k < |s|
    && (forall i :: 0 < i < |s| && Parent(i) != k ==> !Less(cmp, s[Parent(i)], s[i]))
    && (k > 0 ==> forall i :: 0 < i < |s| && Parent(i) == k ==> !Less(cmp, s[Parent(k)], s[i]))
  }

  lemma Trans(cmp: Cmp, a: int, b: int, c: int)
    requires Consistent(cmp) && !Less(cmp, a, b) && !Less(cmp, b, c)
    ensures !Less(cmp, a, c)
  {
  }

  lemma AppendRises(cmp: Cmp, s: seq<int>, x: int)
    requires Ordered(cmp, s)
    ensures Rising(cmp, s + [x], |s|)
  {
  }

  lemma RiseStep(cmp: Cmp, s: seq<int>, k: nat)
    requires Consistent(cmp) && Rising(cmp, s, k) && k > 0 && !Less(cmp, s[k], s[Parent(k)])
    ensures Rising(cmp, Swap(s, k, Parent(k)), Parent(k))
  {
    var p := Parent(k);
    var r := Swap(s, k, p);
    forall i | 0 < i < |s| && i != p ensures !Less(cmp, r[Parent(i)], r[i]) {
      if i != k && Parent(i) == p { Trans(cmp, s[k], s[p], s[i]); }
    }
    if p > 0 {
      forall i | 0 < i < |s| && Parent(i) == p ensures !Less(cmp, r[Parent(p)], r[i]) {
        if i != k { Trans(cmp, s[Parent(p)], s[p], s[i]); }
      }
    }
  }

  lemma RiseEnds(cmp: Cmp, s: seq<int>, k: nat)
    requires Consistent(cmp) && Rising(cmp, s, k) && (k == 0 || Less(cmp, s[k], s[Parent(k)]))
    ensures Ordered(cmp, s)
  {
  }

  lemma ReplaceRootSinks(cmp: Cmp, s: seq<int>, x: int)
    requires Ordered(cmp, s) && s != []
    ensures Sinking(cmp, s[0 := x], 0)
  {
  }

  lemma SinkStep(cmp: Cmp, s: seq<int>, k: nat, c: nat)
    requires Consistent(cmp) && Sinking(cmp, s, k) && 0 < c < |s| && Parent(c) == k && Less(cmp, s[k], s[c])
    requires forall d :: 0 < d < |s| && Parent(d) == k ==> !Less(cmp, s[c], s[d])
    ensures Sinking(cmp, Swap(s, k, c), c)
  {
    var r := Swap(s, k, c);
    forall i | 0 < i < |s| && Parent(i) != c ensures !Less(cmp, r[Parent(i)], r[i]) {
    }
  }

  /** The item at the root is not smaller than any other. */
  lemma {:induction false} RootIsGreatest(cmp: Cmp, s: seq<int>, i: nat)
    requires Consistent(cmp) && Ordered(cmp, s) && i < |s|
    ensures !Less(cmp, s[0], s[i])
    decreases i
  {
    if i > 0 {
      RootIsGreatest(cmp, s, Parent(i));
      Trans(cmp, s[0], s[Parent(i)], s[i]);
    }
  }
}
