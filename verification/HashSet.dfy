/** The hash set of hashset.c on runs of additions: 0 marks a free slot, members are at least 2,
    and the table doubles at 85% load. */
module HashSet {
  import opened Arithmetic
  import opened Probing
  import opened SinglePrecision

  type Table = seq<nat>

  const PRIME_1: nat := 73

  predicate Unique(t: Table) {
    forall s, u :: 0 <= s < u < |t| && t[s] != 0 ==> t[s] != t[u]
  }

  /** The first `i` probes for `v` find no free slot. */
  predicate Clear(t: Table, v: nat, i: nat)
    requires |t| > 0
  {
    forall j :: 0 <= j < i ==> t[Linear(PRIME_1 * v, j, |t|)] != 0
  }

  ghost predicate Reachable(t: Table)
    requires |t| > 0
  {
    forall s :: 0 <= s < |t| && t[s] != 0 ==>
      exists i :: i >= 0 && Linear(PRIME_1 * t[s], i, |t|) == s && Clear(t, t[s], i)
  }

  function Members(t: Table): set<nat> {
    set s | 0 <= s < |t| && t[s] != 0 :: t[s]
  }

  function Load(t: Table): nat {
    if t == [] then 0 else Load(t[..|t| - 1]) + if t[|t| - 1] != 0 then 1 else 0
  }

  /** The load at which the table is doubled: `(size_t)(capacity * 0.85)`. */
  function Threshold(capacity: nat): nat {
    capacity * 17 / 20
  }

  ghost predicate Sound(t: Table, n: nat, nitems: nat) {
    && n >= 3 && |t| == Pow2(n)
    && Unique(t) && Reachable(t) && 1 !in t
    && nitems == Load(t)
  }

  lemma {:induction false} LoadUpdate(t: Table, s: nat, v: nat)
    requires s < |t| && t[s] == 0 && v != 0
    ensures Load(t[s := v]) == Load(t) + 1
    decreases |t|
  {
    var n := |t| - 1;
    if s < n {
      assert t[s := v][..n] == t[..n][s := v];
      LoadUpdate(t[..n], s, v);
    } else {
      assert t[s := v][..n] == t[..n];
    }
  }

  lemma {:induction false} LoadBound(t: Table)
    ensures Load(t) <= |t|
    ensures Load(t) < |t| ==> exists s :: 0 <= s < |t| && t[s] == 0
    decreases |t|
  {
    if t != [] {
      var n := |t| - 1;
      LoadBound(t[..n]);
      if Load(t) < |t| && t[n] != 0 {
        var s :| 0 <= s < n && t[..n][s] == 0;
        assert t[s] == 0;
      } else if Load(t) < |t| {
        assert t[n] == 0;
      }
    }
  }

  lemma {:induction false} LoadIsSize(t: Table)
    requires Unique(t)
    ensures |Members(t)| == Load(t)
    decreases |t|
  {
    if t == [] {
      assert Members(t) == {};
    } else {
      var n := |t| - 1;
      LoadIsSize(t[..n]);
      assert forall s :: 0 <= s < n ==> t[..n][s] == t[s];
      if t[n] == 0 {
        assert Members(t) == Members(t[..n]);
      } else {
        assert Members(t) == Members(t[..n]) + {t[n]};
        assert t[n] !in Members(t[..n]);
      }
    }
  }

  /** A table with a free slot stops every probe sequence. */
  lemma ProbesEnd(t: Table, n: nat, v: nat) returns (i: nat)
    requires |t| == Pow2(n) && Load(t) < |t|
    ensures i < |t| && t[Linear(PRIME_1 * v, i, |t|)] == 0
  {
    LoadBound(t);
    var s :| 0 <= s < |t| && t[s] == 0;
    i := LinearReaches(PRIME_1 * v, n, s);
  }

  lemma AbsentAtFree(t: Table, v: nat, i: nat)
    requires |t| > 0 && Reachable(t) && v != 0
    requires t[Linear(PRIME_1 * v, i, |t|)] == 0
    requires forall j :: 0 <= j < i ==> t[Linear(PRIME_1 * v, j, |t|)] != v
    ensures v !in Members(t)
  {
  }

  lemma StoreSound(t: Table, n: nat, nitems: nat, v: nat, i: nat, s: nat)
    requires Sound(t, n, nitems) && v >= 2 && v !in Members(t)
    requires s == Linear(PRIME_1 * v, i, |t|) && t[s] == 0 && Clear(t, v, i)
    ensures Sound(t[s := v], n, nitems + 1) && Members(t[s := v]) == Members(t) + {v}
  {
    LoadUpdate(t, s, v);
    StoreReachable(t, v, i, s);
    StoreMembers(t, v, s);
    hide Linear, Clear, Reachable, Load, Pow2;
  }

  lemma StoreReachable(t: Table, v: nat, i: nat, s: nat)
    requires |t| > 0 && Reachable(t) && v != 0
    requires s == Linear(PRIME_1 * v, i, |t|) && t[s] == 0 && Clear(t, v, i)
    ensures Reachable(t[s := v])
  {
    hide Linear;
    var u := t[s := v];
    assert Clear(u, v, i);
    forall q | 0 <= q < |u| && u[q] != 0
      ensures exists j :: j >= 0 && Linear(PRIME_1 * u[q], j, |u|) == q && Clear(u, u[q], j)
    {
      if q != s {
        var j :| j >= 0 && Linear(PRIME_1 * t[q], j, |t|) == q && Clear(t, t[q], j);
        assert Clear(u, u[q], j);
      }
    }
  }

  lemma StoreMembers(t: Table, v: nat, s: nat)
    requires s < |t| && t[s] == 0 && v >= 2 && v !in Members(t) && Unique(t) && 1 !in t
    ensures Unique(t[s := v]) && 1 !in t[s := v] && Members(t[s := v]) == Members(t) + {v}
  {
    var u := t[s := v];
    assert forall q :: 0 <= q < |t| && t[q] != 0 ==> t[q] in Members(t);
    forall x ensures x in Members(u) <==> x in Members(t) + {v} {
      if x in Members(t) {
        var q :| 0 <= q < |t| && t[q] != 0 && t[q] == x;
        assert u[q] == x;
      }
      assert u[s] == v;
    }
  }

  lemma LinearStep(slot: nat, i: nat, size: nat)
    requires size > 0
    ensures Linear(slot, 0, size) == slot % size
    ensures Linear(slot, i + 1, size) == (Linear(slot, i, size) + 5009) % size
  {
    var x := slot + i * 5009;
    var y := x % size + 5009;
    assert slot + (i + 1) * 5009 == x + 5009;
    assert x == size * (x / size) + x % size;
    assert y == size * (y / size) + y % size;
    assert size * (x / size) + size * (y / size) == size * (x / size + y / size);
    RemainderIs(x + 5009, size, x / size + y / size, y % size);
  }

  class Set {
    var items: array<nat>
    var nitems: nat
    ghost var n: nat

    /** Between calls the load is below the threshold. */
    ghost predicate Valid()
      reads this, items
    {
      Sound(items[..], n, nitems) && nitems < Threshold(items.Length)
    }

    constructor ()
      ensures Valid() && fresh(items) && Members(items[..]) == {} && nitems == 0
    {
      items := new nat[8](_ => 0);
      nitems, n := 0, 3;
      new;
      EmptySound(items[..], 3);
      assert Pow2(3) == 2 * (2 * (2 * Pow2(0)));
    }

    /** The probe loop: stops at the value or at a free slot. */
    method Find(value: nat) returns (ii: nat, ghost i: nat)
      requires Sound(items[..], n, nitems) && nitems < items.Length && value >= 2
      ensures ii < items.Length && ii == Linear(PRIME_1 * value, i, items.Length) && Clear(items[..], value, i)
      ensures value in Members(items[..]) ==> items[ii] == value
      ensures value !in Members(items[..]) ==> items[ii] == 0
    {
      hide Linear, Load, Pow2;
      ghost var t := items[..];
      ghost var last := ProbesEnd(t, n, value);
      i := 0;
      LinearStep(PRIME_1 * value, 0, items.Length);
      ii := (PRIME_1 * value) % items.Length;
      while items[ii] != 0 && items[ii] != 1
        invariant 0 <= i <= last && ii < items.Length && ii == Linear(PRIME_1 * value, i, items.Length)
        invariant Clear(t, value, i)
        invariant forall j :: 0 <= j < i ==> t[Linear(PRIME_1 * value, j, |t|)] != value
        decreases last - i
      {
        if items[ii] == value {
          return;
        }
        LinearStep(PRIME_1 * value, i, items.Length);
        ii := (ii + 5009) % items.Length;
        i := i + 1;
      }
      assert items[ii] == t[ii] && t[ii] != 1;
      AbsentAtFree(t, value, i);
    }

    /** `hashset_add_member` */
    method AddMember(value: nat) returns (rv: int)
      requires Sound(items[..], n, nitems) && nitems < items.Length
      modifies this`nitems, items
      ensures Sound(items[..], n, nitems)
      ensures rv == if value < 2 then -1 else if value in old(Members(items[..])) then 0 else 1
      ensures Members(items[..]) == old(Members(items[..])) + if value < 2 then {} else {value}
      ensures nitems == old(nitems) + if rv == 1 then 1 else 0
    {
      hide Sound, Linear, Clear;
      if value < 2 {
        return -1;
      }
      ghost var t, i := items[..], 0;
      var ii;
      ii, i := Find(value);
      if items[ii] == value {
        return 0;
      }
      StoreSound(t, n, nitems, value, i, ii);
      nitems := nitems + 1;
      items[ii] := value;
      assert items[..] == t[ii := value];
      return 1;
    }

    method IsMember(value: nat) returns (rv: bool)
      requires Valid()
      ensures rv <==> value >= 2 && value in Members(items[..])
    {
      hide Linear, Load, Pow2;
      ghost var t := items[..];
      ThresholdBelow(items.Length);
      ghost var last := ProbesEnd(t, n, value);
      ghost var i := 0;
      LinearStep(PRIME_1 * value, 0, items.Length);
      var ii := (PRIME_1 * value) % items.Length;
      while items[ii] != 0
        invariant 0 <= i <= last && ii < items.Length && ii == Linear(PRIME_1 * value, i, items.Length)
        invariant forall j :: 0 <= j < i ==> t[Linear(PRIME_1 * value, j, |t|)] != value
        decreases last - i
      {
        if items[ii] == value {
          assert t[ii] == value && t[ii] != 1;
          return true;
        }
        LinearStep(PRIME_1 * value, i, items.Length);
        ii := (ii + 5009) % items.Length;
        i := i + 1;
      }
      if value >= 2 { AbsentAtFree(t, value, i); }
      return false;
    }

    /** `maybe_rehash`: both sides of the comparison are floats. */
    method MaybeRehash()
      requires Sound(items[..], n, nitems) && nitems <= Threshold(items.Length)
      modifies this
      ensures Valid() && Members(items[..]) == old(Members(items[..])) && nitems == old(nitems)
      ensures AsFloat(old(nitems)) < AsFloat(Threshold(old(items.Length))) ==> items == old(items)
      ensures AsFloat(old(nitems)) >= AsFloat(Threshold(old(items.Length))) ==>
        fresh(items) && items.Length == 2 * old(items.Length)
    {
      hide Sound, Linear, Clear, AsFloat;
      if AsFloat(nitems) < AsFloat(Threshold(items.Length)) {
        return;
      }
      var was := items;
      ghost var t := items[..];
      SoundParts(t, n, nitems);
      items := new nat[2 * was.Length](_ => 0);
      n := n + 1;
      nitems := 0;
      DoubledSound(items[..], n);
      assert Members(t[..0]) == {};
      var ii := 0;
      while ii < was.Length
        modifies this`nitems, items
        invariant 0 <= ii <= was.Length && fresh(items) && items != was && was[..] == t
        invariant items.Length == 2 * was.Length && n == old(n) + 1
        invariant Sound(items[..], n, nitems)
        invariant Members(items[..]) == Members(t[..ii]) && nitems == Load(t[..ii])
      {
        PrefixMembers(t, ii);
        SoundParts(items[..], n, nitems);
        var rv := AddMember(was[ii]);
        SoundParts(items[..], n, nitems);
        ii := ii + 1;
      }
      assert t[..ii] == t;
      ThresholdGrows(was.Length);
    }

    method Add(value: nat) returns (rv: int)
      requires Valid()
      modifies this, items
      ensures Valid() && nitems == |Members(items[..])|
      ensures items == old(items) || fresh(items)
      ensures rv == if value < 2 then -1 else if value in old(Members(items[..])) then 0 else 1
      ensures Members(items[..]) == old(Members(items[..])) + if value < 2 then {} else {value}
    {
      hide Sound, Linear, Clear;
      ThresholdBelow(items.Length);
      rv := AddMember(value);
      MaybeRehash();
      SoundParts(items[..], n, nitems);
    }
  }

  /** Below the threshold there is always a free slot. */
  lemma ThresholdBelow(capacity: nat)
    ensures capacity > 0 ==> Threshold(capacity) < capacity
    ensures Threshold(capacity) <= capacity
  {
  }

  /** The threshold is 85 percent of the capacity, rounded down. */
  lemma ThresholdIs(capacity: nat)
    ensures 100 * Threshold(capacity) <= 85 * capacity < 100 * (Threshold(capacity) + 1)
  {
  }

  lemma ThresholdGrows(capacity: nat)
    requires capacity >= 8
    ensures Threshold(capacity) < Threshold(2 * capacity)
  {
  }

  lemma {:induction false} Pow2AtLeast(n: nat)
    requires n >= 3
    ensures Pow2(n) >= 8
  {
    if n > 3 {
      Pow2AtLeast(n - 1);
    } else {
      assert Pow2(3) == 2 * (2 * (2 * Pow2(0)));
    }
  }

  lemma SoundParts(t: Table, n: nat, nitems: nat)
    requires Sound(t, n, nitems)
    ensures |t| == Pow2(n) && |t| >= 8 && Unique(t) && 1 !in t && nitems == Load(t) == |Members(t)|
    ensures Pow2(n + 1) == 2 * |t| && n >= 3
  {
    Pow2AtLeast(n);
    LoadIsSize(t);
  }

  lemma DoubledSound(t: Table, n: nat)
    requires n >= 3 && |t| == Pow2(n) && forall s :: 0 <= s < |t| ==> t[s] == 0
    ensures Sound(t, n, 0) && Members(t) == {}
  {
    EmptySound(t, n);
  }

  lemma PrefixMembers(t: Table, i: nat)
    requires Unique(t) && i < |t| && 1 !in t
    ensures Members(t[..i + 1]) == Members(t[..i]) + if t[i] < 2 then {} else {t[i]}
    ensures t[i] !in Members(t[..i])
    ensures Load(t[..i + 1]) == Load(t[..i]) + if t[i] < 2 then 0 else 1
    ensures Load(t[..i]) <= i
  {
    var u := t[..i + 1];
    assert u[..i] == t[..i] && u[i] == t[i];
    assert t[i] in t;
    LoadBound(t[..i]);
    forall x ensures x in Members(u) <==> x in Members(t[..i]) || (t[i] >= 2 && x == t[i]) {
      if x in Members(u) {
        var s :| 0 <= s < |u| && u[s] != 0 && u[s] == x;
        if s < i { assert t[..i][s] == x; }
      }
      if x in Members(t[..i]) {
        var s :| 0 <= s < i && t[..i][s] != 0 && t[..i][s] == x;
        assert u[s] == x;
      }
      if t[i] >= 2 && x == t[i] { assert u[i] == x; }
    }
  }

  lemma {:induction false} EmptySound(t: Table, n: nat)
    requires forall s :: 0 <= s < |t| ==> t[s] == 0
    ensures Load(t) == 0 && Members(t) == {} && Unique(t)
    ensures |t| > 0 ==> Reachable(t)
    decreases |t|
  {
    if t != [] { EmptySound(t[..|t| - 1], n); }
  }

  /** The values that are added: 0 and 1 are not. */
  function Kept(values: seq<nat>): set<nat> {
    set v | v in values && 2 <= v
  }

  lemma KeptMore(values: seq<nat>, i: nat)
    requires i < |values|
    ensures Kept(values[..i + 1]) == Kept(values[..i]) + if values[i] < 2 then {} else {values[i]}
    ensures 2 <= values[i] ==> (values[i] in Kept(values[..i]) <==> values[i] in values[..i])
  {
    assert values[..i + 1] == values[..i] + [values[i]];
  }

  /** A run of additions to a new set: each call tells whether its value is new, and the members are the values. */
  method AddAll(values: seq<nat>) returns (s: Set, rvs: seq<int>)
    ensures fresh(s) && s.Valid() && |rvs| == |values|
    ensures Members(s.items[..]) == Kept(values) && s.nitems == |Kept(values)|
    ensures forall i :: 0 <= i < |values| ==>
      rvs[i] == if values[i] < 2 then -1 else if values[i] in values[..i] then 0 else 1
  {
    hide Sound, Members, Kept;
    s := new Set();
    rvs := [];
    var i := 0;
    NothingKept(values);
    while i < |values|
      invariant 0 <= i <= |values| && |rvs| == i && fresh(s) && fresh(s.items) && s.Valid()
      invariant Members(s.items[..]) == Kept(values[..i]) && s.nitems == |Kept(values[..i])|
      invariant forall j :: 0 <= j < i ==>
        rvs[j] == if values[j] < 2 then -1 else if values[j] in values[..j] then 0 else 1
    {
      KeptMore(values, i);
      var rv := s.Add(values[i]);
      rvs := rvs + [rv];
      i := i + 1;
    }
    assert values[..i] == values;
  }

  lemma NothingKept(values: seq<nat>)
    ensures Kept(values[..0]) == {}
  {
  }
}
