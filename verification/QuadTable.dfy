/** The slot array of the quadratic-probing hash map as a value: what a table represents and
    what single-slot updates do to it. */
module QuadTable {
  import opened Arithmetic
  import opened Probing

  datatype Cell = Empty | Tomb | Live(key: int, val: int)

  type Table = seq<Cell>

  predicate Unique(t: Table) {
    forall s, u :: 0 <= s < |t| && 0 <= u < |t| && t[s].Live? && t[u].Live? && t[s].key == t[u].key ==> s == u
  }

  /** The first `i` probes for a key hashed to `slot` find no empty cell. */
  predicate Clear(t: Table, slot: nat, i: nat)
    requires |t| > 0
  {
    forall j :: 0 <= j < i ==> t[Quadratic(slot, j, |t|)] != Empty
  }

  /** Every entry is found by probing for its key. */
  ghost predicate Reachable(hash: int -> nat, t: Table)
    requires |t| > 0
  {
    forall s :: 0 <= s < |t| && t[s].Live? ==>
      exists i :: i >= 0 && Quadratic(hash(t[s].key), i, |t|) == s && Clear(t, hash(t[s].key), i)
  }

  /** The finite map that the table represents. */
  function Model(t: Table): map<int, int>
    requires Unique(t)
  {
    map s | 0 <= s < |t| && t[s].Live? :: t[s].key := t[s].val
  }

  lemma ModelHas(t: Table, s: nat)
    requires Unique(t) && s < |t| && t[s].Live?
    ensures t[s].key in Model(t) && Model(t)[t[s].key] == t[s].val
  {
  }

  function NumLive(t: Table): nat {
    if t == [] then 0 else NumLive(t[..|t| - 1]) + if t[|t| - 1].Live? then 1 else 0
  }

  function NumUsed(t: Table): nat {
    if t == [] then 0 else NumUsed(t[..|t| - 1]) + if t[|t| - 1] != Empty then 1 else 0
  }

  lemma {:induction false} CountUpdate(t: Table, s: nat, c: Cell)
    requires s < |t|
    ensures NumLive(t[s := c]) == NumLive(t) - (if t[s].Live? then 1 else 0) + (if c.Live? then 1 else 0)
    ensures NumUsed(t[s := c]) == NumUsed(t) - (if t[s] != Empty then 1 else 0) + (if c != Empty then 1 else 0)
    decreases |t|
  {
    var n := |t| - 1;
    if s < n {
      assert t[s := c][..n] == t[..n][s := c];
      CountUpdate(t[..n], s, c);
    } else {
      assert t[s := c][..n] == t[..n];
    }
  }

  lemma {:induction false} UsedBound(t: Table)
    ensures NumLive(t) <= NumUsed(t) <= |t|
    ensures NumUsed(t) < |t| ==> exists s :: 0 <= s < |t| && t[s] == Empty
    decreases |t|
  {
    if t != [] {
      var n := |t| - 1;
      UsedBound(t[..n]);
      if NumUsed(t) < |t| && t[n] != Empty {
        var s :| 0 <= s < n && t[..n][s] == Empty;
        assert t[s] == Empty;
      } else if NumUsed(t) < |t| {
        assert t[n] == Empty;
      }
    }
  }

  lemma {:induction false} NoneLive(t: Table)
    requires forall s :: 0 <= s < |t| ==> t[s] == Empty
    ensures NumLive(t) == 0 && NumUsed(t) == 0
    decreases |t|
  {
    if t != [] { NoneLive(t[..|t| - 1]); }
  }

  // ---------------------------------------------------------------------------------
  // Probing

  function UsedSlots(t: Table): set<nat> {
    set s: nat | s < |t| && t[s] != Empty
  }

  lemma {:induction false} UsedSlotsSize(t: Table)
    ensures |UsedSlots(t)| == NumUsed(t)
    decreases |t|
  {
    if t == [] {
      assert UsedSlots(t) == {};
    } else {
      var n := |t| - 1;
      UsedSlotsSize(t[..n]);
      assert forall s :: 0 <= s < n ==> t[..n][s] == t[s];
      assert UsedSlots(t) == UsedSlots(t[..n]) + if t[n] != Empty then {n} else {};
    }
  }

  /** The slots of the first half of the even-numbered probes, and one more. */
  function EvenProbes(slot: nat, size: nat): (ps: seq<nat>)
    requires size > 0
    ensures |ps| == size / 2 + 1
  {
    seq(size / 2 + 1, k requires 0 <= k => Quadratic(slot, 2 * k, size))
  }

  lemma EvenProbesDistinct(slot: nat, n: nat)
    requires n >= 1
    ensures Injective(EvenProbes(slot, Pow2(n)))
  {
    var ps := EvenProbes(slot, Pow2(n));
    forall j, k | 0 <= j < k < |ps| ensures ps[j] != ps[k] {
      QuadraticDistinct(slot, j, k, n);
    }
  }

  /** A table of which at most half is used stops every probe sequence within as many probes as it has slots. */
  lemma ProbesEnd(t: Table, n: nat, slot: nat) returns (i: nat)
    requires n >= 1 && |t| == Pow2(n) && 2 * NumUsed(t) <= |t|
    ensures i <= |t| && t[Quadratic(slot, i, |t|)] == Empty
  {
    var ps := EvenProbes(slot, |t|);
    EvenProbesDistinct(slot, n);
    ElementsSize(ps);
    UsedSlotsSize(t);
    if forall k :: 0 <= k < |ps| ==> t[ps[k]] != Empty {
      assert Elements(ps) <= UsedSlots(t);
      SubsetSize(Elements(ps), UsedSlots(t));
    }
    var k :| 0 <= k < |ps| && t[ps[k]] == Empty;
    i := 2 * k;
  }

  /** Probes that found neither the key nor an empty cell, then an empty one: the key is absent. */
  lemma AbsentAtEmpty(hash: int -> nat, t: Table, k: int, i: nat)
    requires |t| > 0 && Unique(t) && Reachable(hash, t)
    requires t[Quadratic(hash(k), i, |t|)] == Empty
    requires forall j :: 0 <= j < i ==> var c := t[Quadratic(hash(k), j, |t|)]; !(c.Live? && c.key == k)
    ensures k !in Model(t)
  {
  }

  // ---------------------------------------------------------------------------------
  // Single-slot updates

  /** A cell that is not emptied keeps every probe path. */
  lemma PathsKept(hash: int -> nat, t: Table, s: nat, c: Cell, u: nat)
    requires |t| > 0 && Reachable(hash, t) && s < |t| && c != Empty && u < |t| && u != s && t[u].Live?
    ensures exists i :: i >= 0 && Quadratic(hash(t[u].key), i, |t|) == u && Clear(t[s := c], hash(t[u].key), i)
  {
    var i :| i >= 0 && Quadratic(hash(t[u].key), i, |t|) == u && Clear(t, hash(t[u].key), i);
    assert Clear(t[s := c], hash(t[u].key), i);
  }

  lemma SetLive(hash: int -> nat, t: Table, s: nat, k: int, v: int, i: nat)
    requires |t| > 0 && Unique(t) && Reachable(hash, t) && s < |t|
    requires Quadratic(hash(k), i, |t|) == s && Clear(t, hash(k), i)
    requires (t[s].Live? && t[s].key == k) || (!t[s].Live? && k !in Model(t))
    ensures Unique(t[s := Live(k, v)]) && Reachable(hash, t[s := Live(k, v)])
    ensures Model(t[s := Live(k, v)]) == Model(t)[k := v]
  {
    var u := t[s := Live(k, v)];
    assert Clear(u, hash(k), i);
    forall q | 0 <= q < |t| && q != s && t[q].Live? ensures t[q].key != k {
      ModelHas(t, q);
    }
    forall q | 0 <= q < |u| && u[q].Live?
      ensures exists j :: j >= 0 && Quadratic(hash(u[q].key), j, |u|) == q && Clear(u, hash(u[q].key), j)
    {
      if q != s { PathsKept(hash, t, s, Live(k, v), q); }
    }
    SetLiveModel(t, s, k, v);
  }

  lemma SetLiveModel(t: Table, s: nat, k: int, v: int)
    requires Unique(t) && s < |t| && Unique(t[s := Live(k, v)])
    requires (t[s].Live? && t[s].key == k) || (!t[s].Live? && k !in Model(t))
    ensures Model(t[s := Live(k, v)]) == Model(t)[k := v]
  {
    var u := t[s := Live(k, v)];
    var a, b := Model(u), Model(t)[k := v];
    forall x ensures x in a <==> x in b {
      if x in b && x != k {
        var q :| 0 <= q < |t| && t[q].Live? && t[q].key == x;
        assert u[q] == t[q];
      }
      if x in a && x != k {
        var q :| 0 <= q < |u| && u[q].Live? && u[q].key == x;
        assert u[q] == t[q];
      }
      if x == k { assert u[s].Live? && u[s].key == k; }
    }
    forall x | x in a ensures a[x] == b[x] {
      var q :| 0 <= q < |u| && u[q].Live? && u[q].key == x;
      ModelHas(u, q);
      if q != s { ModelHas(t, q); }
    }
  }

  lemma SetTomb(hash: int -> nat, t: Table, s: nat)
    requires |t| > 0 && Unique(t) && Reachable(hash, t) && s < |t| && t[s].Live?
    ensures Unique(t[s := Tomb]) && Reachable(hash, t[s := Tomb])
    ensures Model(t[s := Tomb]) == Model(t) - {t[s].key}
  {
    var u := t[s := Tomb];
    forall q | 0 <= q < |u| && u[q].Live?
      ensures exists j :: j >= 0 && Quadratic(hash(u[q].key), j, |u|) == q && Clear(u, hash(u[q].key), j)
    {
      PathsKept(hash, t, s, Tomb, q);
    }
    SetTombModel(t, s);
  }

  lemma SetTombModel(t: Table, s: nat)
    requires Unique(t) && s < |t| && t[s].Live? && Unique(t[s := Tomb])
    ensures Model(t[s := Tomb]) == Model(t) - {t[s].key}
  {
    var u := t[s := Tomb];
    var a, b := Model(u), Model(t) - {t[s].key};
    forall x ensures x in a <==> x in b {
      if x in b {
        var q :| 0 <= q < |t| && t[q].Live? && t[q].key == x;
        assert u[q] == t[q];
      }
      if x in a {
        var q :| 0 <= q < |u| && u[q].Live? && u[q].key == x;
        assert u[q] == t[q] && q != s;
      }
    }
    forall x | x in a ensures a[x] == b[x] {
      var q :| 0 <= q < |u| && u[q].Live? && u[q].key == x;
      ModelHas(u, q);
      ModelHas(t, q);
    }
  }
}
