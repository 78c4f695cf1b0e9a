/** The quadratic-probing hash map: a slot array changed in place, doubled when half used.
    Keys and values are pointers; 0 is NULL. */
module QuadMap {
  import opened Arithmetic
  import opened Common
  import opened Probing
  import opened QuadSlots
  import opened QuadTable
  import opened SinglePrecision

  /** A put for `k` would stop at a tombstone. */
  ghost predicate LandsOnTomb(hash: int -> nat, t: Table, k: int)
    requires |t| > 0
  {
    exists i :: i >= 0 && Passes(hash, t, k, i) && t[Quadratic(hash(k), i, |t|)] == Tomb
  }

  /** The first `i` probes find other keys. */
  ghost predicate Passes(hash: int -> nat, t: Table, k: int, i: nat)
    requires |t| > 0
  {
    forall j :: 0 <= j < i ==> var c := t[Quadratic(hash(k), j, |t|)]; c.Live? && c.key != k
  }

  /** The first `i` probes find neither the key nor an empty slot. */
  ghost predicate Misses(hash: int -> nat, t: Table, k: int, i: nat)
    requires |t| > 0
  {
    forall j :: 0 <= j < i ==> var c := t[Quadratic(hash(k), j, |t|)]; c != Empty && !(c.Live? && c.key == k)
  }

  /** The first `i` probes of put and remove stay inside a table of that size. */
  predicate StaysInside(h: nat, i: nat, size: nat)
    requires size > 0
  {
    forall j :: 0 <= j < i ==> PutProbe(h, j, size).Slot?
  }

  /** Put leaves the table before it finds a place. */
  ghost predicate PutLeaves(hash: int -> nat, t: Table, k: int)
    requires |t| > 0
  {
    exists i: nat ::
      Passes(hash, t, k, i) && StaysInside(hash(k), i, |t|) && PutProbe(hash(k), i, |t|).Outside?
  }

  /** Remove leaves the table before it finds the key or an empty slot. */
  ghost predicate RemoveLeaves(hash: int -> nat, t: Table, k: int)
    requires |t| > 0
  {
    exists i: nat ::
      Misses(hash, t, k, i) && StaysInside(hash(k), i, |t|) && PutProbe(hash(k), i, |t|).Outside?
  }

  /** Get overflows before it finds the key or an empty slot. */
  ghost predicate GetLeaves(hash: int -> nat, t: Table, k: int)
    requires |t| > 0
  {
    exists i: nat :: Misses(hash, t, k, i) && GetProbe(hash(k), i, |t|).Outside?
  }

  /** Put finds its place at probe `i`. */
  ghost predicate Stops(hash: int -> nat, t: Table, k: int, i: nat)
    requires |t| > 0
  {
    Passes(hash, t, k, i) && var c := t[Quadratic(hash(k), i, |t|)]; !c.Live? || c.key == k
  }

  /** The table with the entry at that place. */
  ghost function Placed(hash: int -> nat, t: Table, k: int, v: int): (u: Table)
    requires |t| > 0
    ensures |u| == |t|
  {
    if i: nat :| Stops(hash, t, k, i) then t[Quadratic(hash(k), i, |t|) := Live(k, v)] else t
  }

  /** An empty table of that size into which the entries of the first `i` slots of `t` are put again, in order. */
  ghost function Rehashed(hash: int -> nat, t: Table, i: nat, size: nat): (u: Table)
    requires size > 0 && i <= |t|
    ensures |u| == size
  {
    if i == 0 then seq(size, _ => Empty)
    else
      var u := Rehashed(hash, t, i - 1, size);
      if t[i - 1].Live? then Placed(hash, u, t[i - 1].key, t[i - 1].val) else u
  }

  /** Putting the entries again leaves the new table at the entry of slot `i`. */
  ghost predicate LeavesAt(hash: int -> nat, t: Table, i: nat, size: nat)
    requires size > 0 && i < |t|
  {
    t[i].Live? && PutLeaves(hash, Rehashed(hash, t, i, size), t[i].key)
  }

  ghost predicate RehashLeaves(hash: int -> nat, t: Table, size: nat)
    requires size > 0
  {
    exists i :: 0 <= i < |t| && LeavesAt(hash, t, i, size)
  }

  /** What a table, its entry count and its slot count must satisfy. */
  ghost predicate Sound(hash: int -> nat, t: Table, n: nat, count: int, slotsUsed: int) {
    && 1 <= n <= 30 && |t| == Pow2(n)
    && Unique(t) && Reachable(hash, t)
    && (forall s :: 0 <= s < |t| && t[s].Live? ==> t[s].key != 0 && t[s].val != 0)
    && count == NumLive(t)
    && NumUsed(t) <= slotsUsed && 2 * slotsUsed <= |t|
  }

  class Map {
    const hash: int -> nat
    var arr: array<Cell>
    var count: int
    /** Slots that hold an entry or a tombstone. */
    var slotsUsed: nat
    ghost var n: nat

    ghost function T(): Table
      reads this, arr
    {
      arr[..]
    }

    ghost predicate Valid()
      reads this, arr
    {
      Sound(hash, arr[..], n, count, slotsUsed)
    }

    constructor (hash: int -> nat, capacity: nat, ghost n: nat)
      requires capacity == Pow2(n) && n <= 30
      ensures this.hash == hash && fresh(arr) && arr.Length == capacity && count == 0 && slotsUsed == 0
      ensures forall s :: 0 <= s < arr.Length ==> arr[s] == Empty
      ensures capacity >= 2 <==> Valid()
      ensures Valid() ==> Model(T()) == map[]
    {
      this.hash := hash;
      arr := new Cell[capacity](_ => Empty);
      count, slotsUsed := 0, 0;
      this.n := n;
      new;
      NoneLive(arr[..]);
    }

    /** The probe loop of get: stops at the key or at an empty slot. */
    method FindForGet(k: int) returns (s: nat, inside: bool)
      requires Valid()
      ensures inside <==> !GetLeaves(hash, T(), k)
      ensures arr.Length * arr.Length <= INT_MAX ==> inside
      ensures inside ==> Found(T(), k, s)
    {
      ghost var t := arr[..];
      ghost var last := ProbesEnd(t, n, hash(k));
      RemoveStart(hash, t, k);
      hide *;
      var i := 0;
      while true
        invariant 0 <= i <= last && Misses(hash, t, k, i)
        decreases last - i
      {
        GetStep(hash, t, n, count, slotsUsed, k, i, last);
        var p := GetProbe(hash(k), i, arr.Length);
        if p.Outside? {
          return 0, false;
        }
        s := p.s;
        if arr[s] == Empty {
          return s, true;
        }
        if arr[s].Live? && arr[s].key == k {
          return s, true;
        }
        i := i + 1;
      }
    }

    /** `inside` is false if the loop overflows, which needs a table of more than 46340 slots. */
    method Get(k: int) returns (v: int, inside: bool)
      requires Valid()
      ensures inside <==> count == 0 || k == 0 || !GetLeaves(hash, T(), k)
      ensures arr.Length * arr.Length <= INT_MAX ==> inside
      ensures inside ==> v == if k in Model(T()) then Model(T())[k] else 0
    {
      hide Reachable;
      if count == 0 || k == 0 {
        NullAbsent(hash, arr[..], n, count, slotsUsed, k);
        return 0, true;
      }
      var s;
      s, inside := FindForGet(k);
      if !inside || arr[s] == Empty {
        return 0, inside;
      }
      ModelHas(arr[..], s);
      return arr[s].val, true;
    }

    /** The probe loop of remove, with the slots of put: stops at the key or at an empty slot. */
    method FindForRemove(k: int) returns (s: nat, inside: bool)
      requires Valid()
      ensures inside <==> !RemoveLeaves(hash, T(), k)
      ensures Fits(hash(k), arr.Length) ==> inside
      ensures inside ==> Found(T(), k, s)
    {
      ghost var t := arr[..];
      ghost var last := ProbesEnd(t, n, hash(k));
      RemoveStart(hash, t, k);
      hide *;
      var i := 0;
      while true
        invariant 0 <= i <= last && Misses(hash, t, k, i) && StaysInside(hash(k), i, |t|)
        decreases last - i
      {
        RemoveStep(hash, t, n, count, slotsUsed, k, i, last);
        var p := PutProbe(hash(k), i, arr.Length);
        if p.Outside? {
          return 0, false;
        }
        s := p.s;
        if arr[s] == Empty {
          return s, true;
        }
        if arr[s].Live? && arr[s].key == k {
          return s, true;
        }
        i := i + 1;
      }
    }

    /** `hashmapq_remove_entry`; the key reported in the entry is the tombstone. */
    method RemoveEntry(k: int) returns (key: Cell, val: int, inside: bool)
      requires Valid()
      modifies this`count, arr
      ensures arr == old(arr) && (inside <==> !RemoveLeaves(hash, old(T()), k))
      ensures Fits(hash(k), arr.Length) ==> inside
      ensures Valid() && Model(T()) == if inside then old(Model(T())) - {k} else old(Model(T()))
      ensures inside && k in old(Model(T())) ==> key == Tomb && val == old(Model(T()))[k]
      ensures k !in old(Model(T())) ==> key == Empty && val == 0 && T() == old(T())
    {
      hide Reachable, Fits, PutProbe;
      var s;
      s, inside := FindForRemove(k);
      if !inside || arr[s] == Empty {
        return Empty, 0, inside;
      }
      ModelHas(arr[..], s);
      SetTomb(hash, arr[..], s);
      CountUpdate(arr[..], s, Tomb);
      val := arr[s].val;
      arr[s] := Tomb;
      count := count - 1;
      key := arr[s];
      assert arr[..] == old(arr[..])[s := Tomb];
    }

    /** The probe loop of put: stops at the key, at an empty slot or at a tombstone. */
    method FindForPut(k: int) returns (s: nat, inside: bool, ghost i: nat)
      requires Valid()
      ensures inside <==> !PutLeaves(hash, T(), k)
      ensures Fits(hash(k), arr.Length) ==> inside
      ensures inside ==> PutProbe(hash(k), 0, arr.Length).Slot?
      ensures inside ==>
        && s < arr.Length && s == Quadratic(hash(k), i, arr.Length) && Passes(hash, T(), k, i)
        && (arr[s].Live? ==> arr[s].key == k)
    {
      ghost var t := arr[..];
      ghost var last := ProbesEnd(t, n, hash(k));
      PutStart(hash, t, k);
      hide *;
      var p := 0;
      while true
        invariant 0 <= p <= last && Passes(hash, t, k, p) && StaysInside(hash(k), p, |t|)
        decreases last - p
      {
        PutStep(hash, t, n, count, slotsUsed, k, p, last);
        var probe := PutProbe(hash(k), p, arr.Length);
        i := p;
        if probe.Outside? {
          return 0, false, p;
        }
        s := probe.s;
        if !arr[s].Live? || arr[s].key == k {
          return s, true, p;
        }
        p := p + 1;
      }
    }

    /** The insertion part of put. */
    method Insert(k: int, v: int) returns (prev: int, inside: bool, tomb: bool)
      requires Valid() && 2 * slotsUsed < arr.Length && k != 0 && v != 0
      modifies this`count, this`slotsUsed, arr
      ensures arr == old(arr) && slotsUsed <= old(slotsUsed) + 1
      ensures inside <==> !PutLeaves(hash, old(T()), k)
      ensures Fits(hash(k), arr.Length) ==> inside
      ensures inside ==> PutProbe(hash(k), 0, arr.Length).Slot?
      ensures !inside ==> Valid() && T() == old(T()) && !tomb
      ensures inside ==> (tomb <==> LandsOnTomb(hash, old(T()), k))
      ensures inside && !tomb ==> Valid() && Model(T()) == old(Model(T()))[k := v]
      ensures inside && !tomb ==> prev == if k in old(Model(T())) then old(Model(T()))[k] else 0
      ensures tomb ==> !Valid() && Reused(hash, old(T()), T(), k, v) && count == old(count) && prev == 0
      ensures inside ==> T() == Placed(hash, old(T()), k, v)
      ensures Tomb !in old(T()) ==> Tomb !in T()
    {
      hide Sound, Reachable, Quadratic, PutProbe, Fits, PutLeaves, LandsOnTomb, Reused, Passes, Placed;
      ghost var t := arr[..];
      ghost var i;
      var s;
      tomb := false;
      s, inside, i := FindForPut(k);
      if !inside {
        return 0, false, false;
      }
      StopDecides(hash, t, k, i);
      PlacedAt(hash, t, k, v, i);
      InsertOutcome(hash, t, n, count, slotsUsed, s, i, k, v);
      if arr[s] == Tomb { ReusedThere(hash, t, k, v, i); }
      hide Model, Unique;
      tomb := arr[s] == Tomb;
      prev := 0;
      if !arr[s].Live? {
        if arr[s] == Empty {
          slotsUsed := slotsUsed + 1;
          count := count + 1;
        }
        arr[s] := Live(k, v);
      } else {
        prev := arr[s].val;
        arr[s] := Live(k, v);
      }
      assert arr[..] == t[s := Live(k, v)];
    }

    /**
     * `hashmapq_increase_capacity`: the entries are put again, the tombstones are not. No inner put finds the
     * new table half used, so none of them grows it further. All stay inside the new table exactly when none of
     * them leaves the table that the ones before it built. Fitting keys stay inside.
     */
    method IncreaseCapacity() returns (inside: bool)
      requires Valid()
      modifies this
      ensures inside <==>
        2 * old(arr.Length) <= INT_MAX && !RehashLeaves(hash, old(T()), 2 * old(arr.Length))
      ensures 2 * old(arr.Length) <= INT_MAX && AllFit(hash, old(Model(T())), 2 * old(arr.Length)) ==> inside
      ensures inside ==> FirstInside(hash, old(Model(T())), 2 * old(arr.Length))
      ensures inside ==> T() == Rehashed(hash, old(T()), old(arr.Length), 2 * old(arr.Length))
      ensures inside ==> Valid() && fresh(arr) && arr.Length == 2 * old(arr.Length)
      ensures inside ==> Model(T()) == old(Model(T())) && 2 * slotsUsed < arr.Length && Tomb !in T()
      ensures inside ==> slotsUsed <= old(slotsUsed)
    {
      var old_ := arr;
      ghost var t := arr[..];
      Grown(hash, t, n, count, slotsUsed);
      if INT_MAX < 2 * old_.Length {
        return false;
      }
      count, slotsUsed := 0, 0;
      arr := new Cell[2 * old_.Length](_ => Empty);
      n := n + 1;
      EmptySound(hash, arr[..], n);
      assert arr[..] == Rehashed(hash, t, 0, arr.Length);
      inside := PutAgain(old_, t);
    }

    /** The loop over the old array. */
    method PutAgain(old_: array<Cell>, ghost t: Table) returns (inside: bool)
      requires Valid() && old_ != arr && old_[..] == t && arr.Length == 2 * |t| && slotsUsed == 0
      requires Unique(t) && (forall s :: 0 <= s < |t| && t[s].Live? ==> t[s].key != 0 && t[s].val != 0)
      requires 2 * NumLive(t) <= |t| && Model(T()) == map[] && Tomb !in T()
      requires T() == Rehashed(hash, t, 0, arr.Length)
      modifies this`count, this`slotsUsed, arr
      ensures inside <==> !RehashLeaves(hash, t, arr.Length)
      ensures inside ==> T() == Rehashed(hash, t, |t|, arr.Length)
      ensures AllFit(hash, Model(t), arr.Length) ==> inside
      ensures inside ==> FirstInside(hash, Model(t), arr.Length)
      ensures inside ==> Valid() && Model(T()) == Model(t) && 2 * slotsUsed < arr.Length && Tomb !in T()
      ensures inside ==> slotsUsed <= NumLive(t)
    {
      hide Sound, Reachable, Quadratic, PutProbe, Fits, Model, Unique, AllFit, FirstInside;
      hide Rehashed, Placed, PutLeaves, LeavesAt, HalfUsed;
      SoundUnique(hash, arr[..], n, count, slotsUsed);
      EmptyPrefix(hash, t, arr.Length);
      var ii := 0;
      while ii < old_.Length
        invariant 0 <= ii <= old_.Length && old_[..] == t && arr.Length == 2 * |t|
        invariant Valid() && Tomb !in T() && slotsUsed <= NumLive(t[..ii])
        invariant Unique(arr[..]) && Unique(t[..ii]) && Model(arr[..]) == Model(t[..ii])
        invariant FirstInside(hash, Model(t[..ii]), arr.Length)
        invariant arr[..] == Rehashed(hash, t, ii, arr.Length)
        invariant forall j :: 0 <= j < ii ==> !LeavesAt(hash, t, j, arr.Length)
      {
        PrefixGrown(t, ii);
        RehashedStep(hash, t, ii, arr.Length);
        if old_[ii].Live? {
          var tomb;
          var prev;
          QuarterUsed(slotsUsed, arr.Length);
          assert !HalfUsed(slotsUsed, arr.Length);
          NoTombToLand(hash, arr[..], old_[ii].key);
          FitsOne(hash, t, ii, arr.Length);
          prev, inside, tomb := Insert(old_[ii].key, old_[ii].val);
          if !inside {
            return false;
          }
          FirstInsideMore(hash, Model(t[..ii]), old_[ii].key, old_[ii].val, arr.Length);
          SoundUnique(hash, arr[..], n, count, slotsUsed);
        }
        ii := ii + 1;
      }
      assert t[..ii] == t;
      inside := true;
    }

    method EnsureCapacity() returns (inside: bool)
      requires Valid()
      modifies this
      ensures !HalfUsed(old(slotsUsed), old(arr.Length)) ==>
        inside && arr == old(arr) && T() == old(T()) && count == old(count)
      ensures HalfUsed(old(slotsUsed), old(arr.Length)) ==>
        (inside <==> 2 * old(arr.Length) <= INT_MAX && !RehashLeaves(hash, old(T()), 2 * old(arr.Length)))
      ensures 2 * old(arr.Length) <= INT_MAX && AllFit(hash, old(Model(T())), 2 * old(arr.Length)) ==> inside
      ensures inside ==> Valid() && 2 * slotsUsed < arr.Length && Model(T()) == old(Model(T()))
      ensures inside ==> slotsUsed <= old(slotsUsed)
      ensures inside && HalfUsed(old(slotsUsed), old(arr.Length)) ==>
        && fresh(arr) && arr.Length == 2 * old(arr.Length) && Tomb !in T()
        && T() == Rehashed(hash, old(T()), old(arr.Length), 2 * old(arr.Length))
    {
      hide AllFit, FirstInside, HalfUsed, Rehashed, RehashLeaves, Reachable;
      NotHalfUsed(slotsUsed, n);
      if !HalfUsed(slotsUsed, arr.Length) {
        return true;
      }
      inside := IncreaseCapacity();
    }

    /**
     * On a sound map, and as long as it stays inside the table, put updates the represented map and keeps
     * everything sound exactly when it does not land on a tombstone. A table that is not grown is left exactly
     * when a probe of the key leaves it; a table that is grown, when an entry or the key leaves the new one. A
     * fitting key in a table of fitting keys never leaves it.
     */
    method Put(k: int, v: int) returns (prev: int, inside: bool, tomb: bool)
      requires Valid()
      modifies this, arr
      ensures k == 0 || v == 0 ==> inside && T() == old(T()) && prev == 0
      ensures k != 0 && v != 0 && !HalfUsed(old(slotsUsed), old(arr.Length)) ==>
        (inside <==> !PutLeaves(hash, old(T()), k))
      ensures k != 0 && v != 0 && HalfUsed(old(slotsUsed), old(arr.Length)) ==>
        (inside <==>
          && 2 * old(arr.Length) <= INT_MAX && !RehashLeaves(hash, old(T()), 2 * old(arr.Length))
          && !PutLeaves(hash, Rehashed(hash, old(T()), old(arr.Length), 2 * old(arr.Length)), k))
      ensures !HalfUsed(old(slotsUsed), old(arr.Length)) && Fits(hash(k), old(arr.Length)) ==> inside
      ensures 2 * old(arr.Length) <= INT_MAX && AllFit(hash, old(Model(T()))[k := v], 2 * old(arr.Length)) ==> inside
      ensures inside ==>
        (tomb <==> k != 0 && v != 0 && !HalfUsed(old(slotsUsed), old(arr.Length)) && LandsOnTomb(hash, old(T()), k))
      ensures inside ==> (Valid() <==> !tomb)
      ensures inside ==> arr == old(arr) || fresh(arr)
      ensures inside ==> slotsUsed <= old(slotsUsed) + 1
      ensures inside ==>
        || arr.Length == old(arr.Length)
        || (arr.Length == 2 * old(arr.Length) && HalfUsed(old(slotsUsed), old(arr.Length)))
      ensures inside && Tomb !in old(T()) ==> Tomb !in T()
      ensures tomb ==> inside && Reused(hash, old(T()), T(), k, v) && count == old(count) && prev == 0
      ensures inside && k != 0 && v != 0 && !tomb ==>
                && Model(T()) == old(Model(T()))[k := v]
                && prev == if k in old(Model(T())) then old(Model(T()))[k] else 0
    {
      hide Sound, Reachable, Quadratic, PutProbe, AllFit, Fits, HalfUsed, Rehashed, RehashLeaves, PutLeaves, Placed;
      tomb := false;
      if k == 0 || v == 0 {
        return 0, true, false;
      }
      SoundUnique(hash, arr[..], n, count, slotsUsed);
      FitMore(hash, Model(T()), k, v, arr.Length);
      inside := EnsureCapacity();
      if !inside {
        return 0, false, false;
      }
      SoundUnique(hash, arr[..], n, count, slotsUsed);
      if Tomb !in arr[..] { NoTombToLand(hash, arr[..], k); }
      prev, inside, tomb := Insert(k, v);
    }

    /** `hashmapq_clear`; `slots_used` keeps its value. */
    method Clear()
      requires Valid()
      modifies this`count, arr
      ensures Valid() && arr == old(arr) && count == 0 && Model(T()) == map[]
      ensures forall s :: 0 <= s < arr.Length ==> arr[s] == Empty
    {
      ghost var t := arr[..];
      var ii := 0;
      while ii < arr.Length
        invariant 0 <= ii <= arr.Length
        invariant forall s :: 0 <= s < ii ==> arr[s] == Empty
        invariant forall s :: ii <= s < arr.Length ==> arr[s] == t[s]
        invariant count == NumLive(arr[..]) && NumUsed(arr[..]) <= slotsUsed
      {
        CountUpdate(arr[..], ii, Empty);
        assert arr[..][ii := Empty] == arr[..ii] + [Empty] + arr[ii + 1..];
        if arr[ii].Live? {
          count := count - 1;
        }
        ghost var before := arr[..];
        arr[ii] := Empty;
        assert arr[..] == before[ii := Empty];
        ii := ii + 1;
      }
      NoneLive(arr[..]);
    }
  }

  /** Put has one place at most. */
  lemma PlacedAt(hash: int -> nat, t: Table, k: int, v: int, i: nat)
    requires |t| > 0 && Stops(hash, t, k, i)
    ensures Placed(hash, t, k, v) == t[Quadratic(hash(k), i, |t|) := Live(k, v)]
  {
    hide Quadratic;
    forall j: nat | Stops(hash, t, k, j) ensures j == i {
    }
  }

  lemma RehashedStep(hash: int -> nat, t: Table, i: nat, size: nat)
    requires size > 0 && i < |t|
    ensures var u := Rehashed(hash, t, i, size);
            Rehashed(hash, t, i + 1, size) == if t[i].Live? then Placed(hash, u, t[i].key, t[i].val) else u
    ensures LeavesAt(hash, t, i, size) <==> t[i].Live? && PutLeaves(hash, Rehashed(hash, t, i, size), t[i].key)
  {
  }

  /** What the float comparison of `__ensurecapacity` tells. */
  lemma NotHalfUsed(used: nat, n: nat)
    requires n >= 1 && 2 * used <= Pow2(n)
    ensures !HalfUsed(used, Pow2(n)) ==> 2 * used < Pow2(n)
  {
    HalfUsedWhen(used, n);
  }

  lemma QuarterUsed(used: nat, size: nat)
    requires 4 * used < size
    ensures !HalfUsed(used, size)
  {
    AtMostTwice(used);
  }

  lemma RemoveStart(hash: int -> nat, t: Table, k: int)
    requires |t| > 0
    ensures Misses(hash, t, k, 0) && StaysInside(hash(k), 0, |t|)
  {
  }

  /** The cell of probe `i`, which decides what the loops of get and remove do. */
  lemma CellDecides(hash: int -> nat, t: Table, n: nat, count: int, used: int, k: int, i: nat, last: nat, s: nat)
    requires Sound(hash, t, n, count, used) && s == Quadratic(hash(k), i, |t|)
    requires Misses(hash, t, k, i) && i <= last && t[Quadratic(hash(k), last, |t|)] == Empty
    ensures Unique(t)
    ensures t[s] == Empty || (t[s].Live? && t[s].key == k) ==> Found(t, k, s)
    ensures t[s] != Empty && !(t[s].Live? && t[s].key == k) ==> i < last && Misses(hash, t, k, i + 1)
  {
    hide Quadratic;
    if t[s] == Empty {
      AbsentAtEmpty(hash, t, k, i);
    } else if t[s].Live? && t[s].key == k {
      ModelHas(t, s);
    }
  }

  lemma StoppedInside(hash: int -> nat, t: Table, k: int, i: nat)
    requires |t| > 0 && StaysInside(hash(k), i, |t|) && PutProbe(hash(k), i, |t|).Slot?
    requires var c := t[Quadratic(hash(k), i, |t|)]; c == Empty || (c.Live? && c.key == k)
    ensures !RemoveLeaves(hash, t, k)
  {
    hide Quadratic, PutProbe;
    forall j: nat | Misses(hash, t, k, j) && StaysInside(hash(k), j, |t|) ensures PutProbe(hash(k), j, |t|).Slot? {
    }
  }

  lemma RemoveStep(hash: int -> nat, t: Table, n: nat, count: int, used: int, k: int, i: nat, last: nat)
    requires Sound(hash, t, n, count, used)
    requires Misses(hash, t, k, i) && StaysInside(hash(k), i, |t|)
    requires i <= last <= |t| && t[Quadratic(hash(k), last, |t|)] == Empty
    ensures |t| > 0 && Unique(t)
    ensures Fits(hash(k), |t|) ==> PutProbe(hash(k), i, |t|).Slot?
    ensures PutProbe(hash(k), i, |t|).Outside? ==> RemoveLeaves(hash, t, k)
    ensures PutProbe(hash(k), i, |t|).Slot? ==>
      var s := PutProbe(hash(k), i, |t|).s;
      && s < |t|
      && (t[s] == Empty || (t[s].Live? && t[s].key == k) ==> Found(t, k, s) && !RemoveLeaves(hash, t, k))
      && (t[s] != Empty && !(t[s].Live? && t[s].key == k) ==>
            i < last && Misses(hash, t, k, i + 1) && StaysInside(hash(k), i + 1, |t|))
  {
    PutProbeIs(hash(k), i, n);
    if Fits(hash(k), |t|) { FitsInside(hash(k), i, n); }
    hide Quadratic, PutProbe, Fits, Reachable, Misses, Model, Unique;
    var s := Quadratic(hash(k), i, |t|);
    CellDecides(hash, t, n, count, used, k, i, last, s);
    if PutProbe(hash(k), i, |t|).Slot? && (t[s] == Empty || (t[s].Live? && t[s].key == k)) {
      StoppedInside(hash, t, k, i);
    }
  }

  lemma PutStart(hash: int -> nat, t: Table, k: int)
    requires |t| > 0
    ensures Passes(hash, t, k, 0) && StaysInside(hash(k), 0, |t|)
  {
  }

  lemma PutStoppedInside(hash: int -> nat, t: Table, k: int, i: nat)
    requires |t| > 0 && StaysInside(hash(k), i, |t|) && PutProbe(hash(k), i, |t|).Slot?
    requires var c := t[Quadratic(hash(k), i, |t|)]; !c.Live? || c.key == k
    ensures !PutLeaves(hash, t, k) && PutProbe(hash(k), 0, |t|).Slot?
  {
    hide Quadratic, PutProbe;
    forall j: nat | Passes(hash, t, k, j) && StaysInside(hash(k), j, |t|) ensures PutProbe(hash(k), j, |t|).Slot? {
    }
  }

  lemma PutStep(hash: int -> nat, t: Table, n: nat, count: int, used: int, k: int, i: nat, last: nat)
    requires Sound(hash, t, n, count, used)
    requires Passes(hash, t, k, i) && StaysInside(hash(k), i, |t|)
    requires i <= last <= |t| && t[Quadratic(hash(k), last, |t|)] == Empty
    ensures |t| > 0
    ensures Fits(hash(k), |t|) ==> PutProbe(hash(k), i, |t|).Slot?
    ensures PutProbe(hash(k), i, |t|).Outside? ==> PutLeaves(hash, t, k)
    ensures PutProbe(hash(k), i, |t|).Slot? ==>
      var s := PutProbe(hash(k), i, |t|).s;
      && s < |t| && s == Quadratic(hash(k), i, |t|)
      && (!t[s].Live? || t[s].key == k ==> !PutLeaves(hash, t, k) && PutProbe(hash(k), 0, |t|).Slot?)
      && (t[s].Live? && t[s].key != k ==>
            i < last && Passes(hash, t, k, i + 1) && StaysInside(hash(k), i + 1, |t|))
  {
    PutProbeIs(hash(k), i, n);
    if Fits(hash(k), |t|) { FitsInside(hash(k), i, n); }
    hide Quadratic, PutProbe, Fits, Reachable;
    var s := Quadratic(hash(k), i, |t|);
    if PutProbe(hash(k), i, |t|).Slot? && (!t[s].Live? || t[s].key == k) {
      PutStoppedInside(hash, t, k, i);
    }
  }

  lemma GetStoppedInside(hash: int -> nat, t: Table, n: nat, k: int, i: nat)
    requires n <= 32 && |t| == Pow2(n) && i * i <= INT_MAX
    requires var c := t[Quadratic(hash(k), i, |t|)]; c == Empty || (c.Live? && c.key == k)
    ensures !GetLeaves(hash, t, k)
  {
    hide Quadratic, GetProbe;
    forall j: nat | Misses(hash, t, k, j) ensures GetProbe(hash(k), j, |t|).Slot? {
      OffsetGrows(if j <= i then j else i, i);
      GetProbeIs(hash(k), j, n);
    }
  }

  lemma GetStep(hash: int -> nat, t: Table, n: nat, count: int, used: int, k: int, i: nat, last: nat)
    requires Sound(hash, t, n, count, used) && Misses(hash, t, k, i)
    requires i <= last <= |t| && t[Quadratic(hash(k), last, |t|)] == Empty
    ensures |t| > 0 && Unique(t)
    ensures |t| * |t| <= INT_MAX ==> GetProbe(hash(k), i, |t|).Slot?
    ensures GetProbe(hash(k), i, |t|).Outside? ==> GetLeaves(hash, t, k)
    ensures GetProbe(hash(k), i, |t|).Slot? ==>
      var s := GetProbe(hash(k), i, |t|).s;
      && s < |t|
      && (t[s] == Empty || (t[s].Live? && t[s].key == k) ==> Found(t, k, s) && !GetLeaves(hash, t, k))
      && (t[s] != Empty && !(t[s].Live? && t[s].key == k) ==> i < last && Misses(hash, t, k, i + 1))
  {
    GetProbeIs(hash(k), i, n);
    OffsetGrows(i, |t|);
    hide Quadratic, GetProbe, Reachable, Misses, Model, Unique;
    var s := Quadratic(hash(k), i, |t|);
    CellDecides(hash, t, n, count, used, k, i, last, s);
    if i * i <= INT_MAX && (t[s] == Empty || (t[s].Live? && t[s].key == k)) {
      GetStoppedInside(hash, t, n, k, i);
    }
  }

  /** The loop of get or remove ended at the key, or at an empty slot if there is none. */
  predicate Found(t: Table, k: int, s: nat)
    requires Unique(t)
  {
    s < |t| && if k in Model(t) then t[s].Live? && t[s].key == k else t[s] == Empty
  }

  ghost predicate AllFit(hash: int -> nat, m: map<int, int>, size: nat) {
    forall k :: k in m ==> Fits(hash(k), size)
  }

  ghost predicate FirstInside(hash: int -> nat, m: map<int, int>, size: nat)
    requires size > 0
  {
    forall k :: k in m ==> PutProbe(hash(k), 0, size).Slot?
  }

  lemma FitMore(hash: int -> nat, m: map<int, int>, k: int, v: int, size: nat)
    ensures AllFit(hash, m[k := v], 2 * size) ==>
      AllFit(hash, m, 2 * size) && Fits(hash(k), 2 * size) && Fits(hash(k), size)
  {
    OffsetGrows(size, 2 * size);
    if AllFit(hash, m[k := v], 2 * size) {
      assert k in m[k := v];
      assert forall x :: x in m ==> x in m[k := v];
    }
  }

  lemma EmptyPrefix(hash: int -> nat, t: Table, size: nat)
    requires size > 0
    ensures Unique(t[..0]) && Model(t[..0]) == map[] && FirstInside(hash, Model(t[..0]), size) && NumLive(t[..0]) == 0
  {
  }

  lemma FitsOne(hash: int -> nat, t: Table, s: nat, size: nat)
    requires Unique(t) && s < |t| && t[s].Live?
    ensures AllFit(hash, Model(t), size) ==> Fits(hash(t[s].key), size)
  {
    ModelHas(t, s);
  }

  lemma FirstInsideMore(hash: int -> nat, m: map<int, int>, k: int, v: int, size: nat)
    requires size > 0 && FirstInside(hash, m, size) && PutProbe(hash(k), 0, size).Slot?
    ensures FirstInside(hash, m[k := v], size)
  {
  }

  lemma SoundUnique(hash: int -> nat, t: Table, n: nat, count: int, used: int)
    requires Sound(hash, t, n, count, used)
    ensures |t| > 0 && Unique(t)
  {
  }

  lemma NoTombToLand(hash: int -> nat, t: Table, k: int)
    requires |t| > 0 && Tomb !in t
    ensures !LandsOnTomb(hash, t, k)
  {
  }

  lemma EmptySound(hash: int -> nat, t: Table, n: nat)
    requires 1 <= n <= 30 && |t| == Pow2(n) && forall s :: 0 <= s < |t| ==> t[s] == Empty
    ensures Sound(hash, t, n, 0, 0) && Model(t) == map[] && Unique(t)
  {
    NoneLive(t);
  }

  /** What is known of the old table while it is rehashed. */
  lemma Grown(hash: int -> nat, t: Table, n: nat, count: int, used: int)
    requires Sound(hash, t, n, count, used)
    ensures 2 * |t| == Pow2(n + 1) && |t| > 0 && Unique(t) && 2 * NumLive(t) <= |t| && n >= 1
    ensures NumLive(t) <= used
    ensures 2 * |t| <= INT_MAX ==> n + 1 <= 30
    ensures forall s :: 0 <= s < |t| && t[s].Live? ==> t[s].key != 0 && t[s].val != 0
  {
    UsedBound(t);
    assert Pow2(10) == 1024;
    PowSum(10, 10);
    PowSum(20, 10);
  }

  lemma PrefixGrown(t: Table, i: nat)
    requires Unique(t) && i < |t|
    ensures Unique(t[..i]) && Unique(t[..i + 1])
    ensures NumLive(t[..i]) <= NumLive(t[..i + 1]) <= NumLive(t)
    ensures t[i].Live? ==> NumLive(t[..i + 1]) == NumLive(t[..i]) + 1
    ensures Model(t[..i + 1]) == if t[i].Live? then Model(t[..i])[t[i].key := t[i].val] else Model(t[..i])
  {
    assert t[..i + 1][..i] == t[..i];
    PrefixLive(t, i + 1);
    var u := t[..i + 1];
    assert u[i] == t[i];
    forall s | 0 <= s < i ensures u[s] == t[..i][s] {
    }
    ModelPrefix(u, i);
  }

  lemma ModelPrefix(u: Table, i: nat)
    requires |u| == i + 1 && Unique(u) && Unique(u[..i])
    ensures Model(u) == if u[i].Live? then Model(u[..i])[u[i].key := u[i].val] else Model(u[..i])
  {
    var a := Model(u);
    var b := if u[i].Live? then Model(u[..i])[u[i].key := u[i].val] else Model(u[..i]);
    forall x ensures x in a <==> x in b {
      if x in a {
        var s :| 0 <= s < |u| && u[s].Live? && u[s].key == x;
        if s < i { assert u[..i][s].Live? && u[..i][s].key == x; }
      }
      if x in Model(u[..i]) {
        var s :| 0 <= s < i && u[..i][s].Live? && u[..i][s].key == x;
        assert u[s].Live? && u[s].key == x;
      }
      if u[i].Live? { ModelHas(u, i); }
    }
    forall x | x in a ensures a[x] == b[x] {
      var s :| 0 <= s < |u| && u[s].Live? && u[s].key == x;
      ModelHas(u, s);
      if s < i { ModelHas(u[..i], s); }
    }
  }

  lemma {:induction false} PrefixLive(t: Table, i: nat)
    requires i <= |t|
    ensures NumLive(t[..i]) <= NumLive(t)
    decreases |t|
  {
    if i < |t| {
      PrefixLive(t[..|t| - 1], i);
      assert t[..|t| - 1][..i] == t[..i];
    } else {
      assert t[..i] == t;
    }
  }

  lemma InsertOutcome(hash: int -> nat, t: Table, n: nat, count: int, used: int, s: nat, i: nat, k: int, v: int)
    requires Sound(hash, t, n, count, used) && 2 * used < |t| && k != 0 && v != 0
    requires s < |t| && s == Quadratic(hash(k), i, |t|) && Passes(hash, t, k, i) && (t[s].Live? ==> t[s].key == k)
    ensures var u := t[s := Live(k, v)];
            && (t[s] == Tomb ==> !Sound(hash, u, n, count, used))
            && (t[s] == Empty ==> Sound(hash, u, n, count + 1, used + 1) && k !in Model(t))
            && (t[s].Live? ==> Sound(hash, u, n, count, used) && k in Model(t) && Model(t)[k] == t[s].val)
            && (t[s] != Tomb ==> Unique(u) && Model(u) == Model(t)[k := v])
  {
    hide Sound, Quadratic, Model, Unique;
    SoundUnique(hash, t, n, count, used);
    if t[s] == Tomb {
      TombBreaks(hash, t, n, count, used, s, k, v);
    } else if t[s] == Empty {
      StoredAtEmpty(hash, t, n, count, used, s, i, k, v);
    } else {
      StoredAtKey(hash, t, n, count, used, s, i, k, v);
    }
  }

  lemma StoredAtEmpty(hash: int -> nat, t: Table, n: nat, count: int, used: int, s: nat, i: nat, k: int, v: int)
    requires Sound(hash, t, n, count, used) && 2 * used < |t| && k != 0 && v != 0
    requires s < |t| && s == Quadratic(hash(k), i, |t|) && Passes(hash, t, k, i) && t[s] == Empty
    ensures var u := t[s := Live(k, v)];
      && Sound(hash, u, n, count + 1, used + 1) && k !in Model(t) && Unique(u) && Model(u) == Model(t)[k := v]
  {
    PassesClear(hash, t, k, i);
    AbsentAtEmpty(hash, t, k, i);
    RoomForOne(used, n);
    hide Quadratic, Reachable, Model, Unique, Pow2, NumLive, NumUsed, Clear, Passes;
    CountUpdate(t, s, Live(k, v));
    SetLive(hash, t, s, k, v, i);
  }

  lemma StoredAtKey(hash: int -> nat, t: Table, n: nat, count: int, used: int, s: nat, i: nat, k: int, v: int)
    requires Sound(hash, t, n, count, used) && k != 0 && v != 0
    requires s < |t| && s == Quadratic(hash(k), i, |t|) && Passes(hash, t, k, i) && t[s].Live? && t[s].key == k
    ensures var u := t[s := Live(k, v)];
      && Sound(hash, u, n, count, used) && k in Model(t) && Model(t)[k] == t[s].val
      && Unique(u) && Model(u) == Model(t)[k := v]
  {
    PassesClear(hash, t, k, i);
    ModelHas(t, s);
    hide Quadratic, Reachable, Model, Unique, Pow2, NumLive, NumUsed, Clear, Passes;
    CountUpdate(t, s, Live(k, v));
    SetLive(hash, t, s, k, v, i);
  }

  lemma PassesClear(hash: int -> nat, t: Table, k: int, i: nat)
    requires |t| > 0 && Passes(hash, t, k, i)
    ensures Clear(t, hash(k), i)
  {
  }

  /** The cell where the loop of put stops decides whether it lands on a tombstone. */
  lemma StopDecides(hash: int -> nat, t: Table, k: int, i: nat)
    requires |t| > 0 && Passes(hash, t, k, i)
    requires var c := t[Quadratic(hash(k), i, |t|)]; c.Live? ==> c.key == k
    ensures t[Quadratic(hash(k), i, |t|)] == Tomb <==> LandsOnTomb(hash, t, k)
  {
  }

  lemma RoomForOne(used: int, n: nat)
    requires n >= 1 && 2 * used < Pow2(n)
    ensures 2 * (used + 1) <= Pow2(n)
  {
  }

  /** Reusing a tombstone leaves the count behind, or stores the key twice. */
  lemma TombBreaks(hash: int -> nat, t: Table, n: nat, count: int, slotsUsed: int, s: nat, k: int, v: int)
    requires Sound(hash, t, n, count, slotsUsed) && s < |t| && t[s] == Tomb
    ensures !Sound(hash, t[s := Live(k, v)], n, count, slotsUsed)
  {
    CountUpdate(t, s, Live(k, v));
  }

  /** The binding was stored over the first tombstone that a put for the key meets. */
  ghost predicate Reused(hash: int -> nat, t: Table, u: Table, k: int, v: int)
    requires |t| > 0
  {
    exists i: nat ::
      && Passes(hash, t, k, i) && t[Quadratic(hash(k), i, |t|)] == Tomb
      && u == t[Quadratic(hash(k), i, |t|) := Live(k, v)]
  }

  lemma ReusedThere(hash: int -> nat, t: Table, k: int, v: int, i: nat)
    requires |t| > 0 && Passes(hash, t, k, i) && t[Quadratic(hash(k), i, |t|)] == Tomb
    ensures Reused(hash, t, t[Quadratic(hash(k), i, |t|) := Live(k, v)], k, v)
  {
  }

  /**
   * What reusing a tombstone does. An absent key is bound, but the count stays one behind. A present key is then
   * stored twice: a search meets the new binding first, and removing that brings the old table back.
   */
  lemma TombEffect(hash: int -> nat, t: Table, n: nat, count: int, used: int, u: Table, k: int, v: int) returns (i: nat)
    requires Sound(hash, t, n, count, used) && Reused(hash, t, u, k, v)
    ensures |u| == |t| && NumLive(u) == count + 1
    ensures k !in Model(t) ==> Unique(u) && Reachable(hash, u) && Model(u) == Model(t)[k := v]
    ensures k in Model(t) ==> !Unique(u)
    ensures Passes(hash, u, k, i)
    ensures var s := Quadratic(hash(k), i, |u|); u[s] == Live(k, v) && u[s := Tomb] == t
  {
    i :| Passes(hash, t, k, i) && t[Quadratic(hash(k), i, |t|)] == Tomb
      && u == t[Quadratic(hash(k), i, |t|) := Live(k, v)];
    var s := Quadratic(hash(k), i, |t|);
    hide Quadratic, Reachable;
    CountUpdate(t, s, Live(k, v));
    PassesBefore(hash, t, k, i, Live(k, v));
    hide Model, Unique, NumLive, NumUsed, Pow2, Passes;
    if k in Model(t) {
      StoredTwice(t, s, k, v);
    } else {
      PassesClear(hash, t, k, i);
      SetLive(hash, t, s, k, v, i);
    }
  }

  lemma StoredTwice(t: Table, s: nat, k: int, v: int)
    requires Unique(t) && k in Model(t) && s < |t| && !t[s].Live?
    ensures !Unique(t[s := Live(k, v)])
  {
    var u := t[s := Live(k, v)];
    var q :| 0 <= q < |t| && t[q].Live? && t[q].key == k;
    assert u[q] == t[q] && u[s].key == k;
  }

  /** Another cell at the place where the probes stop does not change what they passed. */
  lemma PassesBefore(hash: int -> nat, t: Table, k: int, i: nat, c: Cell)
    requires |t| > 0 && Passes(hash, t, k, i) && !t[Quadratic(hash(k), i, |t|)].Live?
    ensures Passes(hash, t[Quadratic(hash(k), i, |t|) := c], k, i)
  {
    hide Quadratic;
  }

  lemma {:induction false} LiveCounted(t: Table, s: nat)
    requires s < |t| && t[s].Live?
    ensures NumLive(t) > 0
    decreases |t|
  {
    if s < |t| - 1 { LiveCounted(t[..|t| - 1], s); }
  }

  lemma NullAbsent(hash: int -> nat, t: Table, n: nat, count: int, slotsUsed: int, k: int)
    requires Sound(hash, t, n, count, slotsUsed) && (count == 0 || k == 0)
    ensures k !in Model(t)
  {
    forall s | 0 <= s < |t| && t[s].Live? ensures t[s].key != k {
      LiveCounted(t, s);
    }
  }

  // ---------------------------------------------------------------------------------
  // Outside the domain

  /** A table of capacity 1 that holds an entry has no empty slot: probing for another key never
      meets an empty slot or the key. */
  lemma CapacityOneNeverEnds(t: Table, slot: nat, k: int, i: nat)
    requires |t| == 1 && t[0].Live? && t[0].key != k
    ensures var c := t[Quadratic(slot, i, |t|)]; c != Empty && !(c.Live? && c.key == k)
  {
  }

  /** Putting a key again right after removing it always lands on a tombstone, unless the table
      grows first: the put that follows a remove is the one that breaks the map. */
  lemma RemovedKeyLandsOnTomb(hash: int -> nat, t: Table, s: nat)
    requires |t| > 0 && Unique(t) && Reachable(hash, t) && s < |t| && t[s].Live?
    ensures LandsOnTomb(hash, t[s := Tomb], t[s].key)
  {
    var u, k := t[s := Tomb], t[s].key;
    var i :| i >= 0 && Quadratic(hash(k), i, |t|) == s && Clear(t, hash(k), i);
    assert Clear(u, hash(k), i);
    FirstTomb(hash, u, k, 0, i);
  }

  lemma {:induction false} FirstTomb(hash: int -> nat, u: Table, k: int, j: nat, i: nat)
    requires |u| > 0 && j <= i && Passes(hash, u, k, j) && Clear(u, hash(k), i)
    requires forall s :: 0 <= s < |u| && u[s].Live? ==> u[s].key != k
    requires u[Quadratic(hash(k), i, |u|)] == Tomb
    ensures LandsOnTomb(hash, u, k)
    decreases i - j
  {
    if u[Quadratic(hash(k), j, |u|)] != Tomb {
      FirstTomb(hash, u, k, j + 1, i);
    }
  }
}
