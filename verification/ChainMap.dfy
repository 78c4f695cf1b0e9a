/** The chained hash map of linked_list_hashmap.c: an array of chains, doubled when half full. */
module ChainMap {
  import opened ChainTable
  import opened Common

  /** The number of entries the implementation asserts to stay below. */
  const LIMIT: nat := 32768

  class HashMap {
    const hash: int -> nat
    /** The first entry of a chain lives in the array, the others hang off it. */
    var buckets: array<seq<Entry>>
    var count: int
    ghost var m: map<int, int>

    ghost predicate Valid()
      reads this, buckets
    {
      && Represents(hash, buckets[..], m)
      && count == |m| < LIMIT
      && 2 * (count - 1) <= buckets.Length
    }

    constructor (hash: int -> nat, capacity: nat)
      requires capacity > 0
      ensures Valid() && fresh(buckets) && this.hash == hash && m == map[] && buckets.Length == capacity
    {
      this.hash := hash;
      buckets := new seq<Entry>[capacity](_ => []);
      count := 0;
      m := map[];
      new;
      EmptyRepresents(hash, buckets[..]);
    }

    /** Walks the chain of a key. */
    method Locate(key: int) returns (s: nat, i: nat, found: bool)
      requires Valid()
      ensures s == Slot(hash, key, buckets.Length)
      ensures found <==> key in m
      ensures found ==> i < |buckets[s]| && buckets[s][i] == Entry(key, m[key])
    {
      s, i := hash(key) % buckets.Length, 0;
      FoundInChain(hash, buckets[..], m, key);
      assert buckets[..][s] == buckets[s];
      while i < |buckets[s]|
        invariant i <= |buckets[s]| && forall j :: 0 <= j < i ==> buckets[s][j].key != key
      {
        if buckets[s][i].key == key { return s, i, true; }
        i := i + 1;
      }
      return s, i, false;
    }

    method Get(key: int) returns (val: int)
      requires Valid()
      ensures val == if key in m then m[key] else 0
    {
      if 0 == count || key == 0 { return 0; }
      var s, i, found := Locate(key);
      return if found then buckets[s][i].val else 0;
    }

    method ContainsKey(key: int) returns (r: bool)
      requires Valid()
      ensures r <==> key in m
    {
      var val := Get(key);
      return val != 0;
    }

    /** Removes the binding of a key and reports it; reports a null entry if there is none. */
    method RemoveEntry(key: int) returns (entry: Entry)
      requires Valid()
      modifies this, buckets
      ensures Valid() && buckets == old(buckets)
      ensures m == old(m) - {key}
      ensures entry == if key in old(m) then Entry(key, old(m)[key]) else Entry(0, 0)
    {
      var s, i, found := Locate(key);
      if !found {
        assert m - {key} == m;
        return Entry(0, 0);
      }
      entry := buckets[s][i];
      ghost var t := buckets[..];
      Removed(hash, t, m, key, i);
      buckets[s] := Without(buckets[s], i);
      assert buckets[..] == t[s := Without(t[s], i)];
      m := m - {key};
      count := count - 1;
    }

    /** Binds a key in its chain. */
    method Link(key: int, val: int) returns (prev: int)
      requires Represents(hash, buckets[..], m) && count == |m| < LIMIT && key != 0 && val != 0
      requires key !in m ==> |m| + 1 < LIMIT
      requires 2 * count <= buckets.Length
      modifies this`count, this`m, buckets
      ensures Valid() && m == old(m)[key := val]
      ensures prev == if key in old(m) then old(m)[key] else 0
    {
      var s, i, found := Locate(key);
      ghost var t := buckets[..];
      if found {
        Replaced(hash, t, m, key, i, val);
        prev := buckets[s][i].val;
        buckets[s] := buckets[s][i := Entry(key, val)];
        assert buckets[..] == t[s := t[s][i := Entry(key, val)]];
      } else {
        Appended(hash, t, m, key, val);
        count := count + 1;
        buckets[s] := buckets[s] + [Entry(key, val)];
        assert buckets[..] == t[s := t[s] + [Entry(key, val)]];
        prev := 0;
      }
      m := m[key := val];
    }

    /** Binds a key, growing the table first if it is half full; null keys and values are ignored. */
    method Put(key: int, val: int) returns (prev: int)
      requires Valid() && (key != 0 && val != 0 && key !in m ==> |m| + 1 < LIMIT)
      modifies this, buckets
      ensures Valid()
      ensures m == if key == 0 || val == 0 then old(m) else old(m)[key := val]
      ensures prev == if key != 0 && val != 0 && key in old(m) then old(m)[key] else 0
      ensures buckets == old(buckets) || (fresh(buckets) && buckets.Length == 2 * old(buckets.Length))
      ensures old(2 * count < buckets.Length) ==> buckets == old(buckets)
      ensures key != 0 && val != 0 && old(buckets.Length <= 2 * count) ==> buckets.Length == 2 * old(buckets.Length)
      decreases if 2 * count < buckets.Length then 0 else 1, 4
    {
      if key == 0 || val == 0 { return 0; }
      EnsureCapacity();
      prev := Link(key, val);
    }

    method EnsureCapacity()
      requires Valid()
      modifies this
      ensures Valid() && m == old(m) && 2 * count <= buckets.Length
      ensures buckets == old(buckets) || (fresh(buckets) && buckets.Length == 2 * old(buckets.Length))
      ensures old(2 * count < buckets.Length) ==> buckets == old(buckets)
      ensures old(buckets.Length <= 2 * count) ==> fresh(buckets) && buckets.Length == 2 * old(buckets.Length)
      decreases if 2 * count < buckets.Length then 0 else 1, 3
    {
      if 2 * count < buckets.Length { return; }
      IncreaseCapacity(2);
    }

    /** Puts the entries of a chain into the new table, which grows again only if it is too small for all of them. */
    method PutChain(chain: seq<Entry>, ghost es: seq<Entry>, ghost from: nat, ghost all: map<int, int>)
      requires Valid() && Bound(es, all) && Positive(all)
      requires Runs(chain, es, from) && from + |chain| <= |es| < LIMIT && m == UpTo(es, from)
      modifies this, buckets
      ensures Valid() && m == UpTo(es, from + |chain|)
      ensures buckets == old(buckets) || fresh(buckets)
      ensures buckets.Length >= old(buckets.Length)
      ensures 2 * (|es| - 1) < old(buckets.Length) ==> buckets == old(buckets)
      decreases if 2 * (|es| - 1) < buckets.Length then 1 else 2, 0
    {
      hide *;
      var j := 0;
      while j < |chain|
        invariant j <= |chain| && Valid() && m == UpTo(es, from + j)
        invariant (buckets == old(buckets) || fresh(buckets)) && buckets.Length >= old(buckets.Length)
        invariant 2 * (|es| - 1) < old(buckets.Length) ==> buckets == old(buckets)
      {
        NextEntry(es, from + j, all);
        RunsAt(chain, es, from, j);
        NotNull(all, chain[j].key);
        CountIs();
        var _ := Put(chain[j].key, chain[j].val);
        j := j + 1;
      }
    }

    lemma CountIs()
      requires Valid()
      ensures count == |m| && 2 * (count - 1) <= buckets.Length
    {
    }

    method PutChains(arrayOld: array<seq<Entry>>, ghost all: map<int, int>)
      requires Valid() && m == map[] && arrayOld != buckets && Represents(hash, arrayOld[..], all) && |all| < LIMIT
      modifies this, buckets
      ensures Valid() && m == all
      ensures (buckets == old(buckets) || fresh(buckets)) && buckets.Length >= old(buckets.Length)
      ensures 2 * (|all| - 1) < old(buckets.Length) ==> buckets == old(buckets)
      decreases if 2 * (|all| - 1) < buckets.Length then 1 else 2, 1
    {
      hide *;
      ghost var t := arrayOld[..];
      ghost var es := Flat(t);
      FlatIsMap(hash, t, all);
      NonNull(hash, t, all);
      UpToEnds(t, es);
      var ii := 0;
      while ii < arrayOld.Length
        invariant ii <= arrayOld.Length && arrayOld[..] == t && arrayOld != buckets
        invariant (buckets == old(buckets) || fresh(buckets)) && buckets.Length >= old(buckets.Length)
        invariant 2 * (|es| - 1) < old(buckets.Length) ==> buckets == old(buckets)
        invariant Before(t, ii) <= |es| && Valid() && m == UpTo(es, Before(t, ii))
      {
        FlatNext(t, ii);
        PutChain(arrayOld[ii], es, Before(t, ii), all);
        ii := ii + 1;
      }
    }

    /**
     * Rehashes into a larger array without changing the map. The new array is grown again meanwhile only if it
     * would be half full before the last entry; for a factor of 2 or more that cannot be.
     */
    method IncreaseCapacity(factor: nat)
      requires Valid() && factor > 0
      modifies this
      ensures Valid() && m == old(m) && fresh(buckets) && buckets.Length >= factor * old(buckets.Length)
      ensures factor >= 2 || 2 * (old(count) - 1) < old(buckets.Length) ==>
        buckets.Length == factor * old(buckets.Length)
      decreases if 2 * (count - 1) < factor * buckets.Length then 1 else 2, 2
    {
      var arrayOld := buckets;
      ghost var all := m;
      NonNull(hash, buckets[..], m);
      Larger(factor, buckets.Length);
      hide Represents;
      var size := factor * arrayOld.Length;
      buckets := new seq<Entry>[size](_ => []);
      count := 0;
      m := map[];
      EmptyRepresents(hash, buckets[..]);
      PutChains(arrayOld, all);
    }

    /** Frees the nodes that hang off the array. */
    method NodeEmpty(chain: seq<Entry>)
      modifies this`count
      ensures count == old(count) - |chain|
      decreases |chain|
    {
      if chain == [] { return; }
      NodeEmpty(chain[1..]);
      count := count - 1;
    }

    method ClearChain(ii: nat)
      requires ii < buckets.Length
      modifies this`count, buckets
      ensures buckets[..] == old(buckets[..])[ii := []] && count == old(count) - |old(buckets[ii])|
    {
      if buckets[ii] == [] { return; }
      NodeEmpty(buckets[ii][1..]);
      buckets[ii] := [];
      count := count - 1;
    }

    method ClearChains(ghost t: Table)
      requires buckets[..] == t && count == |Flat(t)|
      modifies this`count, buckets
      ensures buckets[..] == Cleared(t, |t|) && count == 0
    {
      NoEntries();
      hide Flat, Cleared;
      ClearedNone(t);
      var ii := 0;
      while ii < buckets.Length
        invariant ii <= buckets.Length == |t| && buckets[..] == Cleared(t, ii)
        invariant count + |Flat(t[..ii])| == |Flat(t)|
      {
        FlatSteps(t, ii);
        ClearedOne(t, ii);
        ClearChain(ii);
        ii := ii + 1;
      }
      assert t[..ii] == t;
    }

    /** Empties the map; the entry count, decremented node by node, comes out as zero. */
    method Clear()
      requires Valid()
      modifies this, buckets
      ensures Valid() && m == map[] && buckets == old(buckets)
    {
      FlatIsMap(hash, buckets[..], m);
      ClearChains(buckets[..]);
      m := map[];
      EmptyRepresents(hash, buckets[..]);
    }
  }

  /** `hashmap_iterator_t`; a position of 0 in the chain is a null `cur_linked`. */
  class MapIterator {
    var cur: nat
    var linked: nat

    constructor ()
      ensures cur == 0 && linked == 0
    {
      cur, linked := 0, 0;
    }

    ghost predicate Within(t: Table)
      reads this
    {
      cur <= |t| && (linked > 0 ==> cur < |t| && linked < |t[cur]|)
    }

    /** How many entries were handed out. */
    ghost function Pos(t: Table): nat
      requires Within(t)
      reads this
    {
      |Flat(t[..cur])| + linked
    }

    /** The next entry in slot order, or null when all were handed out. */
    method Next(h: HashMap) returns (key: int)
      requires h.Valid() && Within(h.buckets[..])
      modifies this
      ensures Within(h.buckets[..])
      ensures var t, pos := h.buckets[..], old(Pos(h.buckets[..]));
        if pos < |Flat(t)| then key == Flat(t)[pos].key && Pos(t) == pos + 1
        else key == 0 && Pos(t) == pos
    {
      hide Represents, Flat;
      ghost var t := h.buckets[..];
      if linked > 0 {
        EntryAt(t, cur, linked);
        FlatSteps(t, cur);
        key := h.buckets[cur][linked].key;
        if linked + 1 == |h.buckets[cur]| { cur, linked := cur + 1, 0; } else { linked := linked + 1; }
      } else {
        while cur < h.buckets.Length && h.buckets[cur] == []
          invariant linked == 0 && Within(t) && Pos(t) == old(Pos(h.buckets[..]))
        {
          FlatSteps(t, cur);
          cur := cur + 1;
        }
        if cur == h.buckets.Length {
          assert t[..cur] == t;
          return 0;
        }
        EntryAt(t, cur, 0);
        FlatSteps(t, cur);
        key := h.buckets[cur][0].key;
        if |h.buckets[cur]| > 1 { linked := 1; } else { cur := cur + 1; }
      }
    }
  }

  /** Iterating over an unmodified map gives every key exactly once. */
  method Keys(h: HashMap) returns (keys: seq<int>)
    requires h.Valid()
    ensures |keys| == |h.m|
    ensures forall i, j :: 0 <= i < j < |keys| ==> keys[i] != keys[j]
    ensures forall k :: k in h.m <==> k in keys
  {
    ghost var t := h.buckets[..];
    var it := new MapIterator();
    keys := [];
    NoEntries();
    FlatIsMap(h.hash, t, h.m);
    NonNull(h.hash, t, h.m);
    hide Represents, Flat, Bound, Distinct, HasKey, KeysOf;
    NoKeys(Flat(t));
    while true
      invariant it.Within(t) && it.Pos(t) == |keys| <= |Flat(t)| && KeysOf(Flat(t), keys)
      decreases |Flat(t)| - |keys|
    {
      var key := it.Next(h);
      if |keys| < |Flat(t)| {
        NextKey(t, h.m, |keys|);
        MoreKeys(Flat(t), keys, key);
      }
      if key == 0 { break; }
      keys := keys + [key];
    }
    AllKeys(t, h.m, keys);
  }

  predicate KeysOf(es: seq<Entry>, keys: seq<int>) {
    |keys| <= |es| && forall i :: 0 <= i < |keys| ==> keys[i] == es[i].key
  }

  lemma NoKeys(es: seq<Entry>)
    ensures KeysOf(es, [])
  {
  }

  lemma MoreKeys(es: seq<Entry>, keys: seq<int>, key: int)
    requires |keys| < |es| && KeysOf(es, keys) && key == es[|keys|].key
    ensures KeysOf(es, keys + [key])
  {
  }

  lemma NextKey(t: Table, m: map<int, int>, i: nat)
    requires i < |Flat(t)| && Bound(Flat(t), m)
    ensures Flat(t)[i].key in m
  {
  }

  lemma AllKeys(t: Table, m: map<int, int>, keys: seq<int>)
    requires Bound(Flat(t), m) && Distinct(Flat(t)) && forall k :: k in m ==> HasKey(Flat(t), k)
    requires |keys| == |Flat(t)| && KeysOf(Flat(t), keys)
    ensures forall i, j :: 0 <= i < j < |keys| ==> keys[i] != keys[j]
    ensures forall k :: k in m <==> k in keys
  {
  }

  function Cleared(t: Table, n: nat): Table
    requires n <= |t|
  {
    seq(n, _ => []) + t[n..]
  }

  lemma ClearedNone(t: Table)
    ensures Cleared(t, 0) == t
  {
  }

  lemma ClearedOne(t: Table, n: nat)
    requires n < |t|
    ensures |Cleared(t, n)| == |t| && Cleared(t, n)[n] == t[n]
    ensures Cleared(t, n)[n := []] == Cleared(t, n + 1)
  {
  }

  lemma FlatSteps(t: Table, ii: nat)
    requires ii < |t|
    ensures Flat(t[..ii + 1]) == Flat(t[..ii]) + t[ii]
    ensures |Flat(t[..ii])| + |t[ii]| <= |Flat(t)|
  {
    FlatPrefix(t, ii + 1);
    assert t[..ii + 1][..ii] == t[..ii];
  }

  lemma EntryAt(t: Table, s: nat, i: nat)
    requires s < |t| && i < |t[s]|
    ensures |Flat(t[..s])| + i < |Flat(t)| && Flat(t)[|Flat(t[..s])| + i] == t[s][i]
  {
    FlatPrefix(t, s + 1);
    assert t[..s + 1][..s] == t[..s];
    assert Flat(t[..s + 1])[|Flat(t[..s])| + i] == t[s][i];
  }

  lemma Larger(factor: nat, n: nat)
    requires factor > 0 && n > 0
    ensures factor * n >= n && (factor >= 2 ==> factor * n >= 2 * n)
  {
  }

  /** Keys and values are not null. */
  predicate Positive(m: map<int, int>) {
    forall k :: k in m ==> k != 0 && m[k] != 0
  }

  lemma NotNull(m: map<int, int>, k: int)
    requires Positive(m) && k in m
    ensures k != 0 && m[k] != 0
  {
  }

  lemma NoEntries()
    ensures Flat([]) == [] && FromEntries([]) == map[]
  {
  }

  lemma NonNull(hash: int -> nat, t: Table, m: map<int, int>)
    requires Represents(hash, t, m)
    ensures |t| > 0 && Positive(m)
  {
  }

  /** The map made from the first entries. */
  function UpTo(es: seq<Entry>, k: nat): map<int, int>
    requires k <= |es|
  {
    FromEntries(es[..k])
  }

  lemma NextEntry(es: seq<Entry>, k: nat, all: map<int, int>)
    requires k < |es| && Bound(es, all)
    ensures es[k].key in all && all[es[k].key] == es[k].val
    ensures |UpTo(es, k)| <= k && UpTo(es, k + 1) == UpTo(es, k)[es[k].key := es[k].val]
  {
    FromEntriesSize(es[..k], all);
    assert es[..k + 1][..k] == es[..k];
  }

  lemma {:induction false} FlatPrefix(t: Table, n: nat)
    requires n <= |t|
    ensures Flat(t[..n]) <= Flat(t)
    decreases |t|
  {
    if n < |t| {
      FlatPrefix(t[..|t| - 1], n);
      assert t[..|t| - 1][..n] == t[..n];
    } else {
      assert t[..n] == t;
    }
  }

  /** The chain is found in the entries from some place on. */
  predicate Runs(chain: seq<Entry>, es: seq<Entry>, from: nat) {
    from + |chain| <= |es| && forall j :: 0 <= j < |chain| ==> chain[j] == es[from + j]
  }

  lemma RunsAt(chain: seq<Entry>, es: seq<Entry>, from: nat, j: nat)
    requires Runs(chain, es, from) && j < |chain|
    ensures from + j < |es| && chain[j] == es[from + j]
  {
  }

  /** How many entries come before a slot. */
  function Before(t: Table, ii: nat): nat
    requires ii <= |t|
  {
    |Flat(t[..ii])|
  }

  lemma UpToEnds(t: Table, es: seq<Entry>)
    requires es == Flat(t)
    ensures Before(t, 0) == 0 && UpTo(es, 0) == map[]
    ensures Before(t, |t|) == |es| && UpTo(es, |es|) == FromEntries(es)
  {
    assert t[..|t|] == t && es[..|es|] == es;
  }

  lemma FlatNext(t: Table, ii: nat)
    requires ii < |t|
    ensures Before(t, ii + 1) == Before(t, ii) + |t[ii]| <= |Flat(t)|
    ensures Runs(t[ii], Flat(t), Before(t, ii))
  {
    FlatSteps(t, ii);
    FlatPrefix(t, ii + 1);
    assert Flat(t[..ii + 1]) == Flat(t)[..|Flat(t[..ii + 1])|];
  }
}
