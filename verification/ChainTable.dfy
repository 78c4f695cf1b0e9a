/** Tables of chains and the finite maps they stand for (linked_list_hashmap.c). */
module ChainTable {
  import opened Common

  /** Keys and values are pointers; 0 is NULL. */
  datatype Entry = Entry(key: int, val: int)

  type Table = seq<seq<Entry>>

  function Slot(hash: int -> nat, k: int, n: nat): (s: nat)
    requires n > 0
    ensures s < n
  {
    hash(k) % n
  }

  predicate Distinct(c: seq<Entry>) {
    forall i, j :: 0 <= i < j < |c| ==> c[i].key != c[j].key
  }

  /** Every entry of a chain is a binding of the map. */
  predicate Bound(c: seq<Entry>, m: map<int, int>) {
    forall i :: 0 <= i < |c| ==> c[i].key in m && m[c[i].key] == c[i].val
  }

  predicate HasKey(c: seq<Entry>, k: int) {
    exists i :: 0 <= i < |c| && c[i].key == k
  }

  predicate InSlot(hash: int -> nat, c: seq<Entry>, s: nat, n: nat)
    requires n > 0
  {
    forall i :: 0 <= i < |c| ==> Slot(hash, c[i].key, n) == s
  }

  /** The table holds exactly the bindings of the map, each once and in its slot. */
  ghost predicate Represents(hash: int -> nat, t: Table, m: map<int, int>) {
    && |t| > 0
    && (forall s :: 0 <= s < |t| ==> Distinct(t[s]) && Bound(t[s], m) && InSlot(hash, t[s], s, |t|))
    && (forall k :: k in m ==> k != 0 && m[k] != 0 && HasKey(t[Slot(hash, k, |t|)], k))
  }

  lemma EmptyRepresents(hash: int -> nat, t: Table)
    requires |t| > 0 && forall s :: 0 <= s < |t| ==> t[s] == []
    ensures Represents(hash, t, map[])
  {
  }

  /** A key is bound exactly if its chain has it. */
  lemma FoundInChain(hash: int -> nat, t: Table, m: map<int, int>, k: int)
    requires Represents(hash, t, m)
    ensures k in m <==> HasKey(t[Slot(hash, k, |t|)], k)
  {
  }

  lemma Replaced(hash: int -> nat, t: Table, m: map<int, int>, k: int, i: nat, v: int)
    requires Represents(hash, t, m) && v != 0
    requires i < |t[Slot(hash, k, |t|)]| && t[Slot(hash, k, |t|)][i].key == k
    ensures var s := Slot(hash, k, |t|); Represents(hash, t[s := t[s][i := Entry(k, v)]], m[k := v])
  {
    var s := Slot(hash, k, |t|);
    var c, c' := t[s], t[s][i := Entry(k, v)];
    forall k' | k' in m ensures HasKey(t[s := c'][Slot(hash, k', |t|)], k') {
      if Slot(hash, k', |t|) == s {
        var j :| 0 <= j < |c| && c[j].key == k';
        assert c'[j].key == k';
      }
    }
  }

  lemma Appended(hash: int -> nat, t: Table, m: map<int, int>, k: int, v: int)
    requires Represents(hash, t, m) && k !in m && k != 0 && v != 0
    ensures var s := Slot(hash, k, |t|); Represents(hash, t[s := t[s] + [Entry(k, v)]], m[k := v])
  {
    var s := Slot(hash, k, |t|);
    var c, c' := t[s], t[s] + [Entry(k, v)];
    var t' := t[s := c'];
    assert c'[|c|].key == k && HasKey(t'[s], k);
    assert !HasKey(c, k);
    forall k' | k' in m ensures HasKey(t'[Slot(hash, k', |t|)], k') {
      if Slot(hash, k', |t|) == s {
        var j :| 0 <= j < |c| && c[j].key == k';
        assert c'[j].key == k';
      }
    }
  }

  lemma WithoutKeeps(c: seq<Entry>, i: nat, k: int)
    requires i < |c| && Distinct(c)
    ensures Distinct(Without(c, i)) && !HasKey(Without(c, i), c[i].key)
    ensures k != c[i].key ==> (HasKey(c, k) <==> HasKey(Without(c, i), k))
  {
    var w := Without(c, i);
    assert forall j :: 0 <= j < |w| ==> w[j] == if j < i then c[j] else c[j + 1];
    if k != c[i].key && HasKey(c, k) {
      var j :| 0 <= j < |c| && c[j].key == k;
      assert w[if j < i then j else j - 1].key == k;
    }
  }

  lemma Removed(hash: int -> nat, t: Table, m: map<int, int>, k: int, i: nat)
    requires Represents(hash, t, m)
    requires i < |t[Slot(hash, k, |t|)]| && t[Slot(hash, k, |t|)][i].key == k
    ensures var s := Slot(hash, k, |t|); Represents(hash, t[s := Without(t[s], i)], m - {k})
    ensures |m - {k}| == |m| - 1
  {
    var s := Slot(hash, k, |t|);
    var w := Without(t[s], i);
    WithoutKeeps(t[s], i, k);
    assert m == (m - {k})[k := m[k]];
    forall k' | k' in m && k' != k ensures HasKey(t[s := w][Slot(hash, k', |t|)], k') {
      WithoutKeeps(t[s], i, k');
    }
    RestBound(hash, t, m, k, s, w, t[s := w]);
  }

  lemma RestBound(hash: int -> nat, t: Table, m: map<int, int>, k: int, s: nat, w: seq<Entry>, t': Table)
    requires Represents(hash, t, m) && s == Slot(hash, k, |t|) && !HasKey(w, k)
    requires (forall e :: e in w ==> e in t[s]) && t' == t[s := w]
    ensures forall s' :: 0 <= s' < |t'| ==> Bound(t'[s'], m - {k}) && InSlot(hash, t'[s'], s', |t|)
  {
    forall s' | 0 <= s' < |t'| ensures Bound(t'[s'], m - {k}) && InSlot(hash, t'[s'], s', |t|) {
      var c := t'[s'];
      forall i | 0 <= i < |c|
        ensures c[i].key in m - {k} && m[c[i].key] == c[i].val && Slot(hash, c[i].key, |t|) == s'
      {
        assert c[i] in c;
        var j :| 0 <= j < |t[s']| && t[s'][j] == c[i];
      }
    }
  }

  // ---------------------------------------------------------------------------------
  // All entries in slot order

  function Flat(t: Table): seq<Entry> {
    if t == [] then [] else Flat(t[..|t| - 1]) + t[|t| - 1]
  }

  function FromEntries(es: seq<Entry>): map<int, int> {
    if es == [] then map[] else FromEntries(es[..|es| - 1])[es[|es| - 1].key := es[|es| - 1].val]
  }

  lemma HasKeySnoc(es: seq<Entry>, k: int)
    requires es != []
    ensures HasKey(es, k) <==> HasKey(es[..|es| - 1], k) || k == es[|es| - 1].key
  {
    var rest := es[..|es| - 1];
    if i :| 0 <= i < |rest| && rest[i].key == k { assert es[i].key == k; }
    if i :| 0 <= i < |es| && es[i].key == k {
      if i < |rest| { assert rest[i].key == k; }
    }
  }

  lemma {:induction false} FromEntriesKeys(es: seq<Entry>, m: map<int, int>, k: int)
    requires Bound(es, m)
    ensures k in FromEntries(es) <==> HasKey(es, k)
    ensures k in FromEntries(es) ==> k in m && FromEntries(es)[k] == m[k]
    decreases |es|
  {
    hide HasKey;
    if es != [] {
      FromEntriesKeys(es[..|es| - 1], m, k);
      HasKeySnoc(es, k);
    } else {
      NoKey(k);
    }
  }

  lemma NoKey(k: int)
    ensures !HasKey([], k)
  {
  }

  lemma {:induction false} FromEntriesSize(es: seq<Entry>, m: map<int, int>)
    requires Bound(es, m)
    ensures |FromEntries(es)| <= |es|
    ensures Distinct(es) ==> |FromEntries(es)| == |es|
    decreases |es|
  {
    if es != [] {
      var rest, e := es[..|es| - 1], es[|es| - 1];
      FromEntriesSize(rest, m);
      FromEntriesKeys(rest, m, e.key);
    }
  }

  lemma {:induction false} FlatKeys(hash: int -> nat, t: Table, m: map<int, int>, n: nat)
    requires Represents(hash, t, m) && n <= |t|
    ensures Bound(Flat(t[..n]), m) && Distinct(Flat(t[..n]))
    ensures forall i :: 0 <= i < |Flat(t[..n])| ==> Slot(hash, Flat(t[..n])[i].key, |t|) < n
    decreases n
  {
    if n > 0 {
      FlatKeys(hash, t, m, n - 1);
      assert t[..n][..n - 1] == t[..n - 1];
      var c := t[n - 1];
      assert Distinct(c) && Bound(c, m) && InSlot(hash, c, n - 1, |t|);
    }
  }

  lemma {:induction false} FlatHas(t: Table, s: nat, k: int)
    requires s < |t| && HasKey(t[s], k)
    ensures HasKey(Flat(t), k)
    decreases |t|
  {
    var n := |t| - 1;
    var front := Flat(t[..n]);
    if s == n {
      var i :| 0 <= i < |t[n]| && t[n][i].key == k;
      assert Flat(t)[|front| + i].key == k;
    } else {
      FlatHas(t[..n], s, k);
      var i :| 0 <= i < |front| && front[i].key == k;
      assert Flat(t)[i].key == k;
    }
  }

  lemma FlatBinds(hash: int -> nat, t: Table, m: map<int, int>, k: int)
    requires Represents(hash, t, m) && Bound(Flat(t), m)
    ensures k in FromEntries(Flat(t)) <==> k in m
    ensures k in m ==> FromEntries(Flat(t))[k] == m[k] && HasKey(Flat(t), k)
  {
    hide Flat, FromEntries, HasKey, Bound, Distinct, InSlot;
    FromEntriesKeys(Flat(t), m, k);
    if k in m { FlatHas(t, Slot(hash, k, |t|), k); }
  }

  /** The entries in slot order are the bindings of the map, each exactly once. */
  lemma FlatIsMap(hash: int -> nat, t: Table, m: map<int, int>)
    requires Represents(hash, t, m)
    ensures FromEntries(Flat(t)) == m && |Flat(t)| == |m|
    ensures Bound(Flat(t), m) && Distinct(Flat(t)) && forall k :: k in m ==> HasKey(Flat(t), k)
  {
    hide Flat, FromEntries, HasKey, Bound, Distinct, Represents;
    assert t[..|t|] == t;
    FlatKeys(hash, t, m, |t|);
    FromEntriesSize(Flat(t), m);
    var f := FromEntries(Flat(t));
    forall k ensures k in f <==> k in m { FlatBinds(hash, t, m, k); }
    assert f.Keys == m.Keys;
    forall k | k in m ensures f[k] == m[k] { FlatBinds(hash, t, m, k); }
    assert f == m;
    forall k | k in m ensures HasKey(Flat(t), k) { FlatBinds(hash, t, m, k); }
  }
}
