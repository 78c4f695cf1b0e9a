/** A search tree as a finite map: what splaying, inserting and deleting do to its contents. */
module SplayMap {
  import opened SplayTree

  predicate Increasing(s: seq<Item>) {
    forall i, j :: 0 <= i < j < |s| ==> s[i].key < s[j].key
  }

  predicate Ordered(t: Tree) {
    Increasing(InOrder(t))
  }

  function AsMap(s: seq<Item>): map<int, int> {
    if s == [] then map[]
    else AsMap(s[..|s| - 1])[s[|s| - 1].key := s[|s| - 1].value]
  }

  function Contents(t: Tree): map<int, int> {
    AsMap(InOrder(t))
  }

  predicate HasKey(s: seq<Item>, key: int) {
    exists i :: 0 <= i < |s| && s[i].key == key
  }

  lemma {:induction false} AsMapConcat(a: seq<Item>, b: seq<Item>)
    ensures AsMap(a + b) == AsMap(a) + AsMap(b)
    decreases |b|
  {
    if b == [] {
      assert a + b == a;
    } else {
      var n := |b| - 1;
      assert (a + b)[..|a + b| - 1] == a + b[..n];
      AsMapConcat(a, b[..n]);
    }
  }

  lemma {:induction false} AsMapKeys(s: seq<Item>, key: int)
    ensures key in AsMap(s) <==> HasKey(s, key)
    decreases |s|
  {
    if s != [] {
      var n := |s| - 1;
      AsMapKeys(s[..n], key);
      if HasKey(s, key) && s[n].key != key {
        var i :| 0 <= i < |s| && s[i].key == key;
        assert s[..n][i].key == key;
      }
      if HasKey(s[..n], key) {
        var i :| 0 <= i < |s[..n]| && s[..n][i].key == key;
        assert s[i].key == key;
      }
    }
  }

  lemma AsMapSingle(x: Item)
    ensures AsMap([x]) == map[x.key := x.value]
  {
    assert [x][..0] == [];
  }

  /** Around one item of an increasing sequence. */
  lemma IncreasingAround(a: seq<Item>, x: Item, b: seq<Item>)
    requires Increasing(a + [x] + b)
    ensures Increasing(a + b) && Increasing(a) && Increasing(b)
    ensures forall i :: 0 <= i < |a| ==> a[i].key < x.key
    ensures forall i :: 0 <= i < |b| ==> x.key < b[i].key
  {
    var s, r := a + [x] + b, a + b;
    forall i | 0 <= i < |a| ensures a[i].key < x.key {
      assert s[i] == a[i] && s[|a|] == x;
    }
    forall i | 0 <= i < |b| ensures x.key < b[i].key {
      assert s[|a|] == x && s[|a| + 1 + i] == b[i];
    }
    forall i, j | 0 <= i < j < |r| ensures r[i].key < r[j].key {
      var i', j' := if i < |a| then i else i + 1, if j < |a| then j else j + 1;
      assert r[i] == s[i'] && r[j] == s[j'];
    }
    IncreasingParts(a, b);
  }

  lemma IncreasingParts(a: seq<Item>, b: seq<Item>)
    requires Increasing(a + b)
    ensures Increasing(a) && Increasing(b)
  {
    forall i, j | 0 <= i < j < |a| ensures a[i].key < a[j].key {
      assert (a + b)[i] == a[i] && (a + b)[j] == a[j];
    }
    forall i, j | 0 <= i < j < |b| ensures b[i].key < b[j].key {
      assert (a + b)[|a| + i] == b[i] && (a + b)[|a| + j] == b[j];
    }
  }

  lemma IncreasingInsert(a: seq<Item>, x: Item, b: seq<Item>)
    requires Increasing(a + b)
    requires forall i :: 0 <= i < |a| ==> a[i].key < x.key
    requires forall i :: 0 <= i < |b| ==> x.key < b[i].key
    ensures Increasing(a + [x] + b)
  {
    var s, r := a + [x] + b, a + b;
    forall i, j | 0 <= i < j < |s| ensures s[i].key < s[j].key {
      if i < |a| {
        assert s[i] == a[i] == r[i];
        if j > |a| { assert s[j] == r[j - 1]; } else if j < |a| { assert s[j] == r[j]; }
      } else {
        assert s[j] == b[j - |a| - 1] == r[j - 1];
        if i > |a| { assert s[i] == r[i - 1]; }
      }
    }
  }

  lemma AsMapAround(a: seq<Item>, x: Item, b: seq<Item>)
    requires Increasing(a + [x] + b)
    ensures AsMap(a + [x] + b) == AsMap(a + b)[x.key := x.value]
    ensures x.key !in AsMap(a) && x.key !in AsMap(b) && x.key !in AsMap(a + b)
  {
    AbsentAround(a, x, b);
    var p, q, r := AsMap(a), AsMap(b), map[x.key := x.value];
    assert AsMap(a + [x] + b) == p + r + q by {
      AsMapConcat(a + [x], b);
      AsMapConcat(a, [x]);
      AsMapSingle(x);
    }
    assert AsMap(a + b) == p + q by { AsMapConcat(a, b); }
    assert p + r + q == (p + q)[x.key := x.value];
  }

  lemma AbsentAround(a: seq<Item>, x: Item, b: seq<Item>)
    requires Increasing(a + [x] + b)
    ensures x.key !in AsMap(a) && x.key !in AsMap(b)
  {
    IncreasingAround(a, x, b);
    AsMapKeys(a, x.key);
    AsMapKeys(b, x.key);
  }

  lemma {:induction false} AsMapSize(s: seq<Item>)
    requires Increasing(s)
    ensures |AsMap(s)| == |s|
    decreases |s|
  {
    if s != [] {
      var n := |s| - 1;
      AsMapSize(s[..n]);
      AsMapKeys(s[..n], s[n].key);
      assert AsMap(s).Keys == AsMap(s[..n]).Keys + {s[n].key};
    }
  }

  lemma TreeAround(t: Tree)
    requires t.Cell? && Ordered(t)
    ensures Ordered(t.l) && Ordered(t.r)
    ensures forall k :: HasKey(InOrder(t.l), k) ==> k < t.key
    ensures forall k :: HasKey(InOrder(t.r), k) ==> t.key < k
    ensures Contents(t) == (Contents(t.l) + Contents(t.r))[t.key := t.value]
    ensures t.key !in Contents(t.l) && t.key !in Contents(t.r)
  {
    IncreasingAround(InOrder(t.l), Item(t.n, t.key, t.value), InOrder(t.r));
    AsMapAround(InOrder(t.l), Item(t.n, t.key, t.value), InOrder(t.r));
    AsMapConcat(InOrder(t.l), InOrder(t.r));
  }

  lemma OnSide(t: Tree, key: int)
    requires t.Cell? && Ordered(t) && key != t.key
    ensures key in Contents(t) <==> key in Contents(Get(t, Toward(t, key)))
    ensures key in Contents(t) ==> Contents(t)[key] == Contents(Get(t, Toward(t, key)))[key]
  {
    TreeAround(t);
    AsMapKeys(InOrder(t.l), key);
    AsMapKeys(InOrder(t.r), key);
  }

  /** The search follows one path and still decides membership. */
  lemma {:induction false} HitIsMember(t: Tree, key: int)
    requires Ordered(t)
    ensures Hit(t, key, false) <==> key in Contents(t)
    decreases t
  {
    if t.Cell? {
      TreeAround(t);
      if key != t.key {
        OnSide(t, key);
        HitIsMember(Get(t, Toward(t, key)), key);
      }
    }
  }

  lemma {:induction false} FoundAtRoot(t: Tree, key: int, update: bool)
    requires Ordered(t) && key in Contents(t) && Hit(t, key, update)
    ensures var m := MoveToRoot(t, key, update); m.key == key && m.value == Contents(t)[key]
    decreases t
  {
    TreeAround(t);
    if key != t.key {
      var c := Get(t, Toward(t, key));
      OnSide(t, key);
      if !Hit(c, key, update) {
        HitIsMember(c, key);
      } else {
        FoundAtRoot(c, key, update);
      }
    }
  }

  /** The root separates the keys around `key`: nothing lies strictly between the two. */
  ghost predicate Splits(t: Tree, key: int)
    requires t.Cell?
  {
    && (key < t.key ==> forall k :: HasKey(InOrder(t.l), k) ==> k < key)
    && (t.key < key ==> forall k :: HasKey(InOrder(t.r), k) ==> key < k)
  }

  lemma HasKeyConcat(a: seq<Item>, b: seq<Item>, k: int)
    ensures HasKey(a + b, k) <==> HasKey(a, k) || HasKey(b, k)
  {
    var s := a + b;
    if i :| 0 <= i < |s| && s[i].key == k {
      if i < |a| { assert a[i].key == k; } else { assert b[i - |a|].key == k; }
    }
    if i :| 0 <= i < |a| && a[i].key == k { assert s[i].key == k; }
    if i :| 0 <= i < |b| && b[i].key == k { assert s[|a| + i].key == k; }
  }

  lemma HasKeySingle(x: Item, k: int)
    ensures HasKey([x], k) <==> k == x.key
  {
    assert [x][0] == x;
  }

  lemma HasKeyAround(t: Tree, k: int)
    requires t.Cell?
    ensures HasKey(InOrder(t), k) <==> HasKey(InOrder(t.l), k) || k == t.key || HasKey(InOrder(t.r), k)
  {
    var a, x, b := InOrder(t.l), Item(t.n, t.key, t.value), InOrder(t.r);
    assert InOrder(t) == a + [x] + b;
    hide HasKey, InOrder;
    HasKeyConcat(a + [x], b, k);
    HasKeyConcat(a, [x], k);
    HasKeySingle(x, k);
  }

  lemma {:induction false} NeighbourAtRoot(t: Tree, key: int)
    requires Ordered(t) && t.Cell?
    ensures Splits(MoveToRoot(t, key, true), key)
    decreases t
  {
    TreeAround(t);
    if key != t.key {
      var side := Toward(t, key);
      var c := Get(t, side);
      if c.Cell? {
        NeighbourAtRoot(c, key);
        var m := MoveToRoot(c, key, true);
        var r := MoveToRoot(t, key, true);
        var p := Get(r, Away(side));
        forall k ensures HasKey(InOrder(p), k) <==>
                          HasKey(InOrder(p.l), k) || k == t.key || HasKey(InOrder(p.r), k) {
          HasKeyAround(p, k);
        }
      }
    }
  }

  // ---------------------------------------------------------------------------------
  // Insertion above a splayed root, deletion of the root

  /** The tree after linking a new node above the root `t`. */
  function Inserted(t: Tree, n: nat, key: int, value: int): Tree
    requires t.Cell?
  {
    if key < t.key then Cell(n, key, value, Left, t.l, t.(l := Nil))
    else Cell(n, key, value, Left, t.(r := Nil), t.r)
  }

  lemma InsertedContents(t: Tree, n: nat, key: int, value: int)
    requires t.Cell? && Ordered(t) && Splits(t, key) && key != t.key
    ensures var u := Inserted(t, n, key, value); Ordered(u) && Contents(u) == Contents(t)[key := value]
  {
    var x, r := Item(n, key, value), Item(t.n, t.key, t.value);
    var a, b := InOrder(t.l), InOrder(t.r);
    IncreasingAround(a, r, b);
    assert InOrder(t) == a + [r] + b;
    assert forall i :: 0 <= i < |a| ==> HasKey(a, a[i].key);
    assert forall i :: 0 <= i < |b| ==> HasKey(b, b[i].key);
    if key < t.key {
      var c := [r] + b;
      assert InOrder(t) == a + c;
      assert InOrder(t.(l := Nil)) == c;
      assert InOrder(Inserted(t, n, key, value)) == a + [x] + c;
      IncreasingInsert(a, x, c);
      AsMapAround(a, x, c);
    } else {
      var c := a + [r];
      assert InOrder(t) == c + b;
      assert InOrder(t.(r := Nil)) == c;
      assert InOrder(Inserted(t, n, key, value)) == c + [x] + b;
      IncreasingInsert(c, x, b);
      AsMapAround(c, x, b);
    }
  }

  /** The rightmost cell. */
  function Highest(t: Tree): (m: Tree)
    requires t.Cell?
    ensures m.Cell? && m.r.Nil?
  {
    if t.r.Nil? then t else Highest(t.r)
  }

  function DropHighest(t: Tree): Tree
    requires t.Cell?
  {
    if t.r.Nil? then t.l else t.(r := DropHighest(t.r))
  }

  /** The tree that replaces a removed root with the given subtrees. */
  function Joined(l: Tree, r: Tree): Tree {
    if l.Nil? then r
    else
      var m := Highest(l);
      Cell(m.n, m.key, m.value, m.bit, DropHighest(l), r)
  }

  lemma {:induction false} DropHighestInOrder(t: Tree)
    requires t.Cell?
    ensures var m := Highest(t); InOrder(t) == InOrder(DropHighest(t)) + [Item(m.n, m.key, m.value)]
    ensures Nodes(t) == Nodes(DropHighest(t)) + {Highest(t).n}
    ensures Distinct(t) ==> Distinct(DropHighest(t)) && Highest(t).n !in Nodes(DropHighest(t)) && Highest(t).n != 0
    decreases t
  {
    if t.r.Cell? {
      DropHighestInOrder(t.r);
    }
  }

  lemma JoinedContents(t: Tree)
    requires t.Cell? && Ordered(t)
    ensures var u := Joined(t.l, t.r); Ordered(u) && Contents(u) == Contents(t) - {t.key}
    ensures t.key in Contents(t)
  {
    var a, b := InOrder(t.l), InOrder(t.r);
    var x := Item(t.n, t.key, t.value);
    IncreasingAround(a, x, b);
    AsMapAround(a, x, b);
    if t.l.Cell? {
      DropHighestInOrder(t.l);
      assert InOrder(Joined(t.l, t.r)) == a + b;
    } else {
      assert a + b == b;
    }
  }

  // ---------------------------------------------------------------------------------
  // Eviction

  /** The node that the direction bits lead to. */
  function Victim(t: Tree): (v: Tree)
    requires t.Cell?
    ensures v.Cell?
  {
    if t.bit == Right && t.r.Cell? then Victim(t.r)
    else if t.bit == Left && t.l.Cell? then Victim(t.l)
    else t
  }

  lemma {:induction false} VictimIsMember(t: Tree)
    requires t.Cell? && Ordered(t)
    ensures Victim(t).key in Contents(t) && Contents(t)[Victim(t).key] == Victim(t).value
    ensures Distinct(t) ==> Victim(t).n in Nodes(t)
    decreases t
  {
    TreeAround(t);
    if Victim(t) != t {
      var c := if t.bit == Right && t.r.Cell? then t.r else t.l;
      VictimIsMember(c);
      AsMapKeys(InOrder(t.l), Victim(c).key);
      AsMapKeys(InOrder(t.r), Victim(c).key);
    }
  }

  /** Eviction takes the entry just put, instead of the least recently used one, exactly when
      the new key is smaller than every other key. */
  lemma FreshEntryIsVictim(t: Tree, n: nat, key: int, value: int)
    requires t.Cell? && Ordered(t) && key !in Contents(t)
    ensures var u := Inserted(MoveToRoot(t, key, true), n, key, value);
            Victim(u) == u <==> forall k :: k in Contents(t) ==> key < k
  {
    var m := MoveToRoot(t, key, true);
    var u := Inserted(m, n, key, value);
    MoveToRootKeeps(t, key, true);
    NeighbourAtRoot(t, key);
    TreeAround(m);
    forall k ensures k in Contents(t) <==> HasKey(InOrder(m.l), k) || k == m.key || HasKey(InOrder(m.r), k) {
      HasKeyAround(m, k);
      AsMapKeys(InOrder(m), k);
    }
    if u.l.Cell? {
      VictimSmaller(u.l);
      if key < m.key {
        var low := m.l.key;
        HasKeyAround(m.l, low);
        assert low in Contents(t);
      } else {
        assert m.key in Contents(t);
      }
    }
  }

  lemma {:induction false} VictimSmaller(t: Tree)
    requires t.Cell?
    ensures Victim(t) == t || Victim(t) < t
    decreases t
  {
    if Victim(t) != t {
      VictimSmaller(if t.bit == Right && t.r.Cell? then t.r else t.l);
    }
  }
}
