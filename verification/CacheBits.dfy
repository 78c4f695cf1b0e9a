/** The direction bits of the pseudo-LRU cache: what a search leaves behind and which node they lead to. */
module CacheBits {
  import opened SplayMap
  import opened SplayTree

  datatype Mark = Mark(n: nat, key: int, bit: Side)

  /** The nodes with their keys and direction bits. */
  function Marks(t: Tree): set<Mark> {
    match t
    case Nil => {}
    case Cell(n, k, _, bit, l, r) => Marks(l) + {Mark(n, k, bit)} + Marks(r)
  }

  /** The nodes that a search compares with and leaves behind. */
  function SearchPath(t: Tree, key: int): set<nat> {
    if t.Nil? || key == t.key then {}
    else if key < t.key then {t.n} + SearchPath(t.l, key)
    else {t.n} + SearchPath(t.r, key)
  }

  /** Every node on the search path points away from the key, every other node as before. */
  ghost predicate PointAway(before: Tree, key: int, after: Tree) {
    forall m :: m in Marks(after) <==>
      if m.n in SearchPath(before, key)
      then && m.bit == (if key < m.key then Right else Left)
           && (m.(bit := Left) in Marks(before) || m.(bit := Right) in Marks(before))
      else m in Marks(before)
  }

  lemma {:induction false} PathInside(t: Tree, key: int)
    ensures SearchPath(t, key) <= Nodes(t)
  {
    if t.Cell? {
      PathInside(t.l, key);
      PathInside(t.r, key);
    }
  }

  lemma {:induction false} MarksInside(t: Tree, m: Mark)
    ensures m in Marks(t) ==> m.n in Nodes(t)
  {
    if t.Cell? {
      MarksInside(t.l, m);
      MarksInside(t.r, m);
    }
  }

  /** What a search does to the bits. */
  lemma {:induction false} TouchPointsAway(t: Tree, key: int)
    requires Distinct(t)
    ensures PointAway(t, key, Touch(t, key))
  {
    if t.Cell? && key != t.key {
      TouchPointsAway(Get(t, Toward(t, key)), key);
      var u := Touch(t, key);
      forall m
        ensures m in Marks(u) <==>
          if m.n in SearchPath(t, key)
          then && m.bit == (if key < m.key then Right else Left)
               && (m.(bit := Left) in Marks(t) || m.(bit := Right) in Marks(t))
          else m in Marks(t)
      {
        TouchedMark(t, key, m);
      }
    }
  }

  lemma TouchedMark(t: Tree, key: int, m: Mark)
    requires Distinct(t) && t.Cell? && key != t.key
    requires PointAway(Get(t, Toward(t, key)), key, Touch(Get(t, Toward(t, key)), key))
    ensures m in Marks(Touch(t, key)) <==>
      if m.n in SearchPath(t, key)
      then && m.bit == (if key < m.key then Right else Left)
           && (m.(bit := Left) in Marks(t) || m.(bit := Right) in Marks(t))
      else m in Marks(t)
  {
    var side := Toward(t, key);
    var c, d := Get(t, side), Get(t, Away(side));
    var c' := Touch(c, key);
    PathInside(c, key);
    TouchKeeps(c, key);
    MarksInside(c, m.(bit := Left));
    MarksInside(c, m.(bit := Right));
    MarksInside(c', m);
    MarksInside(d, m.(bit := Left));
    MarksInside(d, m.(bit := Right));
    assert Marks(t) == Marks(c) + {Mark(t.n, t.key, t.bit)} + Marks(d);
    assert Marks(Touch(t, key)) == Marks(c') + {Mark(t.n, t.key, Away(side))} + Marks(d);
    assert SearchPath(t, key) == {t.n} + SearchPath(c, key);
    if m.n == t.n {
      assert m.key == t.key ==> m.(bit := t.bit) == Mark(t.n, t.key, t.bit);
      assert t.bit == Left || t.bit == Right;
    } else {
      assert m in Marks(c') <==>
        if m.n in SearchPath(c, key)
        then && m.bit == (if key < m.key then Right else Left)
             && (m.(bit := Left) in Marks(c) || m.(bit := Right) in Marks(c))
        else m in Marks(c);
    }
  }

  /** The rotations change no bit. */
  lemma {:induction false} MoveToRootMarks(t: Tree, key: int, update: bool)
    requires Hit(t, key, update)
    ensures Marks(MoveToRoot(t, key, update)) == Marks(Touch(t, key))
  {
    if key != t.key {
      var side := Toward(t, key);
      var c := Get(t, side);
      var t1 := t.(bit := Away(side));
      if Hit(c, key, update) {
        MoveToRootMarks(c, key, update);
        RotateMarks(Replace(t1, side, MoveToRoot(c, key, update)), side);
      } else {
        assert c.Nil? && Touch(t, key) == t1;
      }
    }
  }

  lemma RotateMarks(t: Tree, side: Side)
    requires t.Cell? && Get(t, side).Cell?
    ensures Marks(Rotate(t, side)) == Marks(t)
  {
    var c := Get(t, side);
    assert Marks(c) == Marks(c.l) + {Mark(c.n, c.key, c.bit)} + Marks(c.r);
    if side == Left {
      assert Rotate(t, side).r == t.(l := c.r);
    } else {
      assert Rotate(t, side).l == t.(r := c.l);
    }
  }

  lemma InsertedMarks(t: Tree, n: nat, key: int, value: int)
    requires t.Cell?
    ensures Marks(Inserted(t, n, key, value)) == Marks(t) + {Mark(n, key, Left)}
  {
    var m := {Mark(t.n, t.key, t.bit)};
    assert Marks(t) == Marks(t.l) + m + Marks(t.r);
    assert Marks(t.(l := Nil)) == m + Marks(t.r) && Marks(t.(r := Nil)) == Marks(t.l) + m by {
      assert Marks(Nil) == {};
    }
  }

  /** What a search that moves a node to the root does to the bits. */
  lemma MovedPointsAway(t: Tree, key: int, update: bool)
    requires Hit(t, key, update) && Distinct(t)
    ensures PointAway(t, key, MoveToRoot(t, key, update))
  {
    TouchPointsAway(t, key);
    MoveToRootMarks(t, key, update);
  }

  /** The part of a tree below a key: the search path is cut, and the cut ends are joined in order. */
  function Lower(t: Tree, key: int): Tree {
    if t.Nil? then Nil
    else if t.key < key then t.(r := Lower(t.r, key))
    else if key < t.key then Lower(t.l, key)
    else t.l
  }

  function Upper(t: Tree, key: int): Tree {
    if t.Nil? then Nil
    else if key < t.key then t.(l := Upper(t.l, key))
    else if t.key < key then Upper(t.r, key)
    else t.r
  }

  /** Moving a key to the root splits the tree at the key: the subtrees are the parts below and above it. */
  lemma {:induction false} MoveToRootSplits(t: Tree, key: int)
    requires Hit(t, key, false)
    ensures var m := MoveToRoot(t, key, false);
      m.key == key && m.l == Lower(Touch(t, key), key) && m.r == Upper(Touch(t, key), key)
  {
    if key < t.key {
      MoveToRootSplits(t.l, key);
    } else if t.key < key {
      MoveToRootSplits(t.r, key);
    }
  }

  // ---------------------------------------------------------------------------------
  // The victim

  /** Walking down by the given sides. */
  function Walk(t: Tree, path: seq<Side>): Tree
    decreases |path|
  {
    if path == [] || t.Nil? then t else Walk(Get(t, path[0]), path[1..])
  }

  /** Every side of the path is the bit of the node it leaves, and the bit of the last node leads nowhere. */
  predicate FollowsBits(t: Tree, path: seq<Side>)
    decreases |path|
  {
    t.Cell? &&
    if path == [] then Get(t, t.bit).Nil?
    else path[0] == t.bit && FollowsBits(Get(t, path[0]), path[1..])
  }

  /** The victim is where the bits lead. */
  lemma {:induction false} VictimFollowsBits(t: Tree) returns (path: seq<Side>)
    requires t.Cell?
    ensures FollowsBits(t, path) && Walk(t, path) == Victim(t)
    decreases t
  {
    if Get(t, t.bit).Nil? {
      path := [];
    } else {
      var rest := VictimFollowsBits(Get(t, t.bit));
      path := [t.bit] + rest;
      assert path[1..] == rest;
    }
  }

  /** There is one such path only. */
  lemma {:induction false} OneBitPath(t: Tree, p: seq<Side>, q: seq<Side>)
    requires FollowsBits(t, p) && FollowsBits(t, q)
    ensures p == q
    decreases |p|
  {
    if p != [] && q != [] {
      OneBitPath(Get(t, t.bit), p[1..], q[1..]);
      assert p == [p[0]] + p[1..] && q == [q[0]] + q[1..];
    }
  }

  lemma {:induction false} VictimInside(t: Tree)
    requires t.Cell?
    ensures Victim(t).n in Nodes(t)
    decreases t
  {
    if Get(t, t.bit).Cell? { VictimInside(Get(t, t.bit)); }
  }

  /** A root is evicted next exactly if the subtree on the side of its bit is empty; otherwise the victim is there. */
  lemma RootIsVictim(t: Tree)
    requires t.Cell? && Distinct(t)
    ensures Victim(t) == t <==> (if t.bit == Left then t.l else t.r).Nil?
    ensures Victim(t) != t ==> Victim(t).n in Nodes(if t.bit == Left then t.l else t.r)
  {
    if Get(t, t.bit).Cell? { VictimInside(Get(t, t.bit)); }
  }

  /** After a search the victim lies on the far side of the root, if that is not empty. */
  lemma VictimAway(t: Tree, key: int)
    requires t.Cell? && key != t.key
    ensures key < t.key && t.r.Cell? ==> Victim(Touch(t, key)).n in Nodes(t.r)
    ensures t.key < key && t.l.Cell? ==> Victim(Touch(t, key)).n in Nodes(t.l)
  {
    if key < t.key && t.r.Cell? { VictimInside(t.r); }
    if t.key < key && t.l.Cell? { VictimInside(t.l); }
  }

  lemma {:induction false} DropHighestMarks(t: Tree)
    requires t.Cell?
    ensures var m := Highest(t); Marks(t) == Marks(DropHighest(t)) + {Mark(m.n, m.key, m.bit)}
  {
    if t.r.Cell? { DropHighestMarks(t.r); }
  }

  /** Removing a root changes no other bit. */
  lemma JoinedMarks(l: Tree, r: Tree)
    ensures Marks(Joined(l, r)) == Marks(l) + Marks(r)
  {
    if l.Cell? { DropHighestMarks(l); }
  }
}
