/** Linking a node above the root and unlinking the root, in memory. */
module NodeRemoval {
  import opened SplayTree
  import opened NodeMemory
  import opened SplayMap

  /** The parent of the rightmost cell. */
  function HighParent(t: Tree): nat
    requires t.Cell? && t.r.Cell?
  {
    if t.r.r.Nil? then t.n else HighParent(t.r)
  }

  lemma {:induction false} HighParentIn(t: Tree)
    requires t.Cell? && t.r.Cell? && Distinct(t)
    ensures HighParent(t) in Nodes(DropHighest(t)) && HighParent(t) != Highest(t).n
    decreases t
  {
    DropHighestInOrder(t);
    if t.r.r.Cell? { HighParentIn(t.r); }
  }

  lemma {:induction false} DropHighestImage(t: Tree, q: nat)
    requires t.Cell? && Distinct(t) && q in Nodes(DropHighest(t))
    ensures q in Nodes(t)
    ensures Image(DropHighest(t))[q] ==
            if t.r.Cell? && q == HighParent(t) then Image(t)[q].(right := Addr(Highest(t).l)) else Image(t)[q]
    decreases t
  {
    DropHighestInOrder(t);
    if t.r.Nil? {
      ImageAt(t, Left, q);
    } else {
      var d := DropHighest(t);
      DropHighestInOrder(t.r);
      ImageAt(t, Left, q);
      ImageAt(t, Right, q);
      ImageAt(d, Left, q);
      ImageAt(d, Right, q);
      if t.r.r.Cell? { HighParentIn(t.r); }
      if q in Nodes(DropHighest(t.r)) {
        DropHighestImage(t.r, q);
      }
    }
  }

  lemma {:induction false} HighestImage(t: Tree)
    requires t.Cell? && Distinct(t)
    ensures Highest(t).n in Nodes(t) && Image(t)[Highest(t).n] == Record(Highest(t))
    decreases t
  {
    if t.r.Cell? {
      HighestImage(t.r);
      ImageAt(t, Right, Highest(t.r).n);
    }
  }

  /** The assignments that take the root out when it has a left subtree. */
  function Unlink(nodes: map<nat, Node>, root: nat, prev: nat, high: nat): map<nat, Node>
    requires root in nodes && prev in nodes && high in nodes
  {
    var n1 := if prev == root then nodes else nodes[prev := nodes[prev].(right := nodes[high].left)];
    var n2 := if prev == root then n1 else n1[high := n1[high].(left := n1[root].left)];
    n2[high := n2[high].(right := n2[root].right)] - {root}
  }

  /** What the assignments leave at an address. */
  lemma UnlinkedAt(nodes: map<nat, Node>, root: nat, prev: nat, high: nat, q: nat)
    requires root in nodes && prev in nodes && high in nodes && q in nodes
    requires root != high && prev != high && q != root
    ensures q in Unlink(nodes, root, prev, high)
    ensures Unlink(nodes, root, prev, high)[q] ==
      if q == high then nodes[q].(right := nodes[root].right,
                                  left := if prev == root then nodes[q].left else nodes[root].left)
      else if q == prev then nodes[q].(right := nodes[high].left)
      else nodes[q]
  {
  }

  lemma JoinedImage(t: Tree, q: nat)
    requires t.Cell? && t.l.Cell? && Distinct(t) && q in Nodes(Joined(t.l, t.r))
    ensures q in Nodes(t) && q != t.n
    ensures var h := Highest(t.l);
      Image(Joined(t.l, t.r))[q] ==
        if q == h.n then Node(h.key, h.value, h.bit, Addr(DropHighest(t.l)), Addr(t.r))
        else if t.l.r.Cell? && q == HighParent(t.l) then Image(t)[q].(right := Addr(h.l))
        else Image(t)[q]
  {
    var j := Joined(t.l, t.r);
    JoinedDistinct(t);
    DropHighestInOrder(t.l);
    if t.l.r.Cell? { HighParentIn(t.l); }
    if q == Highest(t.l).n {
      ImageAt(j, Left, q);
    } else if q in Nodes(DropHighest(t.l)) {
      ImageAt(j, Left, q);
      DropHighestImage(t.l, q);
      ImageAt(t, Left, q);
    } else {
      ImageAt(t, Right, q);
      ImageAt(j, Right, q);
    }
  }

  lemma DropHighestAddr(t: Tree)
    requires t.Cell?
    ensures Addr(DropHighest(t)) == if t.r.Nil? then Addr(t.l) else t.n
    ensures t.r.Nil? ==> Highest(t) == t
  {
  }

  lemma UnlinkAt(t: Tree, q: nat)
    requires t.Cell? && t.l.Cell? && Distinct(t)
    requires q in Nodes(Joined(t.l, t.r))
    requires t.n in Image(t) && Highest(t.l).n in Image(t)
    requires t.l.r.Cell? ==> HighParent(t.l) in Image(t)
    ensures var u := Unlink(Image(t), t.n, if t.l.r.Nil? then t.n else HighParent(t.l), Highest(t.l).n);
            q in u && u[q] == Image(Joined(t.l, t.r))[q]
  {
    var h := Highest(t.l);
    HighestImage(t.l);
    ImageAt(t, Left, h.n);
    ImageAt(t, Left, t.n);
    DropHighestInOrder(t.l);
    DropHighestAddr(t.l);
    if t.l.r.Cell? {
      HighParentIn(t.l);
      assert HighParent(t.l) in Nodes(t.l);
    }
    assert t.n !in Nodes(t.l);
    hide Nodes, Image, Distinct, Highest, DropHighest, Joined, Unlink, HighParent;
    JoinedImage(t, q);
    UnlinkedAt(Image(t), t.n, if t.l.r.Nil? then t.n else HighParent(t.l), h.n, q);
  }

  lemma JoinedDistinct(t: Tree)
    requires t.Cell? && Distinct(t)
    ensures Distinct(Joined(t.l, t.r)) && Nodes(Joined(t.l, t.r)) == Nodes(t) - {t.n}
  {
    if t.l.Cell? { DropHighestInOrder(t.l); }
  }

  lemma UnlinkIsJoined(t: Tree)
    requires t.Cell? && t.l.Cell? && Distinct(t)
    ensures t.n in Image(t) && Highest(t.l).n in Image(t)
    ensures t.l.r.Cell? ==> HighParent(t.l) in Image(t)
    ensures Unlink(Image(t), t.n, if t.l.r.Nil? then t.n else HighParent(t.l), Highest(t.l).n)
            == Image(Joined(t.l, t.r))
  {
    HighestImage(t.l);
    DropHighestInOrder(t.l);
    if t.l.r.Cell? { HighParentIn(t.l); }
    JoinedDistinct(t);
    hide Nodes, Image, Distinct, Highest, DropHighest, Joined, Unlink, HighParent;
    var prev := if t.l.r.Nil? then t.n else HighParent(t.l);
    var u := Unlink(Image(t), t.n, prev, Highest(t.l).n);
    var j := Image(Joined(t.l, t.r));
    UnlinkKeys(Image(t), t.n, prev, Highest(t.l).n);
    forall q | q in j ensures q in u && u[q] == j[q] {
      UnlinkAt(t, q);
    }
    SameNodes(u, j);
  }

  lemma UnlinkKeys(nodes: map<nat, Node>, root: nat, prev: nat, high: nat)
    requires root in nodes && prev in nodes && high in nodes
    ensures Unlink(nodes, root, prev, high).Keys == nodes.Keys - {root}
  {
  }

  /** The assignments that link the new node `n` above the root. */
  function Link(nodes: map<nat, Node>, root: nat, n: nat, key: int, value: int): map<nat, Node>
    requires root in nodes && n !in nodes
  {
    var n1 := nodes[n := Node(key, value, Left, NULL, NULL)];
    if key < nodes[root].key then
      var n2 := n1[n := n1[n].(right := root)];
      var n3 := n2[n := n2[n].(left := n2[root].left)];
      n3[root := n3[root].(left := NULL)]
    else
      var n2 := n1[n := n1[n].(left := root)];
      var n3 := n2[n := n2[n].(right := n2[root].right)];
      n3[root := n3[root].(right := NULL)]
  }

  lemma InsertedKeeps(t: Tree, n: nat, key: int, value: int)
    requires t.Cell? && Distinct(t) && n !in Nodes(t) && n != NULL
    ensures Distinct(Inserted(t, n, key, value)) && Nodes(Inserted(t, n, key, value)) == Nodes(t) + {n}
    ensures |InOrder(Inserted(t, n, key, value))| == |InOrder(t)| + 1
  {
  }

  lemma LinkAt(t: Tree, n: nat, key: int, value: int, q: nat)
    requires t.Cell? && Distinct(t) && n !in Nodes(t) && n != NULL && t.n in Image(t)
    requires q == n || q in Nodes(t)
    ensures var a := Link(Image(t), t.n, n, key, value); var b := Image(Inserted(t, n, key, value));
            q in a && q in b && a[q] == b[q]
  {
    var u := Inserted(t, n, key, value);
    var side := if key < t.key then Left else Right;
    var p := Replace(t, side, Nil);
    InsertedKeeps(t, n, key, value);
    assert Get(u, Away(side)) == p && Get(u, side) == Get(t, side);
    ImageAt(t, side, t.n);
    ImageAt(u, side, q);
    if q != n {
      ImageAt(u, Away(side), q);
      if q == t.n {
        ImageAt(p, side, q);
      } else {
        ImageAt(t, side, q);
        ImageAt(t, Away(side), q);
        ImageAt(p, Away(side), q);
      }
    }
  }

  lemma LinkIsInserted(t: Tree, n: nat, key: int, value: int)
    requires t.Cell? && Distinct(t) && n !in Nodes(t) && n != NULL
    ensures t.n in Image(t)
    ensures Link(Image(t), t.n, n, key, value) == Image(Inserted(t, n, key, value))
  {
    InsertedKeeps(t, n, key, value);
    var a, b := Link(Image(t), t.n, n, key, value), Image(Inserted(t, n, key, value));
    forall q | q in b ensures q in a && a[q] == b[q] {
      LinkAt(t, n, key, value, q);
    }
    SameNodes(a, b);
  }
}
