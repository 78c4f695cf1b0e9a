/** The nodes of the cache in memory: records linked by addresses, reached through slots. */
module NodeMemory {
  import opened SplayTree

  const NULL: nat := 0

  datatype Node = Node(key: int, value: int, bit: Side, left: nat, right: nat) {
    function Child(side: Side): nat {
      if side == Left then left else right
    }

    function SetChild(side: Side, p: nat): Node {
      if side == Left then this.(left := p) else this.(right := p)
    }
  }

  /** A `tree_node_t **`: the address of the root field or of a child field of a node. */
  datatype Slot = AtRoot | In(n: nat, side: Side)

  datatype Memory = Memory(root: nat, nodes: map<nat, Node>)

  predicate Allocated(s: Slot, m: Memory) {
    s.In? ==> s.n in m.nodes
  }

  function Load(m: Memory, s: Slot): nat
    requires Allocated(s, m)
  {
    match s
    case AtRoot => m.root
    case In(n, side) => m.nodes[n].Child(side)
  }

  function Store(m: Memory, s: Slot, p: nat): Memory
    requires Allocated(s, m)
  {
    match s
    case AtRoot => m.(root := p)
    case In(n, side) => m.(nodes := m.nodes[n := m.nodes[n].SetChild(side, p)])
  }

  function Addr(t: Tree): nat {
    if t.Nil? then NULL else t.n
  }

  function Record(t: Tree): Node
    requires t.Cell?
  {
    Node(t.key, t.value, t.bit, Addr(t.l), Addr(t.r))
  }

  /** The records that represent the tree. */
  function Image(t: Tree): (im: map<nat, Node>)
    ensures im.Keys == Nodes(t)
  {
    match t
    case Nil => map[]
    case Cell(n, _, _, _, l, r) => Image(l) + Image(r) + map[n := Record(t)]
  }

  /** The memory in which the tree `t` hangs below slot `s`. */
  function Install(m: Memory, s: Slot, t: Tree): Memory
    requires Allocated(s, m)
  {
    Store(m.(nodes := m.nodes + Image(t)), s, Addr(t))
  }

  /** Slot `s` does not belong to the distinct-celled tree `t`. */
  predicate Outside(s: Slot, t: Tree) {
    Distinct(t) && (s.In? ==> s.n !in Nodes(t))
  }

  lemma InstallAt(m: Memory, s: Slot, t: Tree, q: nat)
    requires Allocated(s, m) && Outside(s, t)
    ensures var i := Install(m, s, t);
            && (q in i.nodes <==> q in m.nodes || q in Nodes(t))
            && (q in Nodes(t) ==> i.nodes[q] == Image(t)[q])
            && (q !in Nodes(t) && q in m.nodes ==>
                  i.nodes[q] == if s.In? && s.n == q then m.nodes[q].SetChild(s.side, Addr(t)) else m.nodes[q])
  {
  }

  lemma ImageAt(t: Tree, side: Side, q: nat)
    requires t.Cell? && Distinct(t)
    ensures q == t.n ==> Image(t)[q] == Record(t)
    ensures q in Nodes(Get(t, side)) ==> q != t.n && q in Nodes(t) && Image(t)[q] == Image(Get(t, side))[q]
  {
  }

  lemma ReplaceDistinct(t: Tree, side: Side, c: Tree)
    requires t.Cell? && Distinct(t) && Distinct(c) && Nodes(c) == Nodes(Get(t, side))
    ensures Distinct(Replace(t, side, c)) && Nodes(Replace(t, side, c)) == Nodes(t)
  {
  }

  lemma InstallBelowAt(m: Memory, s: Slot, t: Tree, side: Side, c: Tree, q: nat)
    requires Allocated(s, m) && t.Cell? && Outside(s, t) && t.n in Install(m, s, t).nodes
    requires Nodes(c) == Nodes(Get(t, side)) && Distinct(c) && Outside(s, Replace(t, side, c))
    requires q in m.nodes || q in Nodes(t)
    ensures var a := Install(Install(m, s, t), In(t.n, side), c);
            var b := Install(m, s, Replace(t, side, c));
            q in a.nodes && q in b.nodes && a.nodes[q] == b.nodes[q]
  {
    var t1 := Replace(t, side, c);
    assert Nodes(t1) == Nodes(t);
    InstallAt(m, s, t, q);
    InstallAt(Install(m, s, t), In(t.n, side), c, q);
    InstallAt(m, s, t1, q);
    if q == t.n {
      ImageAt(t, side, q);
      ImageAt(t1, side, q);
      assert Record(t).SetChild(side, Addr(c)) == Record(t1);
    } else if q in Nodes(c) {
      ImageAt(t1, side, q);
    } else if q in Nodes(t) {
      ImageAt(t, Away(side), q);
      ImageAt(t1, Away(side), q);
    }
  }

  lemma InstallKeys(m: Memory, s: Slot, t: Tree)
    requires Allocated(s, m)
    ensures Install(m, s, t).nodes.Keys == m.nodes.Keys + Nodes(t)
  {
  }

  /** The slots inside an installed tree. */
  lemma SlotBelow(m: Memory, s: Slot, t: Tree, side: Side)
    requires Allocated(s, m) && t.Cell? && Outside(s, t)
    ensures Allocated(s, Install(m, s, t)) && Load(Install(m, s, t), s) == t.n
    ensures t.n in Install(m, s, t).nodes && Install(m, s, t).nodes[t.n] == Record(t)
    ensures Load(Install(m, s, t), In(t.n, side)) == Addr(Get(t, side))
    ensures Outside(In(t.n, side), Get(t, side))
  {
    ImageAt(t, side, t.n);
    InstallAt(m, s, t, t.n);
    if s.In? { InstallAt(m, s, t, s.n); }
  }

  /** Replacing a subtree through the slot of its parent replaces it in the whole. */
  lemma InstallBelow(m: Memory, s: Slot, t: Tree, side: Side, c: Tree)
    requires Allocated(s, m) && t.Cell? && Outside(s, t)
    requires Nodes(c) == Nodes(Get(t, side)) && Distinct(c)
    ensures Allocated(In(t.n, side), Install(m, s, t))
    ensures Outside(s, Replace(t, side, c))
    ensures Install(Install(m, s, t), In(t.n, side), c) == Install(m, s, Replace(t, side, c))
  {
    hide Image, Nodes, Distinct, Install, Replace, Get;
    ReplaceDistinct(t, side, c);
    SlotBelow(m, s, t, side);
    SameRoot(m, s, t, side, c);
    var a := Install(Install(m, s, t), In(t.n, side), c);
    var b := Install(m, s, Replace(t, side, c));
    InstallKeys(m, s, t);
    InstallKeys(m, s, Replace(t, side, c));
    InstallKeys(Install(m, s, t), In(t.n, side), c);
    NodesBelow(t, side);
    forall q | q in a.nodes ensures q in b.nodes && a.nodes[q] == b.nodes[q] {
      InstallBelowAt(m, s, t, side, c, q);
    }
    SameNodes(a.nodes, b.nodes);
  }

  lemma NodesBelow(t: Tree, side: Side)
    requires t.Cell?
    ensures Nodes(Get(t, side)) <= Nodes(t)
  {
  }

  lemma SameRoot(m: Memory, s: Slot, t: Tree, side: Side, c: Tree)
    requires Allocated(s, m) && t.Cell? && Allocated(In(t.n, side), Install(m, s, t))
    ensures Install(Install(m, s, t), In(t.n, side), c).root == Install(m, s, Replace(t, side, c)).root
  {
  }

  lemma InstallTwice(m: Memory, s: Slot, t: Tree, u: Tree)
    requires Allocated(s, m) && Outside(s, t) && Outside(s, u) && Nodes(u) == Nodes(t)
    ensures Allocated(s, Install(m, s, t))
    ensures Install(Install(m, s, t), s, u) == Install(m, s, u)
  {
    var i := Install(m, s, t);
    var a := Install(i, s, u);
    var b := Install(m, s, u);
    forall q
      ensures q in a.nodes <==> q in b.nodes
      ensures q in a.nodes ==> a.nodes[q] == b.nodes[q]
    {
      InstallAt(m, s, t, q);
      InstallAt(i, s, u, q);
      InstallAt(m, s, u, q);
    }
    assert a.nodes == b.nodes;
  }

  /** The three assignments of a rotation, in the source's order. */
  function RotateLinks(m: Memory, s: Slot, side: Side): (r: Memory)
    requires Allocated(s, m) && Load(m, s) in m.nodes && Load(m, In(Load(m, s), side)) in m.nodes
    ensures r.nodes.Keys == m.nodes.Keys
    ensures r.root == if s.AtRoot? then Load(m, In(Load(m, s), side)) else m.root
  {
    var pa := Load(m, s);
    var child := Load(m, In(pa, side));
    var m1 := Store(m, In(pa, side), m.nodes[child].Child(Away(side)));
    var m2 := Store(m1, In(child, Away(side)), pa);
    Store(m2, s, child)
  }

  /** What the assignments leave at an address. */
  lemma RotateLinksAt(m: Memory, s: Slot, side: Side, q: nat)
    requires Allocated(s, m) && Load(m, s) in m.nodes && Load(m, In(Load(m, s), side)) in m.nodes && q in m.nodes
    requires var pa := Load(m, s); var child := Load(m, In(pa, side));
      pa != child && (s.In? ==> s.n != pa && s.n != child)
    ensures var pa := Load(m, s); var child := Load(m, In(pa, side));
      RotateLinks(m, s, side).nodes[q] ==
        if q == pa then m.nodes[q].SetChild(side, m.nodes[child].Child(Away(side)))
        else if q == child then m.nodes[q].SetChild(Away(side), pa)
        else if s.In? && q == s.n then m.nodes[q].SetChild(s.side, child)
        else m.nodes[q]
  {
  }

  lemma RotateImage(t: Tree, side: Side, q: nat)
    requires t.Cell? && Get(t, side).Cell? && Distinct(t) && q in Nodes(t)
    ensures var c := Get(t, side);
            q in Nodes(Rotate(t, side)) &&
            Image(Rotate(t, side))[q] ==
              if q == t.n then Record(t).SetChild(side, Addr(Get(c, Away(side))))
              else if q == c.n then Record(c).SetChild(Away(side), t.n)
              else Image(t)[q]
  {
    var c := Get(t, side);
    var r := Rotate(t, side);
    var p := Get(r, Away(side));
    RotateKeeps(t, side);
    assert p == Replace(t, side, Get(c, Away(side)));
    assert Get(r, side) == Get(c, side);
    assert Distinct(c) && Distinct(p);
    ImageAt(t, side, q);
    ImageAt(t, Away(side), q);
    ImageAt(r, side, q);
    ImageAt(r, Away(side), q);
    ImageAt(c, side, q);
    ImageAt(c, Away(side), q);
    ImageAt(p, side, q);
    ImageAt(p, Away(side), q);
  }

  lemma ChildInstalled(m: Memory, s: Slot, t: Tree, side: Side)
    requires Allocated(s, m) && t.Cell? && Get(t, side).Cell? && Outside(s, t)
    ensures var i := Install(m, s, t); var c := Get(t, side);
            && Allocated(s, i) && Load(i, s) == t.n && t.n in i.nodes && i.nodes[t.n] == Record(t)
            && c.n in i.nodes && i.nodes[c.n] == Record(c) && c.n != t.n
            && (s.In? ==> s.n != t.n && s.n != c.n)
  {
    var c := Get(t, side);
    assert Distinct(c);
    SlotBelow(m, s, t, side);
    ImageAt(t, side, c.n);
    ImageAt(c, side, c.n);
    InstallAt(m, s, t, c.n);
  }

  lemma RotateInstalledAt(m: Memory, s: Slot, t: Tree, side: Side, q: nat)
    requires Allocated(s, m) && t.Cell? && Get(t, side).Cell? && Outside(s, t) && Outside(s, Rotate(t, side))
    requires q in m.nodes || q in Nodes(t)
    requires var i := Install(m, s, t); var c := Get(t, side);
             && Allocated(s, i) && Load(i, s) == t.n && t.n in i.nodes && i.nodes[t.n] == Record(t)
             && c.n in i.nodes && i.nodes[c.n] == Record(c) && c.n != t.n
             && (s.In? ==> s.n != t.n && s.n != c.n)
    ensures var a := RotateLinks(Install(m, s, t), s, side); var b := Install(m, s, Rotate(t, side));
            q in a.nodes && q in b.nodes && a.nodes[q] == b.nodes[q]
  {
    hide Image, Nodes, Distinct, Rotate, Install, RotateLinks, Record, Get;
    RotateKeeps(t, side);
    InstallAt(m, s, t, q);
    InstallAt(m, s, Rotate(t, side), q);
    RotatedRecords(t, side);
    RotateLinksAt(Install(m, s, t), s, side, q);
    if q in Nodes(t) {
      RotateImage(t, side, q);
    }
  }

  lemma RotatedRecords(t: Tree, side: Side)
    requires t.Cell? && Get(t, side).Cell?
    ensures var c := Get(t, side);
      && Addr(Rotate(t, side)) == c.n && Record(t).Child(side) == c.n && c.n in Nodes(t) && t.n in Nodes(t)
      && Record(c).Child(Away(side)) == Addr(Get(c, Away(side)))
  {
  }

  lemma SameNodes(a: map<nat, Node>, b: map<nat, Node>)
    requires a.Keys == b.Keys && forall q :: q in a ==> a[q] == b[q]
    ensures a == b
  {
  }

  lemma RotateInstalled(m: Memory, s: Slot, t: Tree, side: Side)
    requires Allocated(s, m) && t.Cell? && Get(t, side).Cell? && Outside(s, t)
    ensures var i := Install(m, s, t);
            && Allocated(s, i) && Load(i, s) == t.n && t.n in i.nodes && Load(i, In(t.n, side)) in i.nodes
            && RotateLinks(i, s, side) == Install(m, s, Rotate(t, side))
    ensures Outside(s, Rotate(t, side))
  {
    RotateKeeps(t, side);
    ChildInstalled(m, s, t, side);
    InstallKeys(m, s, t);
    InstallKeys(m, s, Rotate(t, side));
    var a := RotateLinks(Install(m, s, t), s, side).nodes;
    var b := Install(m, s, Rotate(t, side)).nodes;
    forall q | q in a ensures q in b && a[q] == b[q] {
      RotateInstalledAt(m, s, t, side, q);
    }
    SameNodes(a, b);
  }
}
