/** The pseudo-LRU cache of pseudolru.c: nodes in memory, rearranged through slot pointers. */
module PseudoLru {
  import opened Common
  import opened SplayTree
  import opened NodeMemory
  import opened SplayMap
  import opened CacheBits
  import opened NodeRemoval

  /** The ancestors a splay frame can reach: none, the parent, or parent and grandparent.
      Each tree has a hole on the given side. */
  datatype Context =
    | Top
    | Under(p: Tree, ps: Side)
    | Below(g: Tree, gs: Side, p: Tree, ps: Side)

  predicate ValidContext(ctx: Context) {
    match ctx
    case Top => true
    case Under(p, _) => p.Cell?
    case Below(g, _, p, _) => g.Cell? && p.Cell?
  }

  function Plug(ctx: Context, t: Tree): Tree
    requires ValidContext(ctx)
  {
    match ctx
    case Top => t
    case Under(p, ps) => Replace(p, ps, t)
    case Below(g, gs, p, ps) => Replace(g, gs, Replace(p, ps, t))
  }

  /** The tree below the topmost slot of a splay frame when the frame returns. A node found an
      even number of levels down has been lifted above both ancestors; otherwise only above the
      parent, and the frame above continues from there. */
  function Settled(ctx: Context, c: Tree, key: int, update: bool): Tree
    requires ValidContext(ctx)
  {
    if !Hit(c, key, update) then Plug(ctx, Touch(c, key))
    else Lifted(ctx, MoveToRoot(c, key, update), Even(c, key, update))
  }

  function Lifted(ctx: Context, m: Tree, even: bool): Tree
    requires ValidContext(ctx) && m.Cell?
  {
    match ctx
    case Top => m
    case Under(p, ps) => Rotate(Replace(p, ps, m), ps)
    case Below(g, gs, p, ps) =>
      var g1 := Replace(g, gs, Rotate(Replace(p, ps, m), ps));
      if even then Rotate(g1, gs) else g1
  }

  /** How the slots of a frame relate to its context: `top` is the outermost of them. */
  predicate Linked(ctx: Context, top: Slot, gpa: Option<Slot>, pa: Option<Slot>, child: Slot) {
    && ValidContext(ctx)
    && match ctx
       case Top => gpa.None? && pa.None? && child == top
       case Under(p, ps) => gpa.None? && pa == Some(top) && child == In(p.n, ps)
       case Below(g, gs, p, ps) => gpa == Some(top) && pa == Some(In(g.n, gs)) && child == In(p.n, ps)
  }

  lemma PlugReplace(ctx: Context, c: Tree, d: Tree)
    requires ValidContext(ctx) && Distinct(Plug(ctx, c)) && Distinct(d) && Nodes(d) == Nodes(c)
    ensures Distinct(Plug(ctx, d)) && Nodes(Plug(ctx, d)) == Nodes(Plug(ctx, c))
  {
    match ctx
    case Top =>
    case Under(p, ps) => ReplaceDistinct(Replace(p, ps, c), ps, d);
    case Below(g, gs, p, ps) =>
      assert Distinct(Replace(p, ps, c));
      ReplaceDistinct(Replace(p, ps, c), ps, d);
      ReplaceDistinct(Replace(g, gs, Replace(p, ps, c)), gs, Replace(p, ps, d));
  }

  /** A memory in which the tree `t` hangs below slot `s` is unchanged by installing it again. */
  predicate Rests(i: Memory, s: Slot, t: Tree) {
    Outside(s, t) && Allocated(s, i) && Load(i, s) == Addr(t) && Install(i, s, t) == i
  }

  lemma InstalledRests(m: Memory, s: Slot, t: Tree)
    requires Allocated(s, m) && Outside(s, t)
    ensures Rests(Install(m, s, t), s, t)
  {
    InstallTwice(m, s, t, t);
    if t.Cell? {
      SlotBelow(m, s, t, Left);
    } else if s.In? {
      InstallAt(m, s, t, s.n);
    }
  }

  lemma SubtreeRests(i: Memory, s: Slot, t: Tree, side: Side)
    requires t.Cell? && Rests(i, s, t)
    ensures Rests(i, In(t.n, side), Get(t, side))
  {
    assert Distinct(Get(t, side));
    SlotBelow(i, s, t, side);
    InstallBelow(i, s, t, side, Get(t, side));
    assert Replace(t, side, Get(t, side)) == t;
  }

  /** Replacing the tree in the hole through the innermost slot. */
  lemma Focus(i: Memory, ctx: Context, top: Slot, gpa: Option<Slot>, pa: Option<Slot>, child: Slot, c: Tree, d: Tree)
    requires Linked(ctx, top, gpa, pa, child) && Rests(i, top, Plug(ctx, c))
    requires Distinct(d) && Nodes(d) == Nodes(c)
    ensures Rests(i, child, c)
    ensures Install(i, child, d) == Install(i, top, Plug(ctx, d))
    ensures Outside(top, Plug(ctx, d)) && Outside(child, d)
  {
    PlugReplace(ctx, c, d);
    match ctx
    case Top =>
    case Under(p, ps) =>
      SubtreeRests(i, top, Replace(p, ps, c), ps);
      InstallBelow(i, top, Replace(p, ps, c), ps, d);
    case Below(g, gs, p, ps) =>
      var t := Replace(p, ps, c);
      SubtreeRests(i, top, Replace(g, gs, t), gs);
      SubtreeRests(i, In(g.n, gs), t, ps);
      InstallBelow(i, In(g.n, gs), t, ps, d);
      InstallBelow(i, top, Replace(g, gs, t), gs, Replace(p, ps, d));
  }

  function SetBit(m: Memory, n: nat, bit: Side): Memory
    requires n in m.nodes
  {
    m.(nodes := m.nodes[n := m.nodes[n].(bit := bit)])
  }

  lemma BitInstalled(i: Memory, s: Slot, t: Tree, bit: Side)
    requires t.Cell? && Rests(i, s, t)
    ensures t.n in i.nodes && i.nodes[t.n] == Record(t)
    ensures Distinct(t.(bit := bit)) && Nodes(t.(bit := bit)) == Nodes(t)
    ensures SetBit(i, t.n, bit) == Install(i, s, t.(bit := bit))
  {
    var u := t.(bit := bit);
    SlotBelow(i, s, t, Left);
    InstallKeys(i, s, u);
    InstallKeys(i, s, t);
    var a := SetBit(i, t.n, bit).nodes;
    var b := Install(i, s, u).nodes;
    assert a.Keys == i.nodes.Keys == b.Keys;
    forall q | q in a ensures a[q] == b[q] {
      InstallAt(i, s, t, q);
      InstallAt(i, s, u, q);
      if q in Nodes(t) {
        ImageAt(t, Left, q);
        ImageAt(t, Right, q);
        ImageAt(u, Left, q);
        ImageAt(u, Right, q);
      }
    }
    SameNodes(a, b);
  }

  class Cache {
    var root: nat
    var nodes: map<nat, Node>
    var count: int
    /** The tree that the nodes form. */
    ghost var tree: Tree

    function M(): Memory
      reads this
    {
      Memory(root, nodes)
    }

    /** `*s = p` */
    method Assign(s: Slot, p: nat)
      requires Allocated(s, M())
      modifies this`root, this`nodes
      ensures M() == Store(old(M()), s, p)
    {
      match s
      case AtRoot => root := p;
      case In(n, Left) => nodes := nodes[n := nodes[n].(left := p)];
      case In(n, Right) => nodes := nodes[n := nodes[n].(right := p)];
    }

    method RotateRight(pa: Slot, ghost t: Tree)
      requires Rests(M(), pa, t) && t.Cell? && t.l.Cell?
      modifies this`root, this`nodes
      ensures M() == Install(old(M()), pa, Rotate(t, Left)) && Rests(M(), pa, Rotate(t, Left))
    {
      RotateInstalled(M(), pa, t, Left);
      var p := Load(M(), pa);
      var child := nodes[p].left;
      Assign(In(p, Left), nodes[child].right);
      Assign(In(child, Right), p);
      Assign(pa, child);
      InstalledRests(old(M()), pa, Rotate(t, Left));
    }

    method RotateLeft(pa: Slot, ghost t: Tree)
      requires Rests(M(), pa, t) && t.Cell? && t.r.Cell?
      modifies this`root, this`nodes
      ensures M() == Install(old(M()), pa, Rotate(t, Right)) && Rests(M(), pa, Rotate(t, Right))
    {
      RotateInstalled(M(), pa, t, Right);
      var p := Load(M(), pa);
      var child := nodes[p].right;
      Assign(In(p, Right), nodes[child].left);
      Assign(In(child, Left), p);
      Assign(pa, child);
      InstalledRests(old(M()), pa, Rotate(t, Right));
    }
  
    /** The rotations at the end of a splay frame whose slot holds the node `next`. */
    method Lift(gpa: Option<Slot>, pa: Option<Slot>, child: Slot, next: nat,
                ghost ctx: Context, ghost top: Slot, ghost m: Tree)
      requires Linked(ctx, top, gpa, pa, child) && Rests(M(), top, Plug(ctx, m)) && m.Cell? && next == m.n
      modifies this`root, this`nodes
      ensures M() == Install(old(M()), top, Lifted(ctx, m, true))
    {
      if pa.None? {
        return;
      }
      if gpa.None? {
        ghost var p := Replace(ctx.p, ctx.ps, m);
        LinkTells(M(), pa.value, p, ctx.ps);
        if nodes[Load(M(), pa.value)].left == next {
          RotateRight(pa.value, p);
        } else {
          RotateLeft(pa.value, p);
        }
        return;
      }
      ghost var p := Replace(ctx.p, ctx.ps, m);
      ghost var g := Replace(ctx.g, ctx.gs, p);
      LinkTells(M(), gpa.value, g, ctx.gs);
      SubtreeRests(M(), gpa.value, g, ctx.gs);
      LinkTells(M(), pa.value, p, ctx.ps);
      var paLeft := nodes[Load(M(), pa.value)].left == next;
      var paRight := nodes[Load(M(), pa.value)].right == next;
      var gpaLeft := nodes[Load(M(), gpa.value)].left == Load(M(), pa.value);
      var gpaRight := nodes[Load(M(), gpa.value)].right == Load(M(), pa.value);
      if paLeft && gpaLeft {
        RotateRight(pa.value, p);
        RotatedBelow(old(M()), gpa.value, g, ctx.gs, ctx.ps);
        RotateRight(gpa.value, Replace(g, ctx.gs, Rotate(p, ctx.ps)));
      } else if paRight && gpaRight {
        RotateLeft(pa.value, p);
        RotatedBelow(old(M()), gpa.value, g, ctx.gs, ctx.ps);
        RotateLeft(gpa.value, Replace(g, ctx.gs, Rotate(p, ctx.ps)));
      } else if paRight && gpaLeft {
        RotateLeft(pa.value, p);
        RotatedBelow(old(M()), gpa.value, g, ctx.gs, ctx.ps);
        RotateRight(gpa.value, Replace(g, ctx.gs, Rotate(p, ctx.ps)));
      } else if paLeft && gpaRight {
        RotateRight(pa.value, p);
        RotatedBelow(old(M()), gpa.value, g, ctx.gs, ctx.ps);
        RotateLeft(gpa.value, Replace(g, ctx.gs, Rotate(p, ctx.ps)));
      }
      RotatedTwice(old(M()), gpa.value, g, ctx.gs, ctx.ps);
    }

    /** `__splay`: returns the address of the node found (NULL if none), lifted as far as the
        slots of this frame reach. */
    method Splay(update: bool, gpa: Option<Slot>, pa: Option<Slot>, child: Slot, key: int,
                 ghost ctx: Context, ghost top: Slot, ghost c: Tree)
      returns (next: nat)
      requires Linked(ctx, top, gpa, pa, child) && Rests(M(), top, Plug(ctx, c))
      modifies this`root, this`nodes
      ensures M() == Install(old(M()), top, Settled(ctx, c, key, update))
      ensures next == if Hit(c, key, update) then MoveToRoot(c, key, update).n else NULL
      decreases c, 1
    {
      PlugDistinct(ctx, c);
      Focus(M(), ctx, top, gpa, pa, child, c, c);
      if Load(M(), child) == NULL {
        return NULL;
      }
      next := Search(update, gpa, pa, child, key, ctx, top, c);
      if Hit(c, key, update) {
        ResumedLoads(old(M()), ctx, top, gpa, pa, child, c, key, update);
        HitEnds(c, key, update);
      }
      if next == NULL {
        if update {
          next := Load(M(), child);
        } else {
          return NULL;
        }
      } else {
        if next != Load(M(), child) {
          return next;
        }
      }
      Lift(gpa, pa, child, next, ctx, top, MoveToRoot(c, key, update));
      LiftedInstalled(old(M()), ctx, top, c, key, update);
    }

    /** The descent of `__splay`: stop at the key, or mark the node and continue below it. */
    method Search(update: bool, gpa: Option<Slot>, pa: Option<Slot>, child: Slot, key: int,
                  ghost ctx: Context, ghost top: Slot, ghost c: Tree)
      returns (next: nat)
      requires Linked(ctx, top, gpa, pa, child) && Rests(M(), top, Plug(ctx, c)) && c.Cell?
      requires Rests(M(), child, c)
      modifies this`root, this`nodes
      ensures M() == Install(old(M()), top, Resumed(ctx, c, key, update))
      ensures next == Ended(c, key, update)
      decreases c, 0
    {
      hide Resumed, Settled, Lifted, MoveToRoot, Touch, Even, Image;
      var n := Load(M(), child);
      SlotBelow(M(), child, c, Left);
      if nodes[n].key == key {
        StoppedHere(M(), ctx, top, c, key, update);
        return n;
      }
      Descend(M(), ctx, top, gpa, pa, child, c, key);
      DescendInner(SetBit(M(), n, Away(Toward(c, key))), ctx, top, gpa, pa, child, c, key);
      ghost var inner, innerTop := Inner(ctx, c, key), InnerTop(ctx, top);
      ghost var i := M();
      if nodes[n].key > key {
        nodes := nodes[n := nodes[n].(bit := Right)];
        next := Splay(update, pa, Some(child), In(n, Left), key, inner, innerTop, c.l);
      } else {
        nodes := nodes[n := nodes[n].(bit := Left)];
        next := Splay(update, pa, Some(child), In(n, Right), key, inner, innerTop, c.r);
      }
      TurnedKeeps(ctx, c, key);
      Ascend(i, ctx, top, c, key, update);
    }
  
    /** The nodes in memory are exactly those of a search tree rooted at `root`, and `count`
        is their number. */
    ghost predicate Valid()
      reads this
    {
      && Distinct(tree) && Ordered(tree)
      && M() == Whole(tree)
      && count == |InOrder(tree)|
    }

    /** In every valid cache `count` is the number of bindings. */
    lemma CountIsSize()
      requires Valid()
      ensures count == |Contents(tree)|
    {
      AsMapSize(InOrder(tree));
    }

    constructor ()
      ensures Valid() && Contents(tree) == map[]
    {
      root, nodes, count := NULL, map[], 0;
      tree := Nil;
    }

    method SplayRoot(update: bool, key: int) returns (next: nat)
      requires Valid()
      modifies this
      ensures Valid() && count == old(count) && InOrder(tree) == old(InOrder(tree))
      ensures nodes.Keys == old(nodes.Keys)
      ensures var hit := Hit(old(tree), key, update);
              && tree == (if hit then MoveToRoot(old(tree), key, update) else Touch(old(tree), key))
              && next == if hit then tree.n else NULL
      ensures PointAway(old(tree), key, tree)
    {
      hide PointAway;
      WholeRests(tree);
      next := Splay(update, None, None, AtRoot, key, Top, AtRoot, tree);
      if Hit(tree, key, update) {
        MoveToRootKeeps(tree, key, update);
        MovedPointsAway(tree, key, update);
        WholeInstall(tree, MoveToRoot(tree, key, update));
        tree := MoveToRoot(tree, key, update);
      } else {
        TouchKeeps(tree, key);
        TouchPointsAway(tree, key);
        WholeInstall(tree, Touch(tree, key));
        tree := Touch(tree, key);
      }
    }

    method Get(key: int) returns (value: int)
      requires Valid()
      modifies this
      ensures Valid() && count == old(count) && Contents(tree) == old(Contents(tree)) && nodes.Keys == old(nodes.Keys)
      ensures value == if key in Contents(tree) then Contents(tree)[key] else NULL
      ensures key in Contents(tree) ==> tree.Cell? && tree.key == key && tree.value == value
      ensures key !in Contents(tree) ==> tree == Touch(old(tree), key) && Bare(tree) == Bare(old(tree))
      ensures PointAway(old(tree), key, tree)
      ensures key in Contents(tree) ==>
        && tree.l == Lower(Touch(old(tree), key), key) && tree.r == Upper(Touch(old(tree), key), key)
        && (Victim(tree) == tree <==> (if tree.bit == Left then tree.l else tree.r).Nil?)
      ensures key !in Contents(tree) && old(tree).Cell? ==>
        && (key < old(tree).key && old(tree).r.Cell? ==> Victim(tree).n in Nodes(old(tree).r))
        && (old(tree).key < key && old(tree).l.Cell? ==> Victim(tree).n in Nodes(old(tree).l))
    {
      hide PointAway, Lower, Upper, Victim, MoveToRoot, Touch, Image, Nodes, AsMap;
      TouchKeeps(tree, key);
      HitIsMember(tree, key);
      if key in Contents(tree) {
        FoundAtRoot(tree, key, false);
        MoveToRootSplits(tree, key);
      } else if tree.Cell? && key != tree.key {
        VictimAway(tree, key);
      }
      var node := SplayRoot(false, key);
      if tree.Cell? {
        RootRecord(tree);
        RootIsVictim(tree);
      }
      value := if node != NULL then nodes[node].value else NULL;
    }

    /** `addr` is the address that the allocator returns for a new node. */
    method Put(key: int, value: int, addr: nat)
      requires Valid() && addr != NULL && addr !in nodes
      modifies this
      ensures Valid() && tree.Cell? && tree.key == key
      ensures Contents(tree) ==
        if key in old(Contents(tree)) then old(Contents(tree)) else old(Contents(tree))[key := value]
      ensures nodes.Keys <= old(nodes.Keys) + {addr}
      ensures count == old(count) + if key in old(Contents(tree)) then 0 else 1
      ensures key !in old(Contents(tree)) ==>
        (Victim(tree) == tree <==> forall k :: k in old(Contents(tree)) ==> key < k)
      ensures key in old(Contents(tree)) ==> PointAway(old(tree), key, tree)
      ensures key !in old(Contents(tree)) ==> Marks(tree) == Marks(Touch(old(tree), key)) + {Mark(addr, key, Left)}
    {
      AddrNull(tree);
      if root == NULL {
        nodes := nodes[addr := Node(key, value, Left, NULL, NULL)];
        root := addr;
        count := count + 1;
        SingleWhole(addr, key, value);
        tree := Cell(addr, key, value, Left, Nil, Nil);
      } else {
        PutSplayed(key, value, addr);
      }
    }

    method PutSplayed(key: int, value: int, addr: nat)
      requires Valid() && addr != NULL && addr !in nodes && tree.Cell?
      modifies this
      ensures Valid() && tree.Cell? && tree.key == key
      ensures Contents(tree) ==
        if key in old(Contents(tree)) then old(Contents(tree)) else old(Contents(tree))[key := value]
      ensures nodes.Keys <= old(nodes.Keys) + {addr}
      ensures count == old(count) + if key in old(Contents(tree)) then 0 else 1
      ensures key !in old(Contents(tree)) ==>
        (Victim(tree) == tree <==> forall k :: k in old(Contents(tree)) ==> key < k)
      ensures key in old(Contents(tree)) ==> PointAway(old(tree), key, tree)
      ensures key !in old(Contents(tree)) ==> Marks(tree) == Marks(Touch(old(tree), key)) + {Mark(addr, key, Left)}
    {
      hide MoveToRoot, Inserted, Victim, Splits, PointAway, Marks, Touch;
      if key in Contents(tree) {
        FoundAtRoot(tree, key, true);
      } else {
        FreshEntryIsVictim(tree, addr, key, value);
        MoveToRootMarks(tree, key, true);
        InsertedMarks(MoveToRoot(tree, key, true), addr, key, value);
      }
      NeighbourAtRoot(tree, key);
      var next := SplayRoot(true, key);
      RootRecord(tree);
      TreeAround(tree);
      if nodes[root].key != key {
        PutNew(key, value, addr);
      } else {
        root := next;
      }
    }

    /** Insert a key that the splayed root separates from its neighbours. */
    method PutNew(key: int, value: int, addr: nat)
      requires Valid() && addr != NULL && addr !in nodes
      requires tree.Cell? && key != tree.key && Splits(tree, key)
      modifies this
      ensures Valid() && tree.Cell? && tree.key == key && tree == Inserted(old(tree), addr, key, value)
      ensures Contents(tree) == old(Contents(tree))[key := value] && count == old(count) + 1
      ensures nodes.Keys <= old(nodes.Keys) + {addr}
    {
      hide Splits, InOrder, Image;
      InsertedContents(tree, addr, key, value);
      LinkAbove(key, value, addr);
      count := count + 1;
      root := addr;
    }

    /** Link a new node above the root, which keeps the subtree on the far side of the key. */
    method LinkAbove(key: int, value: int, addr: nat)
      requires Distinct(tree) && M() == Whole(tree) && tree.Cell? && key != tree.key
      requires addr != NULL && addr !in nodes
      modifies this`nodes, this`tree
      ensures tree == Inserted(old(tree), addr, key, value) && Distinct(tree) && nodes == Image(tree)
      ensures |InOrder(tree)| == |InOrder(old(tree))| + 1 && nodes.Keys <= old(nodes.Keys) + {addr}
    {
      RootRecord(tree);
      LinkIsInserted(tree, addr, key, value);
      InsertedKeeps(tree, addr, key, value);
      nodes := nodes[addr := Node(key, value, Left, NULL, NULL)];
      if nodes[root].key > key {
        nodes := nodes[addr := nodes[addr].(right := root)];
        nodes := nodes[addr := nodes[addr].(left := nodes[root].left)];
        nodes := nodes[root := nodes[root].(left := NULL)];
      } else {
        nodes := nodes[addr := nodes[addr].(left := root)];
        nodes := nodes[addr := nodes[addr].(right := nodes[root].right)];
        nodes := nodes[root := nodes[root].(right := NULL)];
      }
      tree := Inserted(tree, addr, key, value);
    }

    method Remove(key: int) returns (value: int)
      requires Valid()
      modifies this
      ensures Valid()
      ensures value == if key in old(Contents(tree)) then old(Contents(tree))[key] else NULL
      ensures Contents(tree) == if value == NULL then old(Contents(tree)) else old(Contents(tree)) - {key}
      ensures count == (if value == NULL then old(count) else old(count) - 1) && nodes.Keys <= old(nodes.Keys)
      ensures value == NULL ==> PointAway(old(tree), key, tree)
      ensures value != NULL ==>
        exists mid :: PointAway(old(tree), key, mid) && mid.Cell? && mid.key == key
                      && Marks(tree) == Marks(mid.l) + Marks(mid.r)
    {
      hide PointAway, Lower, Upper, Victim, Marks;
      value := Get(key);
      if value == NULL {
        return;
      }
      JoinedMarks(tree.l, tree.r);
      JoinedContents(tree);
      JoinedCount(tree);
      RemoveRoot();
    }

    /** Take the root out; its node is freed. */
    method RemoveRoot()
      requires Distinct(tree) && M() == Whole(tree) && tree.Cell?
      modifies this
      ensures tree == Joined(old(tree).l, old(tree).r) && Distinct(tree) && M() == Whole(tree)
      ensures count == old(count) - 1 && nodes.Keys <= old(nodes.Keys)
    {
      RootRecord(tree);
      JoinedDistinct(tree);
      var gone := root;
      if nodes[gone].left != NULL {
        UnlinkIsJoined(tree);
        var prev, high := FindHighest(tree);
        if prev != gone {
          nodes := nodes[prev := nodes[prev].(right := nodes[high].left)];
          nodes := nodes[high := nodes[high].(left := nodes[gone].left)];
        }
        root := high;
        nodes := nodes[high := nodes[high].(right := nodes[gone].right)];
      } else {
        RightWhole(tree);
        root := nodes[gone].right;
      }
      count := count - 1;
      nodes := nodes - {gone};
      tree := Joined(tree.l, tree.r);
    }

    /** The loop of `pseudolru_remove` that finds the highest node on the left, and its parent. */
    method FindHighest(ghost t: Tree) returns (prev: nat, high: nat)
      requires Rests(M(), AtRoot, t) && t.Cell? && t.l.Cell?
      ensures high == Highest(t.l).n
      ensures prev == if t.l.r.Nil? then t.n else HighParent(t.l)
    {
      SlotBelow(M(), AtRoot, t, Left);
      SubtreeRests(M(), AtRoot, t, Left);
      prev := root;
      high := nodes[root].left;
      ghost var cur, slot := t.l, In(t.n, Left);
      SlotBelow(M(), slot, cur, Right);
      AddrNull(cur.r);
      while nodes[high].right != NULL
        invariant cur.Cell? && Rests(M(), slot, cur) && high == cur.n && high in nodes && nodes[high] == Record(cur)
        invariant nodes[high].right == NULL <==> cur.r.Nil?
        invariant Highest(cur) == Highest(t.l)
        invariant cur == t.l ==> prev == t.n
        invariant cur != t.l ==> t.l.r.Cell? && HighParent(t.l) == if cur.r.Nil? then prev else HighParent(cur)
        decreases cur
      {
        SubtreeRests(M(), slot, cur, Right);
        prev := high;
        high := nodes[high].right;
        slot := In(cur.n, Right);
        cur := cur.r;
        SlotBelow(M(), slot, cur, Right);
        AddrNull(cur.r);
      }
    }

    method GetLru(node: nat, ghost slot: Slot, ghost t: Tree) returns (r: nat)
      requires Rests(M(), slot, t) && node == Addr(t)
      ensures t.Nil? ==> r == NULL
      ensures t.Cell? ==> r == Victim(t).n && r in nodes && nodes[r] == Record(Victim(t))
      decreases t
    {
      if node == NULL {
        AddrNull(t);
        return NULL;
      }
      SlotBelow(M(), slot, t, Left);
      AddrNull(t.l);
      AddrNull(t.r);
      if nodes[node].bit == Right {
        if nodes[node].right != NULL {
          SubtreeRests(M(), slot, t, Right);
          r := GetLru(nodes[node].right, In(t.n, Right), t.r);
          return;
        }
      } else {
        if nodes[node].left != NULL {
          SubtreeRests(M(), slot, t, Left);
          r := GetLru(nodes[node].left, In(t.n, Left), t.l);
          return;
        }
      }
      return node;
    }

    method PopLru() returns (value: int)
      requires Valid() && root != NULL
      modifies this
      ensures Valid() && old(tree).Cell? && nodes.Keys <= old(nodes.Keys)
      ensures var k := Victim(old(tree)).key;
              && k in old(Contents(tree)) && value == old(Contents(tree))[k]
              && Contents(tree) == (if value == NULL then old(Contents(tree)) else old(Contents(tree)) - {k})
              && count == if value == NULL then old(count) else old(count) - 1
      ensures exists path :: FollowsBits(old(tree), path) && Victim(old(tree)) == Walk(old(tree), path)
    {
      WholeRests(tree);
      ghost var path := VictimFollowsBits(tree);
      var node := GetLru(root, AtRoot, tree);
      VictimIsMember(tree);
      value := Remove(nodes[node].key);
    }
  }

  /** What the search below a node reports. */
  function Ended(c: Tree, key: int, update: bool): nat
    requires c.Cell?
  {
    if key == c.key then c.n
    else
      var d := Get(c, Toward(c, key));
      if Hit(d, key, update) then MoveToRoot(d, key, update).n else NULL
  }

  lemma HitEnds(c: Tree, key: int, update: bool)
    requires Hit(c, key, update) && Distinct(c)
    ensures || Ended(c, key, update) == MoveToRoot(c, key, update).n
            || (update && Ended(c, key, update) == NULL && Even(c, key, update))
    ensures MoveToRoot(c, key, update).n != NULL
  {
    MoveToRootKeeps(c, key, update);
  }

  lemma TurnedKeeps(ctx: Context, c: Tree, key: int)
    requires ValidContext(ctx) && c.Cell? && Distinct(Plug(ctx, c))
    ensures Distinct(Plug(ctx, Turned(c, key))) && Nodes(Plug(ctx, Turned(c, key))) == Nodes(Plug(ctx, c))
  {
    PlugDistinct(ctx, c);
    PlugReplace(ctx, c, Turned(c, key));
  }

  lemma PlugDistinct(ctx: Context, c: Tree)
    requires ValidContext(ctx) && Distinct(Plug(ctx, c))
    ensures Distinct(c)
  {
    if ctx.Below? { assert Distinct(Replace(ctx.p, ctx.ps, c)); }
  }

  function Turned(c: Tree, key: int): Tree
    requires c.Cell?
  {
    c.(bit := Away(Toward(c, key)))
  }

  /** The context of the frame that a splay frame calls on a child of its node. */
  function Inner(ctx: Context, c: Tree, key: int): Context
    requires ValidContext(ctx) && c.Cell?
  {
    match ctx
    case Top => Under(Turned(c, key), Toward(c, key))
    case Under(p, ps) => Below(p, ps, Turned(c, key), Toward(c, key))
    case Below(_, _, p, ps) => Below(p, ps, Turned(c, key), Toward(c, key))
  }

  function InnerTop(ctx: Context, top: Slot): Slot
    requires ValidContext(ctx)
  {
    if ctx.Below? then In(ctx.g.n, ctx.gs) else top
  }

  /** Which child field holds a given child is decided by the side it is on. */
  lemma LinkTells(i: Memory, s: Slot, t: Tree, side: Side)
    requires Rests(i, s, t) && t.Cell? && Get(t, side).Cell?
    ensures Load(i, s) in i.nodes
    ensures i.nodes[Load(i, s)].left == Get(t, side).n <==> side == Left
    ensures i.nodes[Load(i, s)].right == Get(t, side).n <==> side == Right
  {
    SlotBelow(i, s, t, side);
    assert Get(t, side).n in Nodes(Get(t, side));
  }

  lemma RotatedBelow(i: Memory, s: Slot, g: Tree, gs: Side, ps: Side)
    requires Rests(i, s, g) && g.Cell? && Get(g, gs).Cell? && Get(Get(g, gs), ps).Cell?
    ensures var p := Get(g, gs); var g1 := Replace(g, gs, Rotate(p, ps));
            && Allocated(In(g.n, gs), i)
            && Install(i, In(g.n, gs), Rotate(p, ps)) == Install(i, s, g1)
            && Rests(Install(i, s, g1), s, g1)
  {
    var p := Get(g, gs);
    RotateKeeps(p, ps);
    assert Distinct(p);
    InstallBelow(i, s, g, gs, Rotate(p, ps));
    InstalledRests(i, s, Replace(g, gs, Rotate(p, ps)));
  }

  lemma RotatedTwice(i: Memory, s: Slot, g: Tree, gs: Side, ps: Side)
    requires Rests(i, s, g) && g.Cell? && Get(g, gs).Cell? && Get(Get(g, gs), ps).Cell?
    ensures var g1 := Replace(g, gs, Rotate(Get(g, gs), ps));
            && Allocated(s, Install(i, s, g1))
            && Install(Install(i, s, g1), s, Rotate(g1, gs)) == Install(i, s, Rotate(g1, gs))
  {
    var g1 := Replace(g, gs, Rotate(Get(g, gs), ps));
    RotatedBelow(i, s, g, gs, ps);
    RotateKeeps(g1, gs);
    InstallTwice(i, s, g1, Rotate(g1, gs));
  }

  lemma Descend(i: Memory, ctx: Context, top: Slot, gpa: Option<Slot>, pa: Option<Slot>, child: Slot, c: Tree, key: int)
    requires Linked(ctx, top, gpa, pa, child) && Rests(i, top, Plug(ctx, c)) && c.Cell? && key != c.key
    requires Rests(i, child, c) && Distinct(c)
    ensures c.n in i.nodes
    ensures var i1 := SetBit(i, c.n, Away(Toward(c, key)));
            && i1 == Install(i, top, Plug(ctx, Turned(c, key)))
            && Rests(i1, top, Plug(ctx, Turned(c, key)))
  {
    BitInstalled(i, child, c, Away(Toward(c, key)));
    Focus(i, ctx, top, gpa, pa, child, c, Turned(c, key));
    InstalledRests(i, top, Plug(ctx, Turned(c, key)));
  }

  lemma DescendInner(i: Memory, ctx: Context, top: Slot, gpa: Option<Slot>, pa: Option<Slot>, child: Slot, c: Tree,
                     key: int)
    requires Linked(ctx, top, gpa, pa, child) && c.Cell? && Rests(i, top, Plug(ctx, Turned(c, key)))
    ensures Linked(Inner(ctx, c, key), InnerTop(ctx, top), pa, Some(child), In(c.n, Toward(c, key)))
    ensures Rests(i, InnerTop(ctx, top), Plug(Inner(ctx, c, key), Get(c, Toward(c, key))))
  {
    var c1, side := Turned(c, key), Toward(c, key);
    assert Replace(c1, side, Get(c, side)) == c1;
    if ctx.Below? {
      SubtreeRests(i, top, Plug(ctx, c1), ctx.gs);
    }
  }

  /** The tree when the search below has returned. */
  function Resumed(ctx: Context, c: Tree, key: int, update: bool): Tree
    requires ValidContext(ctx) && c.Cell?
  {
    if !Hit(c, key, update) then Plug(ctx, Touch(c, key))
    else if ctx.Top? || Even(c, key, update) then Plug(ctx, MoveToRoot(c, key, update))
    else Lifted(ctx, MoveToRoot(c, key, update), false)
  }

  lemma StoppedHere(i: Memory, ctx: Context, top: Slot, c: Tree, key: int, update: bool)
    requires ValidContext(ctx) && Rests(i, top, Plug(ctx, c)) && c.Cell? && key == c.key
    ensures i == Install(i, top, Resumed(ctx, c, key, update))
  {
  }

  lemma InnerSettles(ctx: Context, c: Tree, key: int, update: bool)
    requires ValidContext(ctx) && c.Cell? && key != c.key
    ensures var t := Settled(Inner(ctx, c, key), Get(c, Toward(c, key)), key, update);
            Resumed(ctx, c, key, update) == if ctx.Below? then Replace(ctx.g, ctx.gs, t) else t
  {
    var side := Toward(c, key);
    var d := Get(c, side);
    if !Hit(d, key, update) && update {
      assert d.Nil?;
    }
  }

  lemma InnerKeeps(ctx: Context, c: Tree, key: int, update: bool)
    requires ValidContext(ctx) && Distinct(Plug(ctx, c))
    ensures Distinct(Settled(ctx, c, key, update)) && Nodes(Settled(ctx, c, key, update)) == Nodes(Plug(ctx, c))
  {
    PlugDistinct(ctx, c);
    if !Hit(c, key, update) {
      TouchKeeps(c, key);
      PlugReplace(ctx, c, Touch(c, key));
    } else {
      MoveToRootKeeps(c, key, update);
      PlugReplace(ctx, c, MoveToRoot(c, key, update));
      LiftedKeeps(ctx, MoveToRoot(c, key, update), Even(c, key, update));
    }
  }

  lemma LiftedKeeps(ctx: Context, m: Tree, even: bool)
    requires ValidContext(ctx) && m.Cell? && Distinct(Plug(ctx, m))
    ensures Distinct(Lifted(ctx, m, even)) && Nodes(Lifted(ctx, m, even)) == Nodes(Plug(ctx, m))
    ensures InOrder(Lifted(ctx, m, even)) == InOrder(Plug(ctx, m))
  {
    match ctx
    case Top =>
    case Under(p, ps) => RotateKeeps(Replace(p, ps, m), ps);
    case Below(g, gs, p, ps) =>
      var t := Replace(p, ps, m);
      assert Distinct(t);
      RotateKeeps(t, ps);
      ReplaceDistinct(Replace(g, gs, t), gs, Rotate(t, ps));
      RotateKeeps(Replace(g, gs, Rotate(t, ps)), gs);
  }

  lemma Ascend(i: Memory, ctx: Context, top: Slot, c: Tree, key: int, update: bool)
    requires ValidContext(ctx) && c.Cell? && key != c.key
    requires Rests(i, top, Plug(ctx, c)) && Allocated(top, i)
    requires Distinct(Plug(ctx, Turned(c, key))) && Nodes(Plug(ctx, Turned(c, key))) == Nodes(Plug(ctx, c))
    ensures var i1 := Install(i, top, Plug(ctx, Turned(c, key)));
            var d := Get(c, Toward(c, key));
            && Allocated(InnerTop(ctx, top), i1)
            && Install(i1, InnerTop(ctx, top), Settled(Inner(ctx, c, key), d, key, update))
               == Install(i, top, Resumed(ctx, c, key, update))
  {
    var side := Toward(c, key);
    var c1 := Turned(c, key);
    var d := Get(c, side);
    var w := Plug(ctx, c1);
    var i1 := Install(i, top, w);
    var t := Settled(Inner(ctx, c, key), d, key, update);
    InstalledRests(i, top, w);
    assert Replace(c1, side, d) == c1;
    InnerSettles(ctx, c, key, update);
    if ctx.Below? {
      assert Plug(Inner(ctx, c, key), d) == Get(w, ctx.gs);
      assert Distinct(Get(w, ctx.gs));
      InnerKeeps(Inner(ctx, c, key), d, key, update);
      InstallBelow(i1, top, w, ctx.gs, t);
      ReplaceDistinct(w, ctx.gs, t);
      InstallTwice(i, top, w, Replace(w, ctx.gs, t));
    } else {
      assert Plug(Inner(ctx, c, key), d) == w;
      InnerKeeps(Inner(ctx, c, key), d, key, update);
      InstallTwice(i, top, w, t);
    }
  }

  /** A node that a deeper frame lifted above the parent is no longer in this frame's slot. */
  lemma LiftedPast(j: Memory, s: Slot, p: Tree, ps: Side, m: Tree)
    requires p.Cell? && m.Cell? && Distinct(m) && Rests(j, s, Rotate(Replace(p, ps, m), ps))
    ensures Allocated(In(p.n, ps), j) && Load(j, In(p.n, ps)) != m.n
  {
    var r := Rotate(Replace(p, ps, m), ps);
    var q := Get(r, Away(ps));
    assert q == Replace(p, ps, Get(m, Away(ps)));
    SubtreeRests(j, s, r, Away(ps));
    SlotBelow(j, In(m.n, Away(ps)), q, ps);
  }

  lemma ResumedLoads(i: Memory, ctx: Context, top: Slot, gpa: Option<Slot>, pa: Option<Slot>, child: Slot, c: Tree,
                     key: int, update: bool)
    requires Linked(ctx, top, gpa, pa, child) && Rests(i, top, Plug(ctx, c)) && c.Cell?
    requires Hit(c, key, update)
    ensures var j := Install(i, top, Resumed(ctx, c, key, update)); var m := MoveToRoot(c, key, update);
            && Allocated(child, j)
            && (Load(j, child) == m.n <==> ctx.Top? || Even(c, key, update))
            && (ctx.Top? || Even(c, key, update) ==> Rests(j, top, Plug(ctx, m)))
  {
    var m := MoveToRoot(c, key, update);
    var r := Resumed(ctx, c, key, update);
    var j := Install(i, top, r);
    PlugDistinct(ctx, c);
    MoveToRootKeeps(c, key, update);
    PlugReplace(ctx, c, m);
    LiftedKeeps(ctx, m, false);
    InstalledRests(i, top, r);
    if ctx.Top? || Even(c, key, update) {
      Focus(j, ctx, top, gpa, pa, child, m, m);
    } else if ctx.Under? {
      LiftedPast(j, top, ctx.p, ctx.ps, m);
    } else {
      SubtreeRests(j, top, r, ctx.gs);
      LiftedPast(j, In(ctx.g.n, ctx.gs), ctx.p, ctx.ps, m);
    }
  }

  lemma LiftedInstalled(i: Memory, ctx: Context, top: Slot, c: Tree, key: int, update: bool)
    requires ValidContext(ctx) && Rests(i, top, Plug(ctx, c)) && c.Cell? && Hit(c, key, update)
    requires ctx.Top? || Even(c, key, update)
    ensures var m := MoveToRoot(c, key, update);
            && Allocated(top, Install(i, top, Plug(ctx, m)))
            && Install(Install(i, top, Plug(ctx, m)), top, Lifted(ctx, m, true))
               == Install(i, top, Settled(ctx, c, key, update))
  {
    var m := MoveToRoot(c, key, update);
    PlugDistinct(ctx, c);
    MoveToRootKeeps(c, key, update);
    PlugReplace(ctx, c, m);
    LiftedKeeps(ctx, m, true);
    InstallTwice(i, top, Plug(ctx, m), Lifted(ctx, m, true));
  }

  // ---------------------------------------------------------------------------------
  // The whole memory of a cache

  function Whole(t: Tree): Memory {
    Memory(Addr(t), Image(t))
  }

  lemma WholeInstall(t: Tree, u: Tree)
    requires Nodes(t) == Nodes(u)
    ensures Install(Whole(t), AtRoot, u) == Whole(u)
  {
    assert Image(t) + Image(u) == Image(u);
  }

  lemma WholeRests(t: Tree)
    requires Distinct(t)
    ensures Rests(Whole(t), AtRoot, t)
  {
    WholeInstall(t, t);
  }

  lemma AddrNull(t: Tree)
    requires Distinct(t)
    ensures Addr(t) == NULL <==> t.Nil?
  {
  }

  lemma RootRecord(t: Tree)
    requires t.Cell? && Distinct(t)
    ensures t.n in Image(t) && Image(t)[t.n] == Record(t) && t.n != NULL
    ensures Rests(Whole(t), AtRoot, t)
    ensures Addr(t.l) == NULL <==> t.l.Nil?
  {
    ImageAt(t, Left, t.n);
    WholeRests(t);
  }

  lemma SingleWhole(n: nat, key: int, value: int)
    requires n != NULL
    ensures var t := Cell(n, key, value, Left, Nil, Nil);
            && Whole(t) == Memory(n, map[n := Node(key, value, Left, NULL, NULL)])
            && Distinct(t) && Ordered(t) && |InOrder(t)| == 1 && Contents(t) == map[key := value]
  {
    var t := Cell(n, key, value, Left, Nil, Nil);
    assert InOrder(t) == [Item(n, key, value)];
    AsMapSingle(Item(n, key, value));
  }

  lemma RightWhole(t: Tree)
    requires t.Cell? && t.l.Nil? && Distinct(t)
    ensures Image(t) - {t.n} == Image(t.r)
  {
    SameNodes(Image(t) - {t.n}, Image(t.r));
  }

  lemma JoinedCount(t: Tree)
    requires t.Cell?
    ensures |InOrder(Joined(t.l, t.r))| == |InOrder(t)| - 1
  {
    if t.l.Cell? { DropHighestInOrder(t.l); }
  }
}
