/** The splay tree of pseudolru.c as a value: search, move to root, in-order contents. */
module SplayTree {

  /** `LEFT` is 0 in the source, so a fresh node points left. */
  datatype Side = Left | Right

  /** A tree whose cells remember the address of the node they stand for. */
  datatype Tree = Nil | Cell(n: nat, key: int, value: int, bit: Side, l: Tree, r: Tree)

  function Nodes(t: Tree): set<nat> {
    match t
    case Nil => {}
    case Cell(n, _, _, _, l, r) => Nodes(l) + {n} + Nodes(r)
  }

  predicate Distinct(t: Tree) {
    match t
    case Nil => true
    case Cell(n, _, _, _, l, r) =>
      && n != 0 && n !in Nodes(l) && n !in Nodes(r) && Nodes(l) !! Nodes(r)
      && Distinct(l) && Distinct(r)
  }

  function Get(t: Tree, side: Side): Tree
    requires t.Cell?
  {
    if side == Left then t.l else t.r
  }

  function Replace(t: Tree, side: Side, c: Tree): Tree
    requires t.Cell?
  {
    if side == Left then t.(l := c) else t.(r := c)
  }

  /** The rotation that lifts the child on `side` over its parent. */
  function Rotate(t: Tree, side: Side): (r: Tree)
    requires t.Cell? && Get(t, side).Cell?
    ensures r.Cell? && r.n == Get(t, side).n
  {
    if side == Left then t.l.(r := t.(l := t.l.r)) else t.r.(l := t.(r := t.r.l))
  }

  function Toward(t: Tree, key: int): Side
    requires t.Cell?
  {
    if key < t.key then Left else Right
  }

  function Away(side: Side): Side {
    if side == Left then Right else Left
  }

  /** Does the search end in a node to be lifted? */
  predicate Hit(t: Tree, key: int, update: bool) {
    t.Cell? && (update || key == t.key || Hit(Get(t, Toward(t, key)), key, update))
  }

  /** The tree after an unsuccessful search: only the direction bits on the path changed. */
  function Touch(t: Tree, key: int): Tree {
    if t.Nil? || key == t.key then t
    else
      var side := Toward(t, key);
      Replace(t, side, Touch(Get(t, side), key)).(bit := Away(side))
  }

  /** Move to root: the node where the search ends is rotated upwards one level at a time. */
  function MoveToRoot(t: Tree, key: int, update: bool): (r: Tree)
    requires Hit(t, key, update)
    ensures r.Cell?
  {
    if key == t.key then t
    else
      var side := Toward(t, key);
      var c := Get(t, side);
      var t1 := t.(bit := Away(side));
      if Hit(c, key, update) then Rotate(Replace(t1, side, MoveToRoot(c, key, update)), side) else t1
  }

  /** Is the node to be lifted an even number of levels below the root of `t`? */
  predicate Even(t: Tree, key: int, update: bool)
    requires Hit(t, key, update)
  {
    key == t.key || var c := Get(t, Toward(t, key)); Hit(c, key, update) ==> !Even(c, key, update)
  }

  // ---------------------------------------------------------------------------------
  // What is preserved

  datatype Item = Item(n: nat, key: int, value: int)

  function InOrder(t: Tree): seq<Item> {
    match t
    case Nil => []
    case Cell(n, k, v, _, l, r) => InOrder(l) + [Item(n, k, v)] + InOrder(r)
  }

  lemma RotateKeeps(t: Tree, side: Side)
    requires t.Cell? && Get(t, side).Cell?
    ensures InOrder(Rotate(t, side)) == InOrder(t)
    ensures Nodes(Rotate(t, side)) == Nodes(t)
    ensures Distinct(t) ==> Distinct(Rotate(t, side))
  {
    var c := Get(t, side);
    assert Nodes(c) == Nodes(c.l) + {c.n} + Nodes(c.r);
    assert Distinct(t) ==> Distinct(c);
    if side == Left {
      assert Rotate(t, side).r == t.(l := c.r);
    } else {
      assert Rotate(t, side).l == t.(r := c.l);
    }
  }

  /** The tree without its direction bits. */
  function Bare(t: Tree): Tree {
    match t
    case Nil => Nil
    case Cell(n, k, v, _, l, r) => Cell(n, k, v, Left, Bare(l), Bare(r))
  }

  lemma {:induction false} TouchKeeps(t: Tree, key: int)
    ensures Bare(Touch(t, key)) == Bare(t)
    ensures InOrder(Touch(t, key)) == InOrder(t)
    ensures Nodes(Touch(t, key)) == Nodes(t)
    ensures Distinct(t) ==> Distinct(Touch(t, key))
  {
    if t.Cell? && key != t.key {
      TouchKeeps(Get(t, Toward(t, key)), key);
    }
  }

  lemma {:induction false} MoveToRootKeeps(t: Tree, key: int, update: bool)
    requires Hit(t, key, update)
    ensures InOrder(MoveToRoot(t, key, update)) == InOrder(t)
    ensures Nodes(MoveToRoot(t, key, update)) == Nodes(t)
    ensures Distinct(t) ==> Distinct(MoveToRoot(t, key, update))
  {
    if key != t.key {
      var side := Toward(t, key);
      var c := Get(t, side);
      if Hit(c, key, update) {
        MoveToRootKeeps(c, key, update);
        RotateKeeps(Replace(t.(bit := Away(side)), side, MoveToRoot(c, key, update)), side);
      }
    }
  }
}
