/** The guillotine tree of texture_atlas.c as a value: every split tiles its rectangle. */
module AtlasTree {

  datatype Rect = Rect(x: int, y: int, w: int, h: int)

  /** A node has two kids or none; a leaf with id 0 is free. */
  datatype Tex =
    | Leaf(rect: Rect, id: int)
    | Split(rect: Rect, k0: Tex, k1: Tex)

  /** Cutting a free rectangle so that the first part has the requested width or height. */
  function Cut(r: Rect, w: int, h: int): (Rect, Rect) {
    if r.h - h < r.w - w then
      (Rect(r.x, r.y, w, r.h), Rect(r.x + w, r.y, r.w - w, r.h))
    else
      (Rect(r.x, r.y, r.w, h), Rect(r.x, r.y + h, r.w, r.h - h))
  }

  datatype Placement = NoRoom | Placed(t: Tex, r: Rect)

  function Misfit(r: Rect, w: int, h: int): nat {
    (if r.w == w then 0 else 1) + if r.h == h then 0 else 1
  }

  /** `__insert` */
  function Insert(t: Tex, w: int, h: int, id: int): (p: Placement)
    ensures p.Placed? ==> p.t.rect == t.rect
    decreases t, if t.Leaf? then Misfit(t.rect, w, h) else 0
  {
    match t
    case Split(rect, k0, k1) =>
      var p := Insert(k0, w, h, id);
      if p.Placed? then Placed(Split(rect, p.t, k1), p.r)
      else
        var q := Insert(k1, w, h, id);
        if q.Placed? then Placed(Split(rect, k0, q.t), q.r) else NoRoom
    case Leaf(rect, was) => InsertLeaf(rect, was, w, h, id)
  }

  function InsertLeaf(rect: Rect, was: int, w: int, h: int, id: int): (p: Placement)
    ensures p.Placed? ==> p.t.rect == rect
    decreases Misfit(rect, w, h)
  {
    if rect.w == w && rect.h == h && was == 0 then Placed(Leaf(rect, id), rect)
    else if rect.w < w || rect.h < h || was != 0 then NoRoom
    else
      var (a, b) := Cut(rect, w, h);
      var p := InsertLeaf(a, 0, w, h, id);
      if p.Placed? then Placed(Split(rect, p.t, Leaf(b, 0)), p.r) else NoRoom
  }

  // ---------------------------------------------------------------------------------
  // Tiling

  predicate Contains(r: Rect, x: int, y: int) {
    r.x <= x < r.x + r.w && r.y <= y < r.y + r.h
  }

  /** How many leaves cover the point. */
  function Cover(t: Tex, x: int, y: int): nat {
    match t
    case Leaf(r, _) => if Contains(r, x, y) then 1 else 0
    case Split(_, k0, k1) => Cover(k0, x, y) + Cover(k1, x, y)
  }

  /** `a` and `b` are the two parts of `r` on either side of a straight cut. */
  predicate Halves(r: Rect, a: Rect, b: Rect) {
    || (a.x == r.x && a.y == b.y == r.y && a.h == b.h == r.h && b.x == r.x + a.w && a.w + b.w == r.w)
    || (a.y == r.y && a.x == b.x == r.x && a.w == b.w == r.w && b.y == r.y + a.h && a.h + b.h == r.h)
  }

  /** Every split halves its rectangle and every leaf has a positive size. */
  predicate Proper(t: Tex) {
    match t
    case Leaf(r, _) => 0 < r.w && 0 < r.h
    case Split(r, k0, k1) => Halves(r, k0.rect, k1.rect) && Proper(k0) && Proper(k1)
  }

  /** The leaves of a proper tree tile its rectangle: each point inside lies in exactly one leaf,
      each point outside in none. */
  lemma {:induction false} LeavesTile(t: Tex, x: int, y: int)
    requires Proper(t)
    ensures Cover(t, x, y) == if Contains(t.rect, x, y) then 1 else 0
    ensures 0 < t.rect.w && 0 < t.rect.h
  {
    if t.Split? {
      LeavesTile(t.k0, x, y);
      LeavesTile(t.k1, x, y);
    }
  }

  // ---------------------------------------------------------------------------------
  // Contents

  datatype Item = Item(rect: Rect, id: int)

  function Leaves(t: Tex): seq<Item> {
    match t
    case Leaf(r, id) => [Item(r, id)]
    case Split(_, k0, k1) => Leaves(k0) + Leaves(k1)
  }

  function Used(t: Tex): multiset<Item> {
    match t
    case Leaf(r, id) => if id == 0 then multiset{} else multiset{Item(r, id)}
    case Split(_, k0, k1) => Used(k0) + Used(k1)
  }

  /** Some free leaf is large enough. */
  predicate HasRoom(t: Tex, w: int, h: int) {
    match t
    case Leaf(r, id) => id == 0 && w <= r.w && h <= r.h
    case Split(_, k0, k1) => HasRoom(k0, w, h) || HasRoom(k1, w, h)
  }

  lemma {:induction false} LeafFits(r: Rect, was: int, w: int, h: int, id: int)
    ensures InsertLeaf(r, was, w, h, id).Placed? <==> was == 0 && w <= r.w && h <= r.h
    decreases Misfit(r, w, h)
  {
    if was == 0 && w <= r.w && h <= r.h && !(r.w == w && r.h == h) {
      LeafFits(Cut(r, w, h).0, 0, w, h, id);
    }
  }

  lemma {:induction false} LeafPlacement(r: Rect, was: int, w: int, h: int, id: int)
    requires id != 0
    ensures var p := InsertLeaf(r, was, w, h, id);
            && (p.Placed? <==> was == 0 && w <= r.w && h <= r.h)
            && (p.Placed? ==>
                  && p.r == Rect(r.x, r.y, w, h) && Used(p.t) == multiset{Item(p.r, id)}
                  && (Proper(p.t) ==> 0 < w && 0 < h)
                  && (0 < r.w && 0 < r.h && 0 < w && 0 < h ==> Proper(p.t)))
    decreases Misfit(r, w, h)
  {
    if was == 0 && w <= r.w && h <= r.h && !(r.w == w && r.h == h) {
      LeafPlacement(Cut(r, w, h).0, 0, w, h, id);
    }
  }

  /** A texture finds a place exactly when some free leaf is large enough; it gets exactly the
      requested size, and every texture already there stays where it is. */
  lemma {:induction false} InsertPlaces(t: Tex, w: int, h: int, id: int)
    requires id != 0
    ensures var p := Insert(t, w, h, id);
            && (p.Placed? <==> HasRoom(t, w, h))
            && (p.Placed? ==> p.r.w == w && p.r.h == h && Used(p.t) == Used(t) + multiset{Item(p.r, id)})
  {
    match t
    case Leaf(r, was) => LeafPlacement(r, was, w, h, id);
    case Split(_, k0, k1) =>
      InsertPlaces(k0, w, h, id);
      if !HasRoom(k0, w, h) { InsertPlaces(k1, w, h, id); }
  }

  /** The tiling survives an insertion exactly when the requested size is positive. */
  lemma {:induction false} InsertKeepsTiling(t: Tex, w: int, h: int, id: int)
    requires Proper(t) && id != 0 && Insert(t, w, h, id).Placed?
    ensures Proper(Insert(t, w, h, id).t) <==> 0 < w && 0 < h
  {
    match t
    case Leaf(r, was) => LeafPlacement(r, was, w, h, id);
    case Split(_, k0, k1) =>
      if Insert(k0, w, h, id).Placed? {
        InsertKeepsTiling(k0, w, h, id);
      } else {
        InsertKeepsTiling(k1, w, h, id);
      }
  }

  // ---------------------------------------------------------------------------------
  // Which leaf is taken, and what is left of it

  predicate Fits(leaf: Item, w: int, h: int) {
    leaf.id == 0 && w <= leaf.rect.w && h <= leaf.rect.h
  }

  ghost predicate SomeFits(leaves: seq<Item>, w: int, h: int) {
    exists i :: 0 <= i < |leaves| && Fits(leaves[i], w, h)
  }

  /** Leaf `i` is the first that is free and large enough. */
  predicate FirstFit(leaves: seq<Item>, i: nat, w: int, h: int) {
    i < |leaves| && Fits(leaves[i], w, h) && forall j :: 0 <= j < i ==> !Fits(leaves[j], w, h)
  }

  /** What a texture in the corner of a rectangle leaves: the larger of the two margins keeps the whole side of the
      rectangle, the smaller one ends at the texture. */
  function Carved(r: Rect, w: int, h: int, id: int): seq<Item> {
    var dw, dh := r.w - w, r.h - h;
    [Item(Rect(r.x, r.y, w, h), id)] +
    if dw == 0 && dh == 0 then []
    else if dh < dw then
      (if dh == 0 then [] else [Item(Rect(r.x, r.y + h, w, dh), 0)]) + [Item(Rect(r.x + w, r.y, dw, r.h), 0)]
    else
      (if dw == 0 then [] else [Item(Rect(r.x + w, r.y, dw, h), 0)]) + [Item(Rect(r.x, r.y + h, r.w, dh), 0)]
  }

  /** The texture got its place in leaf `i`, and no other leaf changed. */
  predicate CarvedAt(before: seq<Item>, after: seq<Item>, i: nat, w: int, h: int, id: int, place: Rect) {
    && FirstFit(before, i, w, h)
    && place == Rect(before[i].rect.x, before[i].rect.y, w, h)
    && after == before[..i] + Carved(before[i].rect, w, h, id) + before[i + 1..]
  }

  lemma {:induction false} HasRoomInLeaves(t: Tex, w: int, h: int)
    ensures HasRoom(t, w, h) <==> SomeFits(Leaves(t), w, h)
  {
    match t
    case Leaf(r, id) =>
      assert Leaves(t)[0] == Item(r, id);
    case Split(_, k0, k1) =>
      HasRoomInLeaves(k0, w, h);
      HasRoomInLeaves(k1, w, h);
      FitsConcat(Leaves(k0), Leaves(k1), w, h);
  }

  lemma FitsConcat(a: seq<Item>, b: seq<Item>, w: int, h: int)
    ensures SomeFits(a + b, w, h) <==> SomeFits(a, w, h) || SomeFits(b, w, h)
  {
    if i :| 0 <= i < |a| && Fits(a[i], w, h) { assert (a + b)[i] == a[i]; }
    if i :| 0 <= i < |b| && Fits(b[i], w, h) { assert (a + b)[|a| + i] == b[i]; }
    if i :| 0 <= i < |a + b| && Fits((a + b)[i], w, h) {
      if i < |a| { assert Fits(a[i], w, h); } else { assert Fits(b[i - |a|], w, h); }
    }
  }

  /** A free leaf that is large enough is carved up. */
  lemma LeafCarved(r: Rect, w: int, h: int, id: int)
    requires w <= r.w && h <= r.h
    ensures var p := InsertLeaf(r, 0, w, h, id);
            p.Placed? && p.r == Rect(r.x, r.y, w, h) && Leaves(p.t) == Carved(r, w, h, id)
  {
    if !(r.w == w && r.h == h) {
      var (a, b) := Cut(r, w, h);
      assert InsertLeaf(a, 0, w, h, id).Placed? by { LeafFits(a, 0, w, h, id); }
      if !(a.w == w && a.h == h) {
        var (c, d) := Cut(a, w, h);
        assert c == Rect(r.x, r.y, w, h);
        assert InsertLeaf(c, 0, w, h, id) == Placed(Leaf(c, id), c);
        assert InsertLeaf(a, 0, w, h, id) == Placed(Split(a, Leaf(c, id), Leaf(d, 0)), c);
        assert Leaves(Split(a, Leaf(c, id), Leaf(d, 0))) == [Item(c, id), Item(d, 0)];
        assert Carved(r, w, h, id) == [Item(c, id), Item(d, 0), Item(b, 0)];
      } else {
        assert Carved(r, w, h, id) == [Item(a, id), Item(b, 0)];
      }
    }
  }

  /**
   * An insertion takes the first free leaf that is large enough, in the order of the leaves, puts the texture into its
   * corner, leaves the two margins free and touches no other leaf.
   */
  lemma {:induction false} InsertCarves(t: Tex, w: int, h: int, id: int) returns (i: nat)
    requires HasRoom(t, w, h)
    ensures var p := Insert(t, w, h, id);
            p.Placed? && CarvedAt(Leaves(t), Leaves(p.t), i, w, h, id, p.r)
  {
    hide *;
    match t
    case Leaf(r, was) =>
      LeafCarvedAt(r, was, w, h, id);
      i := 0;
    case Split(rect, k0, k1) =>
      var a, b := Leaves(k0), Leaves(k1);
      SplitInserts(rect, k0, k1, w, h, id);
      InsertRefused(k0, w, h, id);
      if HasRoom(k0, w, h) {
        i := InsertCarves(k0, w, h, id);
        var p := Insert(k0, w, h, id);
        CarvedLeft(a, Leaves(p.t), b, i, w, h, id, p.r);
        SplitLeaves(rect, p.t, k1);
      } else {
        HasRoomInLeaves(k0, w, h);
        i := InsertCarves(k1, w, h, id);
        var p := Insert(k1, w, h, id);
        CarvedRight(a, b, Leaves(p.t), i, w, h, id, p.r);
        SplitLeaves(rect, k0, p.t);
        i := |a| + i;
      }
  }

  lemma LeafCarvedAt(r: Rect, was: int, w: int, h: int, id: int)
    requires HasRoom(Leaf(r, was), w, h)
    ensures var p := Insert(Leaf(r, was), w, h, id);
            p.Placed? && CarvedAt(Leaves(Leaf(r, was)), Leaves(p.t), 0, w, h, id, p.r)
  {
    LeafCarved(r, w, h, id);
    assert Leaves(Leaf(r, was))[0] == Item(r, 0);
  }

  lemma SplitLeaves(rect: Rect, k0: Tex, k1: Tex)
    ensures Leaves(Split(rect, k0, k1)) == Leaves(k0) + Leaves(k1)
  {
  }

  lemma SplitInserts(rect: Rect, k0: Tex, k1: Tex, w: int, h: int, id: int)
    ensures Leaves(Split(rect, k0, k1)) == Leaves(k0) + Leaves(k1)
    ensures HasRoom(Split(rect, k0, k1), w, h) <==> HasRoom(k0, w, h) || HasRoom(k1, w, h)
    ensures var p, q := Insert(k0, w, h, id), Insert(k1, w, h, id);
            Insert(Split(rect, k0, k1), w, h, id) ==
              if p.Placed? then Placed(Split(rect, p.t, k1), p.r)
              else if q.Placed? then Placed(Split(rect, k0, q.t), q.r) else NoRoom
  {
  }

  lemma {:induction false} InsertRefused(t: Tex, w: int, h: int, id: int)
    ensures Insert(t, w, h, id).Placed? <==> HasRoom(t, w, h)
  {
    match t
    case Leaf(r, was) => LeafFits(r, was, w, h, id);
    case Split(_, k0, k1) =>
      InsertRefused(k0, w, h, id);
      InsertRefused(k1, w, h, id);
  }

  lemma CarvedLeft(a: seq<Item>, a': seq<Item>, b: seq<Item>, i: nat, w: int, h: int, id: int, place: Rect)
    requires CarvedAt(a, a', i, w, h, id, place)
    ensures CarvedAt(a + b, a' + b, i, w, h, id, place)
  {
    hide Carved, Fits;
    var c := Carved(a[i].rect, w, h, id);
    assert (a + b)[..i] == a[..i] && (a + b)[i + 1..] == a[i + 1..] + b;
    assert (a[..i] + c + a[i + 1..]) + b == a[..i] + c + (a[i + 1..] + b);
  }

  lemma CarvedRight(a: seq<Item>, b: seq<Item>, b': seq<Item>, i: nat, w: int, h: int, id: int, place: Rect)
    requires CarvedAt(b, b', i, w, h, id, place) && !SomeFits(a, w, h)
    ensures CarvedAt(a + b, a + b', |a| + i, w, h, id, place)
  {
    hide Carved, Fits;
    var c := Carved(b[i].rect, w, h, id);
    assert (a + b)[..|a| + i] == a + b[..i] && (a + b)[|a| + i + 1..] == b[i + 1..];
    assert a + (b[..i] + c + b[i + 1..]) == (a + b[..i]) + c + b[i + 1..];
  }

  /** The room left in a free rectangle: a second texture fits exactly into one of two rectangles. */
  lemma RoomLeft(r: Rect, w: int, h: int, id: int, a: int, b: int)
    requires 0 < w <= r.w && 0 < h <= r.h && id != 0 && 0 < a && 0 < b
    ensures Insert(Leaf(r, 0), w, h, id).Placed?
    ensures HasRoom(Insert(Leaf(r, 0), w, h, id).t, a, b) <==>
            if r.h - h < r.w - w
            then (a <= r.w - w && b <= r.h) || (a <= w && b <= r.h - h)
            else (a <= r.w && b <= r.h - h) || (a <= r.w - w && b <= h)
  {
    LeafCarved(r, w, h, id);
    var t := InsertLeaf(r, 0, w, h, id).t;
    HasRoomInLeaves(t, a, b);
    var c := Carved(r, w, h, id);
    assert |c| <= 3;
    assert forall i :: 0 <= i < |c| && Fits(c[i], a, b) ==> i in {1, 2};
    if |c| > 1 { assert Fits(c[1], a, b) || !Fits(c[1], a, b); }
    if |c| > 2 { assert Fits(c[2], a, b) || !Fits(c[2], a, b); }
  }

  /** On a square of 64 a texture of 32 by 32 leaves the lower half whole. */
  lemma LowerHalfStays()
    ensures var p := Insert(Leaf(Rect(0, 0, 64, 64), 0), 32, 32, 1);
            p.Placed? && HasRoom(p.t, 64, 32)
  {
    RoomLeft(Rect(0, 0, 64, 64), 32, 32, 1, 64, 32);
  }

  // ---------------------------------------------------------------------------------
  // No overlap

  function CoverOf(s: seq<Item>, x: int, y: int): nat {
    if s == [] then 0 else CoverOf(s[..|s| - 1], x, y) + if Contains(s[|s| - 1].rect, x, y) then 1 else 0
  }

  lemma {:induction false} CoverOfConcat(a: seq<Item>, b: seq<Item>, x: int, y: int)
    ensures CoverOf(a + b, x, y) == CoverOf(a, x, y) + CoverOf(b, x, y)
    decreases |b|
  {
    if b == [] {
      assert a + b == a;
    } else {
      assert (a + b)[..|a + b| - 1] == a + b[..|b| - 1];
      CoverOfConcat(a, b[..|b| - 1], x, y);
    }
  }

  lemma {:induction false} CoverIsOfLeaves(t: Tex, x: int, y: int)
    ensures CoverOf(Leaves(t), x, y) == Cover(t, x, y)
  {
    match t
    case Leaf(r, id) =>
      assert Leaves(t)[..0] == [];
    case Split(_, k0, k1) =>
      CoverIsOfLeaves(k0, x, y);
      CoverIsOfLeaves(k1, x, y);
      CoverOfConcat(Leaves(k0), Leaves(k1), x, y);
  }

  lemma {:induction false} CoverOfAtLeast(s: seq<Item>, i: nat, x: int, y: int)
    requires i < |s| && Contains(s[i].rect, x, y)
    ensures CoverOf(s, x, y) >= 1
    decreases |s|
  {
    if i < |s| - 1 { CoverOfAtLeast(s[..|s| - 1], i, x, y); }
  }

  lemma {:induction false} CoverOfTwo(s: seq<Item>, i: nat, j: nat, x: int, y: int)
    requires i < j < |s| && Contains(s[i].rect, x, y) && Contains(s[j].rect, x, y)
    ensures CoverOf(s, x, y) >= 2
    decreases |s|
  {
    if j < |s| - 1 {
      CoverOfTwo(s[..|s| - 1], i, j, x, y);
    } else {
      CoverOfAtLeast(s[..|s| - 1], i, x, y);
    }
  }

  /** No leaf of a proper tree leaves its rectangle. */
  lemma LeafInside(t: Tex, i: nat, x: int, y: int)
    requires Proper(t) && i < |Leaves(t)|
    ensures Contains(Leaves(t)[i].rect, x, y) ==> Contains(t.rect, x, y)
  {
    LeavesTile(t, x, y);
    CoverIsOfLeaves(t, x, y);
    if Contains(Leaves(t)[i].rect, x, y) { CoverOfAtLeast(Leaves(t), i, x, y); }
  }

  /** No two leaves of a proper tree share a point. */
  lemma LeavesDisjoint(t: Tex, i: nat, j: nat, x: int, y: int)
    requires Proper(t) && i < j < |Leaves(t)|
    ensures !(Contains(Leaves(t)[i].rect, x, y) && Contains(Leaves(t)[j].rect, x, y))
    ensures Contains(Leaves(t)[i].rect, x, y) ==> Contains(t.rect, x, y)
  {
    LeafInside(t, i, x, y);
    LeavesTile(t, x, y);
    CoverIsOfLeaves(t, x, y);
    hide Proper, Leaves, Contains, Cover, CoverOf;
    if Contains(Leaves(t)[i].rect, x, y) && Contains(Leaves(t)[j].rect, x, y) {
      CoverOfTwo(Leaves(t), i, j, x, y);
    }
  }

  /** Every texture is one of the leaves. */
  lemma {:induction false} UsedIsLeaf(t: Tex, item: Item) returns (i: nat)
    requires item in Used(t)
    ensures i < |Leaves(t)| && Leaves(t)[i] == item && item.id != 0
  {
    match t
    case Leaf(_, _) => i := 0;
    case Split(_, k0, k1) =>
      if item in Used(k0) {
        i := UsedIsLeaf(k0, item);
      } else {
        i := UsedIsLeaf(k1, item);
        i := |Leaves(k0)| + i;
      }
  }

  /** Two textures of a proper tree share no point, and none leaves the rectangle. */
  lemma UsedApart(t: Tex, a: Item, b: Item, x: int, y: int)
    requires Proper(t) && a in Used(t) && b in Used(t) && a.id != b.id
    ensures !(Contains(a.rect, x, y) && Contains(b.rect, x, y))
    ensures Contains(a.rect, x, y) ==> Contains(t.rect, x, y)
  {
    hide Used, Proper, Leaves, Contains, Cover;
    var i := UsedIsLeaf(t, a);
    var j := UsedIsLeaf(t, b);
    LeafInside(t, i, x, y);
    if i < j { LeavesDisjoint(t, i, j, x, y); } else { LeavesDisjoint(t, j, i, x, y); }
  }
}
