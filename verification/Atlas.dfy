/** The texture atlas object: nodes subdivided in place, textures found again by their id. */
module Atlas {
  import opened AtlasTree

  function Height(t: Tex): nat {
    match t
    case Leaf(_, _) => 0
    case Split(_, k0, k1) => 1 + if Height(k0) < Height(k1) then Height(k1) else Height(k0)
  }

  class Texture {
    const rect: Rect
    var id: int
    var kid0: Texture?
    var kid1: Texture?
    ghost var Repr: set<Texture>

    ghost predicate Valid()
      reads this, Repr
      decreases Repr
    {
      && this in Repr
      && (kid0 == null <==> kid1 == null)
      && (kid0 != null ==>
            && kid0 in Repr && kid1 in Repr
            && kid0.Repr <= Repr && kid1.Repr <= Repr
            && this !in kid0.Repr && this !in kid1.Repr && kid0.Repr !! kid1.Repr
            && kid0.Valid() && kid1.Valid())
    }

    /** The tree below this node. */
    ghost function View(): (t: Tex)
      requires Valid()
      reads this, Repr
      ensures t.rect == rect
      decreases Repr
    {
      if kid0 == null then Leaf(rect, id) else Split(rect, kid0.View(), kid1.View())
    }

    constructor (rect: Rect)
      ensures Valid() && fresh(Repr) && View() == Leaf(rect, 0)
      ensures Repr == {this} && id == 0 && kid0 == null && this.rect == rect
    {
      this.rect := rect;
      id, kid0, kid1 := 0, null, null;
      Repr := {this};
    }

    /** `__insert` */
    method Insert(w: int, h: int, newId: int) returns (r: Texture?)
      requires Valid()
      modifies Repr
      ensures Valid() && old(Repr) <= Repr && fresh(Repr - old(Repr))
      ensures Inserted(old(View()), View(), r, w, h, newId)
      ensures r != null ==> r in Repr && r.id == newId
      ensures forall q :: q in old(Repr) && q != r ==> q.id == old(q.id)
      ensures r in old(Repr) ==> old(r.id) == 0
      decreases Height(View()), if View().Leaf? then Misfit(rect, w, h) else 0, 2
    {
      if kid0 != null {
        r := InsertIntoKids(w, h, newId);
      } else {
        r := InsertIntoLeaf(w, h, newId);
      }
    }

    method InsertIntoKids(w: int, h: int, newId: int) returns (r: Texture?)
      requires Valid() && kid0 != null
      modifies Repr
      ensures Valid() && old(Repr) <= Repr && fresh(Repr - old(Repr))
      ensures Inserted(old(View()), View(), r, w, h, newId)
      ensures r != null ==> r in Repr && r.id == newId
      ensures forall q :: q in old(Repr) && q != r ==> q.id == old(q.id)
      ensures r in old(Repr) ==> old(r.id) == 0
      decreases Height(View()), 0, 1
    {
      hide AtlasTree.Insert;
      InsertSplit(rect, kid0.View(), kid1.View(), w, h, newId);
      r := kid0.Insert(w, h, newId);
      assert kid1.Valid() && kid1.View() == old(kid1.View());
      if r != null {
        Repr := Repr + kid0.Repr;
        return;
      }
      Repr := Repr + kid0.Repr;
      r := InsertIntoSecond(w, h, newId);
    }

    method InsertIntoSecond(w: int, h: int, newId: int) returns (r: Texture?)
      requires Valid() && kid0 != null && AtlasTree.Insert(kid0.View(), w, h, newId).NoRoom?
      modifies Repr
      ensures Valid() && old(Repr) <= Repr && fresh(Repr - old(Repr))
      ensures Inserted(old(View()), View(), r, w, h, newId)
      ensures r != null ==> r in Repr && r.id == newId
      ensures forall q :: q in old(Repr) && q != r ==> q.id == old(q.id)
      ensures r in old(Repr) ==> old(r.id) == 0
      decreases Height(View()), 0, 0
    {
      hide AtlasTree.Insert;
      InsertSplit(rect, kid0.View(), kid1.View(), w, h, newId);
      r := kid1.Insert(w, h, newId);
      assert kid0.Valid() && kid0.View() == old(kid0.View());
      Repr := Repr + kid1.Repr;
    }

    method InsertIntoLeaf(w: int, h: int, newId: int) returns (r: Texture?)
      requires Valid() && kid0 == null
      modifies Repr
      ensures Valid() && old(Repr) <= Repr && fresh(Repr - old(Repr))
      ensures Inserted(old(View()), View(), r, w, h, newId)
      ensures r != null ==> r in Repr && r.id == newId
      ensures forall q :: q in old(Repr) && q != r ==> q.id == old(q.id)
      ensures r in old(Repr) ==> old(r.id) == 0
      decreases Height(View()), Misfit(rect, w, h), 0
    {
      if rect.w == w && rect.h == h && id == 0 {
        id := newId;
        return this;
      } else if rect.w < w || rect.h < h || id != 0 {
        return null;
      }
      var (a, b) := Cut(rect, w, h);
      var first := new Texture(a);
      var second := new Texture(b);
      kid0, kid1 := first, second;
      LeafFits(rect, id, w, h, newId);
      r := first.Insert(w, h, newId);
      assert second.Valid() && second.View() == Leaf(b, 0);
      Repr := Repr + first.Repr + second.Repr;
    }
  }

  /** The outcome of an insertion, against the tree as a value. */
  ghost predicate Inserted(before: Tex, after: Tex, r: Texture?, w: int, h: int, id: int) {
    match AtlasTree.Insert(before, w, h, id)
    case NoRoom => r == null && after == before
    case Placed(t, place) => r != null && after == t && r.rect == place
  }

  lemma InsertSplit(rect: Rect, k0: Tex, k1: Tex, w: int, h: int, id: int)
    ensures AtlasTree.Insert(Split(rect, k0, k1), w, h, id) ==
            match AtlasTree.Insert(k0, w, h, id)
            case Placed(t, r) => Placed(Split(rect, t, k1), r)
            case NoRoom =>
              match AtlasTree.Insert(k1, w, h, id)
              case Placed(t, r) => Placed(Split(rect, k0, t), r)
              case NoRoom => NoRoom
  {
  }

  class Atlas {
    var root: Texture
    var textures: map<int, Texture>
    var ntextures: nat

    /** The ids given out are 1 to `ntextures`, and each of them leads to the leaf that carries it. */
    ghost predicate Valid()
      reads this, root, root.Repr
    {
      && root.Valid()
      && (forall i :: i in textures <==> 1 <= i <= ntextures)
      && (forall i :: i in textures ==> textures[i] in root.Repr && textures[i].id == i)
      && (forall i :: i in textures ==> Item(textures[i].rect, i) in Used(root.View()))
      && |Used(root.View())| == ntextures
    }

    /** No two textures share a point. */
    ghost predicate NoOverlap()
      reads this, textures.Values
    {
      forall i, j, x, y :: i in textures && j in textures && i != j ==>
        !(Contains(textures[i].rect, x, y) && Contains(textures[j].rect, x, y))
    }

    /** In a tiled atlas textures never overlap. */
    lemma TexturesApart()
      requires Valid() && Proper(root.View())
      ensures NoOverlap()
    {
      hide Used, Proper, Texture.Valid, Texture.View, Contains;
      forall i, j, x, y | i in textures && j in textures && i != j
        ensures !(Contains(textures[i].rect, x, y) && Contains(textures[j].rect, x, y))
      {
        UsedApart(root.View(), Item(textures[i].rect, i), Item(textures[j].rect, j), x, y);
      }
    }

    /** No texture reaches beyond the root. */
    ghost predicate AllInside()
      reads this, textures.Values
    {
      forall i, x, y :: i in textures && Contains(textures[i].rect, x, y) ==> Contains(root.rect, x, y)
    }

    lemma TexturesInside()
      requires Valid() && Proper(root.View())
      ensures AllInside()
    {
      hide Used, Proper, Texture.Valid, Contains, Leaves;
      forall i, x, y | i in textures && Contains(textures[i].rect, x, y) ensures Contains(root.rect, x, y) {
        var j := UsedIsLeaf(root.View(), Item(textures[i].rect, i));
        LeafInside(root.View(), j, x, y);
      }
    }

    constructor (width: int)
      ensures Valid() && fresh(root) && fresh(root.Repr) && textures == map[] && ntextures == 0
      ensures root.View() == Leaf(Rect(0, 0, width, width), 0)
      ensures 0 < width ==> Proper(root.View())
    {
      root := new Texture(Rect(0, 0, width, width));
      textures, ntextures := map[], 0;
    }

    /** `ren_texture_atlas_push_pixels`: 0, with nothing changed, exactly when no free leaf is large
        enough; otherwise the next id, for a texture in the corner of the first such leaf, with the
        margins free and every other leaf as it was. */
    method PushPixels(w: int, h: int) returns (id: int)
      requires Valid()
      modifies this, root, root.Repr
      ensures Valid() && root == old(root) && old(root.Repr) <= root.Repr && fresh(root.Repr - old(root.Repr))
      ensures id == 0 <==> !HasRoom(old(root.View()), w, h)
      ensures id == 0 ==> root.View() == old(root.View()) && textures == old(textures)
      ensures id != 0 ==>
                && id == old(ntextures) + 1 && id in textures && textures == old(textures)[id := textures[id]]
                && textures[id].rect.w == w && textures[id].rect.h == h
                && Used(root.View()) == Used(old(root.View())) + multiset{Item(textures[id].rect, id)}
      ensures id != 0 ==>
        exists i :: CarvedAt(Leaves(old(root.View())), Leaves(root.View()), i, w, h, id, textures[id].rect)
      ensures old(Proper(root.View())) ==> (Proper(root.View()) <==> id == 0 || (0 < w && 0 < h))
      ensures Proper(root.View()) ==> NoOverlap()
    {
      hide AtlasTree.Insert, Used, Proper, HasRoom, Leaves, CarvedAt, NoOverlap, Texture.Valid, Texture.View;
      id := ntextures + 1;
      ghost var t := root.View();
      InsertPlaces(t, w, h, id);
      if HasRoom(t, w, h) { ghost var i := InsertCarves(t, w, h, id); }
      if Proper(t) && HasRoom(t, w, h) { InsertKeepsTiling(t, w, h, id); }
      var tex := root.Insert(w, h, id);
      if tex == null {
        if Proper(root.View()) { TexturesApart(); }
        return 0;
      }
      forall i | i in textures
        ensures textures[i] in root.Repr && textures[i].id == i && Item(textures[i].rect, i) in Used(root.View())
      {
        assert textures[i] in old(root.Repr) && old(textures[i].id) == i && i != 0;
        assert textures[i] != tex;
      }
      OneMore(Used(t), Item(tex.rect, id));
      Register(tex, id);
      if Proper(root.View()) { TexturesApart(); }
    }

    /** Remember the leaf of a new texture under its id. */
    method Register(tex: Texture, id: int)
      requires root.Valid() && id == ntextures + 1 && tex in root.Repr && tex.id == id
      requires forall i :: i in textures <==> 1 <= i <= ntextures
      requires forall i :: i in textures ==>
                 textures[i] in root.Repr && textures[i].id == i && Item(textures[i].rect, i) in Used(root.View())
      requires Item(tex.rect, id) in Used(root.View()) && |Used(root.View())| == id
      modifies this`textures, this`ntextures
      ensures Valid() && textures == old(textures)[id := tex] && root.View() == old(root.View())
    {
      hide Used, Texture.Valid, Texture.View;
      textures := textures[id := tex];
      ntextures := ntextures + 1;
    }
  }

  lemma OneMore(s: multiset<Item>, x: Item)
    ensures |s + multiset{x}| == |s| + 1 && x in s + multiset{x}
  {
  }

  /** The texture was carved out of the first free leaf that holds it. */
  ghost predicate Took(before: Tex, after: Tex, w: int, h: int, id: int) {
    exists i, place :: CarvedAt(Leaves(before), Leaves(after), i, w, h, id, place)
  }

  /** What the pushes of a run returned: `trees` are the trees between them. A push is refused exactly when the
      tree before it has no free leaf of its size, and then changes nothing. The ids given out increase. */
  ghost predicate Trail(sizes: seq<(int, int)>, ids: seq<int>, trees: seq<Tex>) {
    && |ids| == |sizes| && |trees| == |sizes| + 1
    && (forall i :: 0 <= i < |ids| ==> (ids[i] == 0 <==> !HasRoom(trees[i], sizes[i].0, sizes[i].1)))
    && (forall i :: 0 <= i < |ids| && ids[i] == 0 ==> trees[i + 1] == trees[i])
    && (forall i :: 0 <= i < |ids| && ids[i] != 0 ==> Took(trees[i], trees[i + 1], sizes[i].0, sizes[i].1, ids[i]))
    && (forall i, j :: 0 <= i < j < |ids| && ids[i] != 0 && ids[j] != 0 ==> ids[i] < ids[j])
  }

  /** Each id leads to a texture of the size that was pushed. */
  ghost predicate Kept(sizes: seq<(int, int)>, ids: seq<int>, textures: map<int, Texture>) {
    && |ids| == |sizes|
    && forall i :: 0 <= i < |ids| && ids[i] != 0 ==>
         ids[i] in textures && (textures[ids[i]].rect.w, textures[ids[i]].rect.h) == sizes[i]
  }

  lemma TrailMore(sizes: seq<(int, int)>, i: nat, ids: seq<int>, trees: seq<Tex>, textures: map<int, Texture>,
                  id: int, after: Tex, more: map<int, Texture>, given: nat)
    requires i < |sizes| && Trail(sizes[..i], ids, trees) && Kept(sizes[..i], ids, textures)
    requires forall k :: k in textures ==> k <= given
    requires id == 0 <==> !HasRoom(trees[i], sizes[i].0, sizes[i].1)
    requires id == 0 ==> after == trees[i] && more == textures
    requires id != 0 ==> id == given + 1 && id in more && more == textures[id := more[id]]
    requires id != 0 ==> (more[id].rect.w, more[id].rect.h) == sizes[i]
    requires id != 0 ==> Took(trees[i], after, sizes[i].0, sizes[i].1, id)
    ensures Trail(sizes[..i + 1], ids + [id], trees + [after]) && Kept(sizes[..i + 1], ids + [id], more)
  {
    hide HasRoom, Took;
  }

  /** A run of pushes on a new atlas. Textures of positive size lie apart and inside the square. */
  method PushAll(width: int, sizes: seq<(int, int)>) returns (a: Atlas, ids: seq<int>, ghost trees: seq<Tex>)
    ensures fresh(a) && a.Valid()
    ensures Trail(sizes, ids, trees) && Kept(sizes, ids, a.textures)
    ensures trees[0] == Leaf(Rect(0, 0, width, width), 0) && trees[|sizes|] == a.root.View()
    ensures 0 < width && (forall p :: p in sizes ==> 0 < p.0 && 0 < p.1) ==> a.NoOverlap() && a.AllInside()
  {
    hide Used, Proper, HasRoom, Texture.Valid, Texture.View, Contains, Trail, Kept, CarvedAt, Leaves;
    a := new Atlas(width);
    ghost var positive := 0 < width && forall p :: p in sizes ==> 0 < p.0 && 0 < p.1;
    ids, trees := [], [a.root.View()];
    TrailStart(sizes, a.root.View());
    var i := 0;
    while i < |sizes|
      invariant 0 <= i <= |sizes| && |trees| == i + 1
      invariant fresh(a) && fresh(a.root) && fresh(a.root.Repr) && a.Valid()
      invariant Trail(sizes[..i], ids, trees) && Kept(sizes[..i], ids, a.textures)
      invariant trees[0] == Leaf(Rect(0, 0, width, width), 0) && trees[i] == a.root.View()
      invariant positive ==> Proper(a.root.View())
    {
      assert sizes[i] in sizes;
      ghost var was, given := a.textures, a.ntextures;
      var id := a.PushPixels(sizes[i].0, sizes[i].1);
      TrailMore(sizes, i, ids, trees, was, id, a.root.View(), a.textures, given);
      ids := ids + [id];
      trees := trees + [a.root.View()];
      i := i + 1;
    }
    assert sizes[..i] == sizes;
    if positive {
      a.TexturesApart();
      a.TexturesInside();
    }
  }

  lemma TrailStart(sizes: seq<(int, int)>, t: Tex)
    ensures Trail(sizes[..0], [], [t]) && Kept(sizes[..0], [], map[])
  {
  }
}
