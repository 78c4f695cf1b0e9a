/** The binary heap of heap.c: an array sifted in place. */
module Heap {
  import opened HeapOrder

  class PriorityQueue {
    const cmp: Cmp
    var arr: array<int>
    var count: nat

    ghost predicate InBounds()
      reads this, arr
    {
      Consistent(cmp) && count <= arr.Length
    }

    ghost function Contents(): seq<int>
      requires InBounds()
      reads this, arr
    {
      arr[..count]
    }

    ghost predicate Valid()
      reads this, arr
    {
      InBounds() && Ordered(cmp, Contents())
    }

    ghost function Items(): multiset<int>
      requires InBounds()
      reads this, arr
    {
      multiset(Contents())
    }

    constructor (cmp: Cmp, size: nat)
      requires Consistent(cmp)
      ensures Valid() && fresh(arr) && this.cmp == cmp && arr.Length == size && Items() == multiset{}
    {
      this.cmp := cmp;
      arr := new int[size];
      count := 0;
    }

    method SwapItems(i: nat, j: nat)
      requires InBounds() && i < count && j < count
      modifies arr
      ensures Contents() == Swap(old(Contents()), i, j)
      ensures Items() == old(Items())
    {
      SwapKeeps(Contents(), i, j);
      var tmp := arr[i];
      arr[i] := arr[j];
      arr[j] := tmp;
    }

    method PushUp(start: nat)
      requires InBounds() && Rising(cmp, Contents(), start)
      modifies arr
      ensures Valid() && Items() == old(Items())
    {
      hide Rising, Ordered, Consistent, Swap;
      var idx := start;
      RisingInside(cmp, Contents(), idx);
      while 0 != idx
        invariant InBounds() && 0 <= idx < count && Rising(cmp, Contents(), idx) && Items() == old(Items())
      {
        var parent := (idx - 1) / 2;
        if cmp(arr[idx], arr[parent]) < 0 {
          break;
        }
        RiseStep(cmp, Contents(), idx);
        SwapItems(idx, parent);
        idx := parent;
      }
      RiseEnds(cmp, Contents(), idx);
    }

    /** The greater of the children of `idx`, or `idx` itself if it has none. */
    method GreatestChild(idx: nat) returns (child: nat)
      requires InBounds() && idx < count
      ensures child == idx ==> count <= 2 * idx + 1
      ensures child != idx ==> 0 < child < count && Parent(child) == idx
      ensures child != idx ==> forall d :: 0 < d < count && Parent(d) == idx ==> !Less(cmp, arr[child], arr[d])
    {
      var childl, childr := idx * 2 + 1, idx * 2 + 2;
      if childr >= count {
        if childl >= count { return idx; }
        child := childl;
      } else if cmp(arr[childl], arr[childr]) < 0 {
        child := childr;
      } else {
        child := childl;
      }
      assert forall d :: d > 0 && Parent(d) == idx ==> d == childl || d == childr;
    }

    method PushDown(start: nat)
      requires InBounds() && Sinking(cmp, Contents(), start)
      modifies arr
      ensures Valid() && Items() == old(Items())
    {
      var idx := start;
      while true
        invariant InBounds() && 0 <= idx && Sinking(cmp, Contents(), idx) && Items() == old(Items())
        decreases count - idx
      {
        var child := GreatestChild(idx);
        if child == idx || !(cmp(arr[idx], arr[child]) < 0) {
          break;
        }
        SinkStep(cmp, Contents(), idx, child);
        SwapItems(idx, child);
        idx := child;
      }
    }
  
    /** A full array is copied into one of twice its size. */
    method EnsureCapacity()
      requires Valid() && arr.Length > 0
      modifies this`arr
      ensures Valid() && Contents() == old(Contents()) && count < arr.Length
      ensures arr == old(arr) || (fresh(arr) && arr.Length == 2 * old(arr.Length))
    {
      if count < arr.Length { return; }
      var bigger := new int[2 * arr.Length];
      forall i | 0 <= i < count { bigger[i] := arr[i]; }
      assert bigger[..count] == arr[..count];
      arr := bigger;
    }

    method Add(item: int)
      requires Valid() && count < arr.Length
      modifies this`count, arr
      ensures Valid() && Items() == old(Items()) + multiset{item}
    {
      AppendRises(cmp, Contents(), item);
      arr[count] := item;
      assert arr[..count + 1] == old(arr[..count]) + [item];
      count := count + 1;
      PushUp(count - 1);
    }

    /** Adds the item unless the array is full. */
    method OfferX(item: int) returns (r: int)
      requires Valid()
      modifies this`count, arr
      ensures Valid()
      ensures r == if old(count) == arr.Length then -1 else 0
      ensures Items() == if r == 0 then old(Items()) + multiset{item} else old(Items())
    {
      if count == arr.Length { return -1; }
      Add(item);
      return 0;
    }

    /** Adds the item, growing the array if needed; doubling gives no room if there was none at all. */
    method Offer(item: int)
      requires Valid() && arr.Length > 0
      modifies this`count, this`arr, arr
      ensures Valid() && Items() == old(Items()) + multiset{item}
      ensures arr == old(arr) || (fresh(arr) && arr.Length == 2 * old(arr.Length))
    {
      EnsureCapacity();
      Add(item);
    }

    method MoveLast()
      requires InBounds() && count > 0
      modifies this`count, arr
      ensures InBounds() && count == old(count) - 1 && Contents() == Moved(old(Contents()))
    {
      arr[0] := arr[count - 1];
      count := count - 1;
    }

    /** Takes out the root: the last item takes its place and sinks. */
    method RemoveRoot()
      requires Valid() && count > 0
      modifies this`count, arr
      ensures Valid() && count == old(count) - 1 && Items() == old(Items()) - multiset{old(arr[0])}
    {
      hide Ordered, Consistent, Sinking, Moved;
      MovedItems(Contents());
      MovedOrder(cmp, Contents());
      MoveLast();
      if count > 1 { PushDown(0); }
    }

    /** Removes a greatest item; `found` is false on an empty heap. */
    method Poll() returns (item: int, found: bool)
      requires Valid()
      modifies this`count, arr
      ensures Valid()
      ensures found <==> old(count) > 0
      ensures !found ==> Items() == old(Items())
      ensures found ==> Items() == old(Items()) - multiset{item} && count == old(count) - 1
      ensures found ==> Greatest(cmp, item, old(Items()))
    {
      hide Ordered, Consistent, Greatest;
      if count == 0 { return 0, false; }
      item, found := arr[0], true;
      GreatestFirst(cmp, Contents());
      RemoveRoot();
    }

    method Peek() returns (item: int, found: bool)
      requires Valid()
      ensures found <==> Items() != multiset{}
      ensures found ==> Greatest(cmp, item, Items())
    {
      if count == 0 { return 0, false; }
      GreatestFirst(cmp, Contents());
      return arr[0], true;
    }

    /** Polling until the heap is empty gives its items in non-increasing order. */
    method PollAll() returns (out: seq<int>)
      requires Valid()
      modifies this`count, arr
      ensures Valid() && count == 0 && multiset(out) == old(Items())
      ensures Descending(cmp, out)
    {
      hide Ordered, Consistent, Greatest, Descending, Above;
      out := [];
      NothingOut(cmp, Items());
      while count > 0
        invariant Valid() && multiset(out) + Items() == old(Items())
        invariant Descending(cmp, out) && Above(cmp, out, Items())
        decreases count
      {
        ghost var was := Items();
        var item, _ := Poll();
        NextOut(cmp, out, was, item);
        out := out + [item];
      }
    }
  }

  ghost predicate Greatest(cmp: Cmp, item: int, items: multiset<int>) {
    item in items && forall x :: x in items ==> !Less(cmp, item, x)
  }

  ghost predicate Descending(cmp: Cmp, s: seq<int>) {
    forall i, j :: 0 <= i < j < |s| ==> !Less(cmp, s[i], s[j])
  }

  ghost predicate Above(cmp: Cmp, s: seq<int>, items: multiset<int>) {
    forall i, x :: 0 <= i < |s| && x in items ==> !Less(cmp, s[i], x)
  }

  lemma RisingInside(cmp: Cmp, s: seq<int>, k: nat)
    requires Rising(cmp, s, k)
    ensures k < |s|
  {
  }

  lemma NothingOut(cmp: Cmp, items: multiset<int>)
    ensures Descending(cmp, []) && Above(cmp, [], items)
  {
  }

  lemma NextOut(cmp: Cmp, s: seq<int>, items: multiset<int>, item: int)
    requires Descending(cmp, s) && Above(cmp, s, items) && Greatest(cmp, item, items)
    ensures Descending(cmp, s + [item]) && Above(cmp, s + [item], items - multiset{item})
    ensures multiset(s + [item]) + (items - multiset{item}) == multiset(s) + items
  {
  }

  lemma GreatestFirst(cmp: Cmp, s: seq<int>)
    requires Consistent(cmp) && Ordered(cmp, s) && s != []
    ensures Greatest(cmp, s[0], multiset(s))
  {
    forall x | x in multiset(s) ensures !Less(cmp, s[0], x) {
      assert x in s;
      var i :| 0 <= i < |s| && s[i] == x;
      RootIsGreatest(cmp, s, i);
    }
  }

  /** The last item in place of the first. */
  function Moved(s: seq<int>): seq<int>
    requires s != []
  {
    if |s| == 1 then [] else s[..|s| - 1][0 := s[|s| - 1]]
  }

  lemma MovedItems(s: seq<int>)
    requires s != []
    ensures multiset(Moved(s)) == multiset(s) - multiset{s[0]}
  {
    var n := |s| - 1;
    if n > 0 {
      assert s == [s[0]] + s[1..n] + [s[n]];
      assert Moved(s) == [s[n]] + s[1..n];
    } else {
      assert s == [s[0]];
    }
  }

  lemma MovedOrder(cmp: Cmp, s: seq<int>)
    requires Ordered(cmp, s) && s != []
    ensures |Moved(s)| == |s| - 1
    ensures if |s| <= 2 then Ordered(cmp, Moved(s)) else Sinking(cmp, Moved(s), 0)
  {
    if |s| > 1 { ReplaceRootSinks(cmp, s[..|s| - 1], s[|s| - 1]); }
  }
}
