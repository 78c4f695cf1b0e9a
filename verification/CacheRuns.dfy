/** Whole runs of calls on the pseudo-LRU cache, against a finite map. */
module CacheRuns {
  import opened NodeMemory
  import opened PseudoLru
  import opened SplayMap
  import opened SplayTree

  datatype Call = PutCall(key: int, value: int) | GetCall(key: int) | RemoveCall(key: int) | PopCall

  function Lookup(m: map<int, int>, key: int): int {
    if key in m then m[key] else NULL
  }

  /** A call that returns `answer` may lead from one finite map to the other. */
  ghost predicate Follows(m: map<int, int>, c: Call, answer: int, after: map<int, int>) {
    match c
    case PutCall(key, value) => after == if key in m then m else m[key := value]
    case GetCall(key) => answer == Lookup(m, key) && after == m
    case RemoveCall(key) => answer == Lookup(m, key) && after == if answer == NULL then m else m - {key}
    case PopCall => exists k :: k in m && answer == m[k] && after == if answer == NULL then m else m - {k}
  }

  lemma FreeAddress(used: set<nat>)
    ensures exists addr: nat :: addr != NULL && addr !in used
  {
    var bound := Bound(used);
    assert bound + 1 !in used;
  }

  lemma {:induction false} Bound(used: set<nat>) returns (b: nat)
    ensures forall n :: n in used ==> n <= b
  {
    if used == {} {
      b := 0;
    } else {
      var x :| x in used;
      b := Bound(used - {x});
      forall n | n in used ensures n <= if b < x then x else b {
        assert n == x || n in used - {x};
      }
      b := if b < x then x else b;
    }
  }

  /** One call; a new node gets any unused address. */
  method Perform(c: Cache, call: Call) returns (answer: int)
    requires c.Valid() && (call.PopCall? ==> c.root != NULL)
    modifies c
    ensures c.Valid() && Follows(old(Contents(c.tree)), call, answer, Contents(c.tree))
  {
    hide Cache.Valid, Contents;
    answer := NULL;
    match call
    case PutCall(key, value) =>
      FreeAddress(c.nodes.Keys);
      var addr: nat :| addr != NULL && addr !in c.nodes;
      c.Put(key, value, addr);
    case GetCall(key) => answer := c.Get(key);
    case RemoveCall(key) => answer := c.Remove(key);
    case PopCall => answer := c.PopLru();
  }

  /**
   * A run of calls on any cache, up to one that pops an empty cache. `maps` are the contents between the calls: each
   * call does to them, and returns, what it does on a finite map, and `count` is their size.
   */
  method Run(c: Cache, calls: seq<Call>) returns (answers: seq<int>, ghost maps: seq<map<int, int>>)
    requires c.Valid()
    modifies c
    ensures c.Valid() && |answers| <= |calls| && |maps| == |answers| + 1
    ensures maps[0] == old(Contents(c.tree)) && maps[|answers|] == Contents(c.tree) && c.count == |Contents(c.tree)|
    ensures forall i :: 0 <= i < |answers| ==> Follows(maps[i], calls[i], answers[i], maps[i + 1])
    ensures |answers| < |calls| ==> calls[|answers|] == PopCall && Contents(c.tree) == map[]
  {
    hide Cache.Valid, Contents, Follows;
    answers, maps := [], [Contents(c.tree)];
    var i := 0;
    while i < |calls|
      invariant 0 <= i <= |calls| && c.Valid() && |answers| == i && |maps| == i + 1
      invariant maps[0] == old(Contents(c.tree)) && maps[i] == Contents(c.tree)
      invariant forall j :: 0 <= j < i ==> Follows(maps[j], calls[j], answers[j], maps[j + 1])
    {
      if calls[i] == PopCall && c.root == NULL {
        EmptyContents(c);
        c.CountIsSize();
        return;
      }
      var answer := Perform(c, calls[i]);
      answers := answers + [answer];
      maps := maps + [Contents(c.tree)];
      i := i + 1;
    }
    c.CountIsSize();
  }

  lemma EmptyContents(c: Cache)
    requires c.Valid() && c.root == NULL
    ensures Contents(c.tree) == map[]
  {
    AddrNull(c.tree);
  }
}
