/** Whole runs of calls on the quadratic-probing map, against a finite map. */
module QuadRuns {
  import opened Arithmetic
  import opened Common
  import opened QuadMap
  import opened QuadSlots
  import opened QuadTable
  import opened SinglePrecision

  datatype Call = PutCall(k: int, v: int) | GetCall(k: int) | RemoveCall(k: int) | ClearCall

  /** What a call does to a finite map; 0 is NULL. */
  function After(m: map<int, int>, c: Call): map<int, int> {
    match c
    case PutCall(k, v) => if k == 0 || v == 0 then m else m[k := v]
    case GetCall(_) => m
    case RemoveCall(k) => m - {k}
    case ClearCall => map[]
  }

  /** What it returns: the value that the key had before. */
  function Answer(m: map<int, int>, c: Call): int {
    match c
    case PutCall(k, v) => if k != 0 && v != 0 && k in m then m[k] else 0
    case GetCall(k) => if k in m then m[k] else 0
    case RemoveCall(k) => if k in m then m[k] else 0
    case ClearCall => 0
  }

  function AfterAll(m: map<int, int>, calls: seq<Call>): map<int, int>
    decreases |calls|
  {
    if calls == [] then m else AfterAll(After(m, calls[0]), calls[1..])
  }

  function Answers(m: map<int, int>, calls: seq<Call>): seq<int>
    decreases |calls|
  {
    if calls == [] then [] else [Answer(m, calls[0])] + Answers(After(m, calls[0]), calls[1..])
  }

  /** No put comes after a remove, unless the map was cleared in between. `removed` tells of a remove before. */
  predicate PutsFirst(calls: seq<Call>, removed: bool)
    decreases |calls|
  {
    if calls == [] then true
    else
      match calls[0]
      case PutCall(_, _) => !removed && PutsFirst(calls[1..], removed)
      case GetCall(_) => PutsFirst(calls[1..], removed)
      case RemoveCall(_) => PutsFirst(calls[1..], true)
      case ClearCall => PutsFirst(calls[1..], false)
  }

  predicate CallFits(hash: int -> nat, c: Call, size: nat) {
    c.ClearCall? || Fits(hash(c.k), size)
  }

  /** The keys that are bound and the keys of the calls fit a table of that size. */
  ghost predicate KeysFit(hash: int -> nat, m: map<int, int>, calls: seq<Call>, size: nat) {
    AllFit(hash, m, size) && forall c :: c in calls ==> CallFits(hash, c, size)
  }

  /** A size that a table does not pass in so many calls. */
  function LargestSize(size: nat, used: nat, calls: nat): nat {
    if size < 8 * (used + calls) then 8 * (used + calls) else size
  }

  lemma FitsSmaller(h: nat, size: nat, larger: nat)
    requires size <= larger && Fits(h, larger)
    ensures Fits(h, size) && size * size <= INT_MAX
  {
    OffsetGrows(size, larger);
  }

  lemma AllFitSmaller(hash: int -> nat, m: map<int, int>, size: nat, larger: nat)
    requires size <= larger && AllFit(hash, m, larger)
    ensures AllFit(hash, m, size)
  {
    forall k | k in m ensures Fits(hash(k), size) {
      FitsSmaller(hash(k), size, larger);
    }
  }

  /** A table grows when at least a quarter of its slots is used. */
  lemma GrowsFromQuarter(used: nat, size: nat)
    requires HalfUsed(used, size)
    ensures size <= 4 * used
  {
    AtMostTwice(used);
  }

  lemma PutRoom(hash: int -> nat, m: map<int, int>, used: nat, size: nat, k: int, v: int, largest: nat)
    requires AllFit(hash, m, largest) && Fits(hash(k), largest) && size <= largest && 8 * used <= largest
    ensures Fits(hash(k), size) && AllFit(hash, m[k := v], largest)
    ensures HalfUsed(used, size) ==> 2 * size <= largest && AllFit(hash, m[k := v], 2 * size)
  {
    hide Fits, HalfUsed;
    FitsSmaller(hash(k), size, largest);
    if HalfUsed(used, size) {
      GrowsFromQuarter(used, size);
      AllFitSmaller(hash, m[k := v], 2 * size, largest);
    }
  }

  /** One call. `landed` tells of a put that stops at a tombstone, `inside` is false if a probe leaves the table. */
  method Perform(q: Map, c: Call, ghost largest: nat) returns (answer: int, inside: bool, landed: bool)
    requires q.Valid()
    modifies q, q.arr
    ensures inside ==> q.arr == old(q.arr) || fresh(q.arr)
    ensures inside && !landed ==>
      && q.Valid()
      && Model(q.T()) == After(old(Model(q.T())), c) && answer == Answer(old(Model(q.T())), c)
    ensures landed ==> c.PutCall? && Tomb in old(q.T())
    ensures inside && (c.ClearCall? || (Tomb !in old(q.T()) && !c.RemoveCall?)) ==> Tomb !in q.T()
    ensures inside ==> q.slotsUsed <= old(q.slotsUsed) + 1
    ensures largest <= INT_MAX && old(q.arr.Length) <= largest && 8 * old(q.slotsUsed) <= largest
            && AllFit(q.hash, old(Model(q.T())), largest) && CallFits(q.hash, c, largest) ==>
      inside && q.arr.Length <= largest && AllFit(q.hash, After(old(Model(q.T())), c), largest)
  {
    hide Sound, Model, Fits, HalfUsed, AllFit;
    SoundUnique(q.hash, q.arr[..], q.n, q.count, q.slotsUsed);
    landed := false;
    ghost var roomy := largest <= INT_MAX && q.arr.Length <= largest && 8 * q.slotsUsed <= largest
                       && AllFit(q.hash, Model(q.T()), largest) && CallFits(q.hash, c, largest);
    match c
    case PutCall(k, v) =>
      if Tomb !in q.arr[..] { NoTombToLand(q.hash, q.arr[..], k); }
      if roomy { PutRoom(q.hash, Model(q.T()), q.slotsUsed, q.arr.Length, k, v, largest); }
      answer, inside, landed := q.Put(k, v);
    case GetCall(k) =>
      if roomy { FitsSmaller(q.hash(k), q.arr.Length, largest); }
      answer, inside := q.Get(k);
    case RemoveCall(k) =>
      if roomy { FitsSmaller(q.hash(k), q.arr.Length, largest); }
      FewerFit(q.hash, Model(q.T()), k, largest);
      var key;
      key, answer, inside := q.RemoveEntry(k);
    case ClearCall =>
      FewerFit(q.hash, map[], 0, largest);
      q.Clear();
      answer, inside := 0, true;
  }

  lemma FewerFit(hash: int -> nat, m: map<int, int>, k: int, size: nat)
    ensures AllFit(hash, m, size) ==> AllFit(hash, m - {k}, size)
    ensures AllFit(hash, map[], size)
  {
  }

  /**
   * A run of calls, up to one that leaves the table or lands on a tombstone. Every answer before that is the answer
   * of a finite map, and after a run to the end the table represents the finite map after all calls. No call leaves
   * the table if all keys fit the largest one that can come, and none lands on a tombstone if no put follows a
   * remove.
   */
  method Run(q: Map, calls: seq<Call>) returns (answers: seq<int>, inside: bool, landed: bool)
    requires q.Valid()
    modifies q, q.arr
    ensures answers <= Answers(old(Model(q.T())), calls)
    ensures inside && !landed ==>
      && q.Valid()
      && Model(q.T()) == AfterAll(old(Model(q.T())), calls) && answers == Answers(old(Model(q.T())), calls)
    ensures Tomb !in old(q.T()) && PutsFirst(calls, false) ==> !landed
    ensures var largest := LargestSize(old(q.arr.Length), old(q.slotsUsed), |calls|);
      largest <= INT_MAX && KeysFit(q.hash, old(Model(q.T())), calls, largest) ==> inside
  {
    SoundUnique(q.hash, q.arr[..], q.n, q.count, q.slotsUsed);
    hide Sound, Model, Unique, After, Answer, AllFit, CallFits, KeysFit, LargestSize;
    hide Shown, Answers, AfterAll, PutsFirst;
    ghost var m := Model(q.T());
    ghost var removed := Tomb in q.T();
    ghost var largest := LargestSize(q.arr.Length, q.slotsUsed, |calls|);
    ghost var roomy := largest <= INT_MAX && KeysFit(q.hash, m, calls, largest);
    var i := 0;
    answers, inside, landed := [], true, false;
    ShownFirst(q.hash, m, calls, q.arr.Length, q.slotsUsed);
    while i < |calls|
      invariant 0 <= i <= |calls| && inside && !landed
      invariant q.Valid() && Unique(q.T()) && (q.arr == old(q.arr) || fresh(q.arr))
      invariant Shown(Model(q.T()), calls[i..], m, calls, answers)
      invariant removed || Tomb !in q.T()
      invariant Tomb !in old(q.T()) && PutsFirst(calls, false) ==> PutsFirst(calls[i..], removed)
      invariant 8 * (q.slotsUsed + |calls| - i) <= largest
      invariant roomy ==> q.arr.Length <= largest && AllFit(q.hash, Model(q.T()), largest)
    {
      ShownNext(q.hash, Model(q.T()), calls, i, m, answers, removed, largest);
      var answer;
      answer, inside, landed := Perform(q, calls[i], largest);
      if !inside || landed {
        return;
      }
      SoundUnique(q.hash, q.arr[..], q.n, q.count, q.slotsUsed);
      answers := answers + [answer];
      removed := calls[i].RemoveCall? || (removed && !calls[i].ClearCall?);
      i := i + 1;
    }
    ShownLast(Model(q.T()), calls[i..], m, calls, answers);
  }

  /** The calls in `left` are still to come, on the map `now`, of a run that began with `m`. */
  predicate Shown(now: map<int, int>, left: seq<Call>, m: map<int, int>, calls: seq<Call>, answers: seq<int>) {
    AfterAll(now, left) == AfterAll(m, calls) && answers + Answers(now, left) == Answers(m, calls)
  }

  lemma ShownFirst(hash: int -> nat, m: map<int, int>, calls: seq<Call>, size: nat, used: nat)
    ensures calls[0..] == calls && Shown(m, calls, m, calls, [])
    ensures size <= LargestSize(size, used, |calls|) && 8 * (used + |calls|) <= LargestSize(size, used, |calls|)
    ensures forall largest :: KeysFit(hash, m, calls, largest) ==> AllFit(hash, m, largest)
  {
  }

  lemma ShownNext(hash: int -> nat, now: map<int, int>, calls: seq<Call>, i: nat, m: map<int, int>, answers: seq<int>,
                  removed: bool, largest: nat)
    requires i < |calls| && Shown(now, calls[i..], m, calls, answers)
    ensures answers <= Answers(m, calls)
    ensures Shown(After(now, calls[i]), calls[i + 1..], m, calls, answers + [Answer(now, calls[i])])
    ensures PutsFirst(calls[i..], removed) ==>
      && !(calls[i].PutCall? && removed)
      && PutsFirst(calls[i + 1..], calls[i].RemoveCall? || (removed && !calls[i].ClearCall?))
    ensures KeysFit(hash, m, calls, largest) ==> CallFits(hash, calls[i], largest)
  {
    hide Fits, AllFit;
    assert calls[i..][0] == calls[i] && calls[i..][1..] == calls[i + 1..];
    assert answers + Answers(now, calls[i..]) ==
           answers + [Answer(now, calls[i])] + Answers(After(now, calls[i]), calls[i + 1..]);
  }

  lemma ShownLast(now: map<int, int>, left: seq<Call>, m: map<int, int>, calls: seq<Call>, answers: seq<int>)
    requires left == [] && Shown(now, left, m, calls, answers)
    ensures now == AfterAll(m, calls) && answers == Answers(m, calls)
  {
  }

  /** The theorem for a new map. */
  method RunNew(hash: int -> nat, capacity: nat, ghost n: nat, calls: seq<Call>)
    returns (q: Map, answers: seq<int>, inside: bool, landed: bool)
    requires capacity == Pow2(n) && 1 <= n <= 30
    ensures fresh(q) && answers <= Answers(map[], calls)
    ensures inside && !landed ==>
      q.Valid() && Model(q.T()) == AfterAll(map[], calls) && answers == Answers(map[], calls)
    ensures PutsFirst(calls, false) ==> !landed
    ensures var largest := LargestSize(capacity, 0, |calls|);
      largest <= INT_MAX && KeysFit(hash, map[], calls, largest) ==> inside
  {
    q := new Map(hash, capacity, n);
    answers, inside, landed := Run(q, calls);
  }
}
