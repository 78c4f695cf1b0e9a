/** Lists of byte ranges and the sets they stand for (chunkybar.c). */
module ChunkList {
  datatype Chunk = Chunk(offset: nat, len: nat) {
    function End(): nat {
      offset + len
    }
  }

  predicate Holds(c: Chunk, x: nat) {
    c.offset <= x < c.End()
  }

  function Range(c: Chunk): (r: set<nat>)
    ensures forall x: nat :: x in r <==> c.offset <= x < c.End()
  {
    set x: nat | x < c.End() && Holds(c, x)
  }

  function Covered(cs: seq<Chunk>): set<nat> {
    if cs == [] then {} else Range(cs[0]) + Covered(cs[1..])
  }

  /** Sorted, without empty chunks, and with a gap between any two. */
  predicate Proper(cs: seq<Chunk>) {
    && (forall i :: 0 <= i < |cs| ==> cs[i].len > 0)
    && (forall i, j :: 0 <= i < j < |cs| ==> cs[i].End() < cs[j].offset)
  }

  lemma {:induction false} CoveredConcat(a: seq<Chunk>, b: seq<Chunk>)
    ensures Covered(a + b) == Covered(a) + Covered(b)
    decreases |a|
  {
    if a == [] {
      assert a + b == b;
    } else {
      assert (a + b)[1..] == a[1..] + b;
      CoveredConcat(a[1..], b);
    }
  }

  lemma CoveredHead(c: Chunk, cs: seq<Chunk>)
    ensures Covered([c] + cs) == Range(c) + Covered(cs)
  {
    assert ([c] + cs)[1..] == cs;
  }

  /** A position is covered exactly if some chunk holds it. */
  lemma {:induction false} CoveredBy(cs: seq<Chunk>, x: nat)
    ensures x in Covered(cs) <==> exists i :: 0 <= i < |cs| && x in Range(cs[i])
    decreases |cs|
  {
    if cs != [] {
      CoveredBy(cs[1..], x);
      if x in Covered(cs[1..]) {
        var i :| 0 <= i < |cs[1..]| && x in Range(cs[1..][i]);
        assert x in Range(cs[i + 1]);
      }
      if i :| 0 <= i < |cs| && x in Range(cs[i]) {
        if i > 0 { assert x in Range(cs[1..][i - 1]); }
      }
    }
  }

  // ---------------------------------------------------------------------------------
  // Marking complete

  /** The smallest chunk that starts with `p` and ends no earlier than `c`. */
  function Extended(p: Chunk, c: Chunk): Chunk
    requires p.offset <= c.offset
  {
    if c.End() <= p.End() then p else Chunk(p.offset, c.End() - p.offset)
  }

  predicate Ascending(p: Chunk, cs: seq<Chunk>) {
    forall i :: 0 <= i < |cs| ==> p.offset < cs[i].offset
  }

  /** `p` takes in the chunks that follow for as long as it reaches them. */
  function Feast(p: Chunk, cs: seq<Chunk>): (r: seq<Chunk>)
    requires Ascending(p, cs)
    ensures r != [] && r[0].offset == p.offset
    decreases |cs|
  {
    if cs == [] || p.End() < cs[0].offset then [p] + cs
    else Feast(Extended(p, cs[0]), cs[1..])
  }

  lemma ExtendedCovers(p: Chunk, c: Chunk)
    requires p.offset <= c.offset <= p.End()
    ensures Range(Extended(p, c)) == Range(p) + Range(c)
  {
    var e := Extended(p, c);
    assert forall x: nat :: Holds(e, x) <==> Holds(p, x) || Holds(c, x);
  }

  lemma {:induction false} FeastCovers(p: Chunk, cs: seq<Chunk>)
    requires Ascending(p, cs)
    ensures Covered(Feast(p, cs)) == Range(p) + Covered(cs)
    decreases |cs|
  {
    if cs == [] || p.End() < cs[0].offset {
      CoveredHead(p, cs);
    } else {
      ExtendedCovers(p, cs[0]);
      FeastCovers(Extended(p, cs[0]), cs[1..]);
    }
  }

  lemma {:induction false} FeastProper(p: Chunk, cs: seq<Chunk>)
    requires Ascending(p, cs) && Proper(cs)
    ensures Proper(Feast(p, cs)) <==> p.len > 0 || (cs != [] && cs[0].offset <= p.End())
    ensures forall i :: 0 <= i < |Feast(p, cs)| ==> p.offset <= Feast(p, cs)[i].offset
    decreases |cs|
  {
    if cs == [] || p.End() < cs[0].offset {
      assert ([p] + cs)[0] == p;
      if p.len > 0 { ConsProper(p, cs); }
    } else {
      FeastProper(Extended(p, cs[0]), cs[1..]);
    }
  }

  lemma ConsProper(p: Chunk, cs: seq<Chunk>)
    requires Proper(cs) && p.len > 0 && forall i :: 0 <= i < |cs| ==> p.End() < cs[i].offset
    ensures Proper([p] + cs)
  {
    var r := [p] + cs;
    forall i, j | 0 <= i < j < |r| ensures r[i].End() < r[j].offset {
      if i > 0 { assert r[i] == cs[i - 1] && r[j] == cs[j - 1]; }
    }
  }

  /** `chunky_mark_complete` */
  function Mark(cs: seq<Chunk>, c: Chunk): (r: seq<Chunk>)
    requires Proper(cs)
    decreases |cs|
  {
    if cs == [] then [c]
    else if c.offset < cs[0].offset then Feast(c, cs)
    else if |cs| > 1 && cs[1].offset <= c.offset then [cs[0]] + Mark(cs[1..], c)
    else if c.offset <= cs[0].End() then Feast(Extended(cs[0], c), cs[1..])
    else [cs[0]] + Feast(c, cs[1..])
  }

  /** Some chunk holds the position or ends at it. */
  predicate Touches(cs: seq<Chunk>, x: nat) {
    exists i :: 0 <= i < |cs| && cs[i].offset <= x <= cs[i].End()
  }

  /** Marking a range complete adds exactly its positions. */
  lemma {:induction false} MarkCovers(cs: seq<Chunk>, c: Chunk)
    requires Proper(cs)
    ensures Covered(Mark(cs, c)) == Covered(cs) + Range(c)
    decreases |cs|
  {
    if cs == [] {
      CoveredHead(c, []);
      assert [c] + [] == [c];
    } else if c.offset < cs[0].offset {
      FeastCovers(c, cs);
    } else if |cs| > 1 && cs[1].offset <= c.offset {
      MarkCovers(cs[1..], c);
      CoveredHead(cs[0], Mark(cs[1..], c));
    } else if c.offset <= cs[0].End() {
      ExtendedCovers(cs[0], c);
      FeastCovers(Extended(cs[0], c), cs[1..]);
    } else {
      FeastCovers(c, cs[1..]);
      CoveredHead(cs[0], Feast(c, cs[1..]));
    }
  }

  lemma {:induction false} MarkStarts(cs: seq<Chunk>, c: Chunk, i: nat)
    requires Proper(cs) && cs != [] && cs[0].offset <= c.offset && i < |Mark(cs, c)|
    ensures cs[0].offset <= Mark(cs, c)[i].offset
    decreases |cs|
  {
    if |cs| > 1 && cs[1].offset <= c.offset {
      if i > 0 { MarkStarts(cs[1..], c, i - 1); }
    } else if c.offset <= cs[0].End() {
      FeastProper(Extended(cs[0], c), cs[1..]);
    } else {
      FeastProper(c, cs[1..]);
    }
  }

  /** The list stays proper, unless an empty range is marked away from every chunk. */
  lemma {:induction false} MarkProper(cs: seq<Chunk>, c: Chunk)
    requires Proper(cs)
    ensures Proper(Mark(cs, c)) <==> c.len > 0 || Touches(cs, c.offset)
    decreases |cs|
  {
    if cs == [] {
      assert [c][0] == c;
    } else if c.offset < cs[0].offset {
      FeastProper(c, cs);
    } else if |cs| > 1 && cs[1].offset <= c.offset {
      MarkProper(cs[1..], c);
      TouchesTail(cs, c.offset);
      var rest := Mark(cs[1..], c);
      forall i | 0 <= i < |rest| ensures cs[0].End() < rest[i].offset { MarkStarts(cs[1..], c, i); }
      ProperTail(cs[0], rest);
    } else {
      MarkFirst(cs, c);
    }
  }

  lemma MarkFirst(cs: seq<Chunk>, c: Chunk)
    requires Proper(cs) && cs != [] && cs[0].offset <= c.offset && (|cs| == 1 || c.offset < cs[1].offset)
    ensures Proper(Mark(cs, c)) <==> c.len > 0 || Touches(cs, c.offset)
  {
    if c.offset <= cs[0].End() {
      FeastProper(Extended(cs[0], c), cs[1..]);
    } else {
      FeastProper(c, cs[1..]);
      ProperTail(cs[0], Feast(c, cs[1..]));
    }
  }

  lemma TouchesTail(cs: seq<Chunk>, x: nat)
    requires Proper(cs) && |cs| > 1 && cs[1].offset <= x
    ensures Touches(cs[1..], x) <==> Touches(cs, x)
  {
    if i :| 0 <= i < |cs| && cs[i].offset <= x <= cs[i].End() {
      assert i > 0 && cs[1..][i - 1] == cs[i];
    }
    if i :| 0 <= i < |cs[1..]| && cs[1..][i].offset <= x <= cs[1..][i].End() {
      assert cs[i + 1] == cs[1..][i];
    }
  }

  lemma ProperTail(p: Chunk, cs: seq<Chunk>)
    requires p.len > 0 && forall i :: 0 <= i < |cs| ==> p.End() < cs[i].offset
    ensures Proper([p] + cs) <==> Proper(cs)
  {
    var r := [p] + cs;
    assert r[1..] == cs;
    if Proper(cs) { ConsProper(p, cs); }
    if Proper(r) {
      forall i, j | 0 <= i < j < |cs| ensures cs[i].End() < cs[j].offset {
        assert r[i + 1] == cs[i] && r[j + 1] == cs[j];
      }
      forall i | 0 <= i < |cs| ensures cs[i].len > 0 { assert r[i + 1] == cs[i]; }
    }
  }

  // ---------------------------------------------------------------------------------
  // Marking incomplete

  predicate Swallows(c: Chunk, t: Chunk) {
    c.offset <= t.offset && t.End() <= c.End()
  }

  /** What is left of one chunk. */
  function Cut(t: Chunk, c: Chunk): seq<Chunk> {
    if Swallows(c, t) then []
    else if t.offset < c.offset && c.End() < t.End() then
      [Chunk(t.offset, c.offset - t.offset), Chunk(c.End(), t.End() - c.End())]
    else if t.offset < c.End() && c.End() < t.End() then [Chunk(c.End(), t.End() - c.End())]
    else if t.offset < c.offset < t.End() && t.End() <= c.End() then [Chunk(t.offset, c.offset - t.offset)]
    else [t]
  }

  function CutAll(cs: seq<Chunk>, c: Chunk): seq<Chunk> {
    if cs == [] then [] else Cut(cs[0], c) + CutAll(cs[1..], c)
  }

  /** After swallowing the first chunk, the one that takes its place is not looked at. */
  function Unmark(cs: seq<Chunk>, c: Chunk): seq<Chunk> {
    if cs == [] then []
    else if !Swallows(c, cs[0]) then CutAll(cs, c)
    else if |cs| == 1 then []
    else [cs[1]] + CutAll(cs[2..], c)
  }

  lemma CutCovers(t: Chunk, c: Chunk)
    ensures Covered(Cut(t, c)) == Range(t) - Range(c)
  {
    CoveredHead(t, []);
    if t.offset <= c.offset {
      var left := Chunk(t.offset, c.offset - t.offset);
      CoveredHead(left, []);
      assert [left] + [] == [left];
    }
    if c.End() <= t.End() {
      var right := Chunk(c.End(), t.End() - c.End());
      CoveredHead(right, []);
      assert [right] + [] == [right];
      if t.offset <= c.offset { CoveredHead(Chunk(t.offset, c.offset - t.offset), [right]); }
    }
    assert [t] + [] == [t];
  }

  lemma {:induction false} CutAllCovers(cs: seq<Chunk>, c: Chunk)
    ensures Covered(CutAll(cs, c)) == Covered(cs) - Range(c)
    decreases |cs|
  {
    hide Cut, Range;
    if cs != [] {
      CutCovers(cs[0], c);
      CutAllCovers(cs[1..], c);
      CoveredConcat(Cut(cs[0], c), CutAll(cs[1..], c));
    }
  }

  /** The range swallows the first chunk and reaches into the second. */
  predicate Misses(cs: seq<Chunk>, c: Chunk) {
    |cs| > 1 && Swallows(c, cs[0]) && cs[1].offset < c.End()
  }

  lemma UnmarkTail(cs: seq<Chunk>, c: Chunk)
    requires |cs| > 1 && Swallows(c, cs[0])
    ensures Covered(Unmark(cs, c)) == (Covered(cs) - Range(c)) + Range(cs[1])
  {
    hide Cut;
    CutAllCovers(cs[2..], c);
    CoveredHead(cs[1], CutAll(cs[2..], c));
    assert cs[1..][1..] == cs[2..];
    assert Covered(cs) == Range(cs[0]) + (Range(cs[1]) + Covered(cs[2..]));
    assert Range(cs[0]) <= Range(c);
  }

  /**
   * Marking a range incomplete removes exactly its positions, if and only if it does not reach
   * past a swallowed first chunk into the second. Then the whole second chunk is left.
   */
  lemma UnmarkCovers(cs: seq<Chunk>, c: Chunk)
    requires Proper(cs)
    ensures Covered(Unmark(cs, c)) == (Covered(cs) - Range(c)) + if Misses(cs, c) then Range(cs[1]) else {}
    ensures Covered(Unmark(cs, c)) == Covered(cs) - Range(c) <==> !Misses(cs, c)
  {
    hide Cut, CutAll;
    if cs == [] {
    } else if !Swallows(c, cs[0]) {
      CutAllCovers(cs, c);
    } else if |cs| == 1 {
      assert cs[1..] == [];
    } else {
      UnmarkTail(cs, c);
      SecondChunk(cs, c);
    }
  }

  /** Of the chunks [0, 1) and [2, 3), marking [0, 3) incomplete leaves the second. */
  lemma SecondChunkStays()
    ensures var cs, c := [Chunk(0, 1), Chunk(2, 1)], Chunk(0, 3);
      && Proper(cs) && Unmark(cs, c) == [Chunk(2, 1)]
      && Covered(Unmark(cs, c)) != Covered(cs) - Range(c)
  {
    var cs, c := [Chunk(0, 1), Chunk(2, 1)], Chunk(0, 3);
    assert cs[2..] == [];
    UnmarkCovers(cs, c);
  }

  lemma SecondChunk(cs: seq<Chunk>, c: Chunk)
    requires Proper(cs) && |cs| > 1 && Swallows(c, cs[0])
    ensures Misses(cs, c) ==> cs[1].offset in Range(cs[1]) && cs[1].offset in Range(c)
    ensures !Misses(cs, c) ==> Range(cs[1]) <= Covered(cs) - Range(c)
  {
    assert cs[0].End() < cs[1].offset && cs[1].len > 0;
    if !Misses(cs, c) {
      forall x | x in Range(cs[1]) ensures x in Covered(cs) && x !in Range(c) { CoveredBy(cs, x); }
    }
  }

  /** The position is strictly inside some chunk. */
  predicate Inside(cs: seq<Chunk>, x: nat) {
    exists i :: 0 <= i < |cs| && cs[i].offset < x < cs[i].End()
  }

  predicate Within(cs: seq<Chunk>, lo: nat, hi: nat) {
    forall i :: 0 <= i < |cs| ==> lo <= cs[i].offset && cs[i].End() <= hi
  }

  predicate StartFrom(cs: seq<Chunk>, lo: nat) {
    forall i :: 0 <= i < |cs| ==> lo <= cs[i].offset
  }

  lemma ProperConcat(a: seq<Chunk>, b: seq<Chunk>, lo: nat, hi: nat)
    requires Within(a, lo, hi) && StartFrom(b, hi + 1)
    ensures Proper(a + b) <==> Proper(a) && Proper(b)
  {
    var r := a + b;
    if Proper(r) {
      assert forall i :: 0 <= i < |a| ==> a[i] == r[i];
      assert forall i :: 0 <= i < |b| ==> b[i] == r[|a| + i];
    }
  }

  lemma CutShape(t: Chunk, c: Chunk)
    requires t.len > 0
    ensures Within(Cut(t, c), t.offset, t.End())
    ensures Proper(Cut(t, c)) <==> c.len > 0 || !(t.offset < c.offset < t.End())
  {
    var r := Cut(t, c);
    if c.len == 0 && t.offset < c.offset < t.End() {
      assert r[0].End() == r[1].offset;
    }
  }

  lemma {:induction false} CutAllStarts(cs: seq<Chunk>, c: Chunk, lo: nat)
    requires Proper(cs) && StartFrom(cs, lo)
    ensures StartFrom(CutAll(cs, c), lo)
    decreases |cs|
  {
    hide Cut;
    if cs != [] {
      CutShape(cs[0], c);
      CutAllStarts(cs[1..], c, lo);
    }
  }

  lemma {:induction false} CutAllProper(cs: seq<Chunk>, c: Chunk)
    requires Proper(cs)
    ensures Proper(CutAll(cs, c)) <==> c.len > 0 || !Inside(cs, c.offset)
    decreases |cs|
  {
    hide Cut;
    if cs != [] {
      var t, rest := cs[0], cs[1..];
      CutShape(t, c);
      CutAllStarts(rest, c, t.End() + 1);
      CutAllProper(rest, c);
      ProperConcat(Cut(t, c), CutAll(rest, c), t.offset, t.End());
      InsideTail(cs, c.offset);
    }
  }

  lemma InsideTail(cs: seq<Chunk>, x: nat)
    requires cs != []
    ensures Inside(cs, x) <==> cs[0].offset < x < cs[0].End() || Inside(cs[1..], x)
  {
    if i :| 0 <= i < |cs| && cs[i].offset < x < cs[i].End() {
      if i > 0 { assert cs[1..][i - 1] == cs[i]; }
    }
    if i :| 0 <= i < |cs[1..]| && cs[1..][i].offset < x < cs[1..][i].End() {
      assert cs[i + 1] == cs[1..][i];
    }
  }

  /** The list stays proper, unless an empty range is unmarked strictly inside a chunk, which splits it. */
  lemma UnmarkProper(cs: seq<Chunk>, c: Chunk)
    requires Proper(cs)
    ensures Proper(Unmark(cs, c)) <==> c.len > 0 || !Inside(cs, c.offset)
  {
    hide Cut;
    if cs != [] {
      if !Swallows(c, cs[0]) {
        CutAllProper(cs, c);
      } else if |cs| > 1 {
        assert c.len > 0;
        CutAllProper(cs[2..], c);
        CutAllStarts(cs[2..], c, cs[1].End() + 1);
        ConsProper(cs[1], CutAll(cs[2..], c));
      }
    }
  }

  // ---------------------------------------------------------------------------------
  // Questions about the set

  function Total(cs: seq<Chunk>): nat {
    if cs == [] then 0 else cs[0].len + Total(cs[1..])
  }

  lemma {:induction false} RangeSize(c: Chunk)
    ensures |Range(c)| == c.len
    decreases c.len
  {
    if c.len == 0 {
      assert Range(c) == {};
    } else {
      var d := Chunk(c.offset, c.len - 1);
      RangeSize(d);
      assert Range(c) == Range(d) + {d.End()};
    }
  }

  /** The lengths add up to the number of positions covered. */
  lemma {:induction false} TotalIsSize(cs: seq<Chunk>)
    requires Proper(cs)
    ensures Total(cs) == |Covered(cs)|
    decreases |cs|
  {
    if cs != [] {
      TotalIsSize(cs[1..]);
      RangeSize(cs[0]);
      forall x | x in Covered(cs[1..]) ensures x !in Range(cs[0]) {
        CoveredBy(cs[1..], x);
      }
    }
  }

  /** A non-empty range is covered exactly if one chunk holds all of it. */
  lemma RangeInOneChunk(cs: seq<Chunk>, c: Chunk)
    requires Proper(cs) && c.len > 0
    ensures Range(c) <= Covered(cs) <==> exists i :: 0 <= i < |cs| && Swallows(cs[i], c)
  {
    if Range(c) <= Covered(cs) {
      assert c.offset in Range(c);
      CoveredBy(cs, c.offset);
      var i :| 0 <= i < |cs| && c.offset in Range(cs[i]);
      if cs[i].End() < c.End() {
        assert cs[i].End() in Range(c);
        CoveredBy(cs, cs[i].End());
      }
      assert Swallows(cs[i], c);
    }
    if i :| 0 <= i < |cs| && Swallows(cs[i], c) {
      forall x | x in Range(c) ensures x in Covered(cs) {
        assert x in Range(cs[i]);
        CoveredBy(cs, x);
      }
    }
  }

  /** One chunk of length `max` means that the set is a single run of `max` positions, and conversely. */
  lemma SingleRun(cs: seq<Chunk>, max: nat)
    requires Proper(cs)
    ensures |cs| == 1 && cs[0].len == max <==> max > 0 && exists o: nat :: Covered(cs) == Range(Chunk(o, max))
  {
    if |cs| == 1 && cs[0].len == max {
      assert cs[1..] == [];
      assert cs[0] == Chunk(cs[0].offset, max);
      assert Covered(cs) == Range(Chunk(cs[0].offset, max));
    }
    if o: nat :| max > 0 && Covered(cs) == Range(Chunk(o, max)) {
      RunIsOneChunk(cs, Chunk(o, max));
    }
  }

  lemma RunIsOneChunk(cs: seq<Chunk>, c: Chunk)
    requires Proper(cs) && c.len > 0 && Covered(cs) == Range(c)
    ensures cs == [c]
  {
    RangeInOneChunk(cs, c);
    var i :| 0 <= i < |cs| && Swallows(cs[i], c);
    forall j | 0 <= j < |cs| ensures Swallows(c, cs[j]) { ChunkCovered(cs, j, c); }
    OnlyOne(cs, i, c);
  }

  lemma OnlyOne(cs: seq<Chunk>, i: nat, c: Chunk)
    requires Proper(cs) && i < |cs| && Swallows(cs[i], c)
    requires forall j :: 0 <= j < |cs| ==> Swallows(c, cs[j])
    ensures cs == [c]
  {
    var j := if i == 0 then |cs| - 1 else 0;
    assert Swallows(c, cs[j]);
  }

  lemma ChunkCovered(cs: seq<Chunk>, j: nat, c: Chunk)
    requires j < |cs| && cs[j].len > 0 && Covered(cs) <= Range(c)
    ensures Swallows(c, cs[j])
  {
    var lo, hi: nat := cs[j].offset, cs[j].End() - 1;
    assert lo in Range(cs[j]) && hi in Range(cs[j]);
    CoveredBy(cs, lo);
    CoveredBy(cs, hi);
    assert lo in Range(c) && hi in Range(c);
  }

  /** For marks within a positive maximum, one chunk of that length means everything. */
  lemma CompleteMeansAll(cs: seq<Chunk>, max: nat)
    requires Proper(cs) && max > 0 && Covered(cs) <= Range(Chunk(0, max))
    ensures |cs| == 1 && cs[0].len == max <==> Covered(cs) == Range(Chunk(0, max))
  {
    SingleRun(cs, max);
    if o: nat :| Covered(cs) == Range(Chunk(o, max)) {
      assert o + max - 1 in Range(Chunk(o, max));
    }
  }
}
