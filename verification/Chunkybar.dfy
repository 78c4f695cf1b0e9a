/** The progress counter of chunkybar.c, over its chunk list. */
module Chunkybar {
  import opened ChunkList

  class Counter {
    var chunks: seq<Chunk>
    var max: nat

    ghost predicate Valid()
      reads this
    {
      Proper(chunks)
    }

    ghost function Done(): set<nat>
      reads this
    {
      Covered(chunks)
    }

    constructor (max: nat)
      ensures Valid() && Done() == {} && this.max == max
    {
      this.max := max;
      chunks := [];
    }

    /** The chunk at `prev` takes in its successors for as long as it reaches them. */
    method FeastFrom(prev: nat)
      requires prev < |chunks| && Ascending(chunks[prev], chunks[prev + 1..])
      modifies this`chunks
      ensures chunks == old(chunks[..prev] + Feast(chunks[prev], chunks[prev + 1..]))
    {
      ghost var was := chunks;
      assert SameFeast(was, chunks, prev);
      hide SameFeast, Feast, Ascending;
      while prev + 1 < |chunks| && chunks[prev + 1].offset <= chunks[prev].offset + chunks[prev].len
        invariant SameFeast(was, chunks, prev)
        decreases |chunks|
      {
        FeastEats(was, chunks, prev);
        var p, next := chunks[prev], chunks[prev + 1];
        if !(next.offset + next.len <= p.offset + p.len) {
          p := Chunk(p.offset, (next.offset + next.len) - p.offset);
        }
        chunks := chunks[..prev] + [p] + chunks[prev + 2..];
      }
      FeastOver(was, chunks, prev);
    }

    method MarkComplete(offset: nat, len: nat)
      requires Valid()
      modifies this`chunks
      ensures chunks == Mark(old(chunks), Chunk(offset, len))
      ensures Done() == old(Done()) + Range(Chunk(offset, len))
      ensures Valid() <==> len > 0 || Touches(old(chunks), offset)
    {
      ghost var c, was := Chunk(offset, len), chunks;
      MarkCovers(was, c);
      MarkProper(was, c);
      if |chunks| == 0 {
        chunks := [Chunk(offset, len)];
        return;
      }
      if offset < chunks[0].offset {
        chunks := [Chunk(offset, len)] + chunks;
        assert chunks[1..] == was;
        FeastFrom(0);
      } else {
        var prev := FindPlace(offset, c);
        MarkAfter(offset, len, prev);
      }
    }

    /** The last chunk that starts no later than `offset`. */
    method FindPlace(offset: nat, ghost c: Chunk) returns (prev: nat)
      requires Valid() && chunks != [] && chunks[0].offset <= offset == c.offset
      ensures prev < |chunks| && chunks[prev].offset <= offset
      ensures prev + 1 < |chunks| ==> offset < chunks[prev + 1].offset
      ensures Mark(chunks, c) == chunks[..prev] + Mark(chunks[prev..], c)
    {
      ghost var cs := chunks;
      MarkFrom(cs, c);
      hide *;
      prev := 0;
      while prev + 1 < |chunks| && chunks[prev + 1].offset <= offset
        invariant prev < |chunks| && chunks[prev].offset <= offset && MarksFrom(cs, c, prev)
      {
        MarkSkips(cs, c, prev);
        prev := prev + 1;
      }
      MarksThere(cs, c, prev);
    }

    method MarkAfter(offset: nat, len: nat, prev: nat)
      requires Valid() && prev < |chunks| && chunks[prev].offset <= offset
      requires prev + 1 < |chunks| ==> offset < chunks[prev + 1].offset
      modifies this`chunks
      ensures chunks == old(chunks[..prev] + Mark(chunks[prev..], Chunk(offset, len)))
    {
      ghost var was := chunks;
      var p := chunks[prev];
      assert was[prev..][1..] == was[prev + 1..];
      if offset <= p.offset + p.len {
        if offset + len <= p.offset + p.len {
        } else {
          chunks := chunks[prev := Chunk(p.offset, (offset + len) - p.offset)];
        }
        assert chunks[prev + 1..] == was[prev + 1..];
        FeastFrom(prev);
      } else {
        chunks := chunks[..prev + 1] + [Chunk(offset, len)] + chunks[prev + 1..];
        assert chunks[prev + 2..] == was[prev + 1..];
        FeastFrom(prev + 1);
      }
    }

    method MarkIncomplete(offset: nat, len: nat)
      requires Valid()
      modifies this`chunks
      ensures chunks == Unmark(old(chunks), Chunk(offset, len))
      ensures Done() == old(Done()) - Range(Chunk(offset, len)) <==> !Misses(old(chunks), Chunk(offset, len))
      ensures Done() == (old(Done()) - Range(Chunk(offset, len)))
                        + if Misses(old(chunks), Chunk(offset, len)) then Range(old(chunks)[1]) else {}
      ensures Valid() <==> len > 0 || !Inside(old(chunks), offset)
    {
      ghost var c, was := Chunk(offset, len), chunks;
      assert CutAll([], c) == [];
      hide CutAll, Steps, Covered, Range;
      UnmarkCovers(was, c);
      UnmarkProper(was, c);
      if chunks == [] { return; }
      var i := CutFirst(offset, len);
      while i < |chunks|
        invariant 0 <= i <= |chunks| && Nonempty(chunks[i..])
        invariant chunks[..i] + CutAll(chunks[i..], c) == Unmark(was, c)
        decreases Steps(chunks[i..], c)
      {
        i := CutNext(offset, len, i);
      }
      assert chunks[i..] == [] && chunks[..i] == chunks;
    }

    /** The first round of the loop, without a predecessor: a swallowed chunk is replaced and its successor skipped. */
    method CutFirst(offset: nat, len: nat) returns (i: nat)
      requires Valid() && chunks != []
      modifies this`chunks
      ensures i <= |chunks| && Nonempty(chunks[i..])
      ensures chunks[..i] + CutAll(chunks[i..], Chunk(offset, len)) == Unmark(old(chunks), Chunk(offset, len))
    {
      ghost var c, was := Chunk(offset, len), chunks;
      var t := chunks[0];
      if offset <= t.offset && t.offset + t.len <= offset + len {
        chunks := chunks[1..];
        if |chunks| == 0 { return 0; }
        assert chunks[1..] == was[2..];
        return 1;
      }
      assert chunks == [t] + chunks[1..];
      CutAllCons(t, chunks[1..], c);
      i := Trim(offset, len, 0);
    }

    /** A round with a predecessor. */
    method CutNext(offset: nat, len: nat, i: nat) returns (next: nat)
      requires i < |chunks| && Nonempty(chunks[i..])
      modifies this`chunks
      ensures next <= |chunks| && Nonempty(chunks[next..])
      ensures chunks[..next] + CutAll(chunks[next..], Chunk(offset, len))
           == old(chunks[..i] + CutAll(chunks[i..], Chunk(offset, len)))
      ensures Steps(chunks[next..], Chunk(offset, len)) < old(Steps(chunks[i..], Chunk(offset, len)))
    {
      ghost var was := chunks;
      var t := chunks[i];
      assert was[i..] == [t] + was[i + 1..];
      if offset <= t.offset && t.offset + t.len <= offset + len {
        chunks := chunks[..i] + chunks[i + 1..];
        assert chunks[i..] == was[i + 1..];
        assert chunks[..i] == was[..i];
        return i;
      }
      next := Trim(offset, len, i);
    }

    /** Splits or shortens a chunk that is not swallowed, and goes on to the next. */
    method Trim(offset: nat, len: nat, i: nat) returns (next: nat)
      requires i < |chunks| && Nonempty(chunks[i..]) && !Swallows(Chunk(offset, len), chunks[i])
      modifies this`chunks
      ensures next == i + 1 <= |chunks| && Nonempty(chunks[next..])
      ensures chunks[..next] + CutAll(chunks[next..], Chunk(offset, len))
           == old(chunks[..i] + CutAll(chunks[i..], Chunk(offset, len)))
      ensures Steps(chunks[next..], Chunk(offset, len)) < old(Steps(chunks[i..], Chunk(offset, len)))
    {
      hide CutAll, Steps;
      ghost var c, was := Chunk(offset, len), chunks;
      var t := chunks[i];
      ghost var pre, rest := was[..i], was[i + 1..];
      assert was[i..] == [t] + rest;
      next := i + 1;
      if t.offset < offset && offset + len < t.offset + t.len {
        var a := Chunk(t.offset, offset - t.offset);
        var b := Chunk(offset + len, t.len - len - (offset - t.offset));
        chunks := chunks[..i] + [a, b] + chunks[i + 1..];
        assert chunks[..next] == pre + [a] && chunks[next..] == [b] + rest;
        CutSplit(pre, t, rest, c);
        return;
      } else if t.offset < offset + len && offset + len < t.offset + t.len {
        chunks := chunks[i := Chunk(offset + len, t.len - (offset + len - t.offset))];
      } else if t.offset < offset && offset < t.offset + t.len && t.offset + t.len <= offset + len {
        chunks := chunks[i := Chunk(t.offset, offset - t.offset)];
      }
      assert chunks[..next] == pre + [chunks[i]] && chunks[next..] == rest;
      CutOne(pre, t, chunks[i], rest, c);
    }

    /** Everything within the maximum goes, if and only if at most one chunk starts within it or the
        first one goes beyond. */
    method MarkAllIncomplete()
      requires Valid()
      modifies this`chunks
      ensures Done() == old(Done()) - Range(Chunk(0, max)) <==> !Misses(old(chunks), Chunk(0, max))
      ensures Done() == (old(Done()) - Range(Chunk(0, max)))
                        + if Misses(old(chunks), Chunk(0, max)) then Range(old(chunks)[1]) else {}
      ensures Valid()
    {
      MarkIncomplete(0, max);
    }

    method IsComplete() returns (r: bool)
      requires Valid()
      ensures r <==> max > 0 && exists o: nat :: Done() == Range(Chunk(o, max))
      ensures max > 0 && Done() <= Range(Chunk(0, max)) ==> (r <==> Done() == Range(Chunk(0, max)))
    {
      SingleRun(chunks, max);
      if max > 0 && Done() <= Range(Chunk(0, max)) { CompleteMeansAll(chunks, max); }
      r := |chunks| > 0 && |chunks| == 1 && chunks[0].len == max;
    }

    method BytesCompleted() returns (nbytes: nat)
      requires Valid()
      ensures nbytes == |Done()|
    {
      nbytes := 0;
      var i := 0;
      while i < |chunks|
        invariant i <= |chunks| && nbytes + Total(chunks[i..]) == Total(chunks)
      {
        assert chunks[i..][1..] == chunks[i + 1..];
        nbytes := nbytes + chunks[i].len;
        i := i + 1;
      }
      TotalIsSize(chunks);
    }

    /** For an empty range the answer is whether some chunk holds its position or ends there. */
    method Have(offset: nat, len: nat) returns (r: bool)
      requires Valid()
      ensures len > 0 ==> (r <==> Range(Chunk(offset, len)) <= Done())
      ensures len == 0 ==> (r <==> Touches(chunks, offset))
    {
      ghost var c := Chunk(offset, len);
      HeldInOneChunk(chunks, c);
      hide Covered, Range, Proper, Touches;
      var i := 0;
      while i < |chunks|
        invariant i <= |chunks| && !Holder(chunks[..i], c)
      {
        var b := chunks[i];
        HolderNext(chunks, i, c);
        if offset < b.offset {
        } else if offset + len <= b.offset + b.len {
          return true;
        }
        i := i + 1;
      }
      assert chunks[..i] == chunks;
      return false;
    }
  }

  /** The feast from `prev` on ends the same in both lists. */
  predicate SameFeast(was: seq<Chunk>, now: seq<Chunk>, prev: nat) {
    && prev < |was| && prev < |now|
    && Ascending(was[prev], was[prev + 1..]) && Ascending(now[prev], now[prev + 1..])
    && now[..prev] + Feast(now[prev], now[prev + 1..]) == was[..prev] + Feast(was[prev], was[prev + 1..])
  }

  lemma FeastEats(was: seq<Chunk>, now: seq<Chunk>, prev: nat)
    requires SameFeast(was, now, prev) && prev + 1 < |now| && now[prev + 1].offset <= now[prev].End()
    ensures now[prev].offset < now[prev + 1].offset
    ensures SameFeast(was, now[..prev] + [Extended(now[prev], now[prev + 1])] + now[prev + 2..], prev)
  {
    var rest := now[prev + 1..];
    assert rest[0] == now[prev + 1];
    var after := now[..prev] + [Extended(now[prev], rest[0])] + now[prev + 2..];
    assert after[prev + 1..] == rest[1..] && after[..prev] == now[..prev];
  }

  lemma FeastOver(was: seq<Chunk>, now: seq<Chunk>, prev: nat)
    requires SameFeast(was, now, prev) && !(prev + 1 < |now| && now[prev + 1].offset <= now[prev].End())
    ensures prev < |was| && Ascending(was[prev], was[prev + 1..])
    ensures now == was[..prev] + Feast(was[prev], was[prev + 1..])
  {
    var rest := now[prev + 1..];
    if rest != [] { assert rest[0] == now[prev + 1]; }
    assert now == now[..prev] + ([now[prev]] + rest);
  }

  /** Some chunk holds all of the range. */
  predicate Holder(cs: seq<Chunk>, c: Chunk) {
    exists i :: 0 <= i < |cs| && Swallows(cs[i], c)
  }

  lemma HeldInOneChunk(cs: seq<Chunk>, c: Chunk)
    requires Proper(cs)
    ensures c.len > 0 ==> (Holder(cs, c) <==> Range(c) <= Covered(cs))
    ensures c.len == 0 ==> (Holder(cs, c) <==> Touches(cs, c.offset))
  {
    hide Covered, Range, Proper;
    if c.len > 0 { RangeInOneChunk(cs, c); }
  }

  lemma HolderNext(cs: seq<Chunk>, i: nat, c: Chunk)
    requires i < |cs|
    ensures Holder(cs[..i + 1], c) <==> Holder(cs[..i], c) || Swallows(cs[i], c)
    ensures Swallows(cs[i], c) ==> Holder(cs, c)
  {
    hide Swallows;
    var s, u := cs[..i], cs[..i + 1];
    if j :| 0 <= j < |u| && Swallows(u[j], c) {
      if j < i { assert s[j] == u[j]; }
    }
    if j :| 0 <= j < |s| && Swallows(s[j], c) { assert u[j] == s[j]; }
    if Swallows(cs[i], c) { assert u[i] == cs[i]; }
  }

  /** Marking the range is marking it from the chunk at `k` on. */
  predicate MarksFrom(cs: seq<Chunk>, c: Chunk, k: nat) {
    && k < |cs| && Proper(cs) && Proper(cs[k..])
    && Mark(cs, c) == cs[..k] + Mark(cs[k..], c)
  }

  lemma MarkFrom(cs: seq<Chunk>, c: Chunk)
    requires cs != [] && Proper(cs)
    ensures MarksFrom(cs, c, 0)
  {
    assert cs[0..] == cs;
  }

  lemma MarksThere(cs: seq<Chunk>, c: Chunk, k: nat)
    requires MarksFrom(cs, c, k)
    ensures k < |cs| && Proper(cs) && Proper(cs[k..]) && Mark(cs, c) == cs[..k] + Mark(cs[k..], c)
  {
  }

  /** The walk past a chunk whose successor starts no later than the range. */
  lemma MarkSkips(cs: seq<Chunk>, c: Chunk, k: nat)
    requires MarksFrom(cs, c, k) && k + 1 < |cs| && cs[k].offset <= c.offset && cs[k + 1].offset <= c.offset
    ensures MarksFrom(cs, c, k + 1)
  {
    MarkSkipsFirst(cs[k..], c);
    hide Mark, Proper;
    assert cs[k..][1..] == cs[k + 1..];
    assert cs[..k] + ([cs[k]] + Mark(cs[k + 1..], c)) == cs[..k + 1] + Mark(cs[k + 1..], c);
  }

  lemma MarkSkipsFirst(cs: seq<Chunk>, c: Chunk)
    requires Proper(cs) && |cs| > 1 && cs[0].offset <= c.offset && cs[1].offset <= c.offset
    ensures Proper(cs[1..]) && Mark(cs, c) == [cs[0]] + Mark(cs[1..], c)
  {
  }

  predicate Nonempty(cs: seq<Chunk>) {
    forall i :: 0 <= i < |cs| ==> cs[i].len > 0
  }

  /** Rounds of the loop over some chunks: the one that is split counts twice. */
  function Steps(cs: seq<Chunk>, c: Chunk): nat {
    if cs == [] then 0
    else (if cs[0].offset < c.offset && c.End() < cs[0].End() then 2 else 1) + Steps(cs[1..], c)
  }

  lemma CutAllCons(t: Chunk, cs: seq<Chunk>, c: Chunk)
    ensures CutAll([t] + cs, c) == Cut(t, c) + CutAll(cs, c)
    ensures Steps([t] + cs, c) == (if t.offset < c.offset && c.End() < t.End() then 2 else 1) + Steps(cs, c)
  {
    assert ([t] + cs)[1..] == cs;
  }

  lemma CutSplit(pre: seq<Chunk>, t: Chunk, rest: seq<Chunk>, c: Chunk)
    requires t.offset < c.offset && c.End() < t.End()
    ensures
      var a, b := Chunk(t.offset, c.offset - t.offset), Chunk(c.End(), t.End() - c.End());
      && pre + [a] + CutAll([b] + rest, c) == pre + CutAll([t] + rest, c)
      && Steps([b] + rest, c) < Steps([t] + rest, c)
  {
    var a, b := Chunk(t.offset, c.offset - t.offset), Chunk(c.End(), t.End() - c.End());
    assert Cut(b, c) == [b] && Cut(t, c) == [a, b];
    hide CutAll, Cut, Steps;
    CutAllCons(b, rest, c);
    CutAllCons(t, rest, c);
    assert pre + ([a, b] + CutAll(rest, c)) == pre + [a] + ([b] + CutAll(rest, c));
  }

  lemma CutOne(pre: seq<Chunk>, t: Chunk, a: Chunk, rest: seq<Chunk>, c: Chunk)
    requires Cut(t, c) == [a]
    ensures pre + [a] + CutAll(rest, c) == pre + CutAll([t] + rest, c)
    ensures Steps(rest, c) < Steps([t] + rest, c)
  {
    CutAllCons(t, rest, c);
  }
}
