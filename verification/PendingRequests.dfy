/** The byte ranges we have requested from a peer, and what is left of them when a block arrives. */
module PendingRequests {
  import opened Common
  import opened WireFormat

  /** The end of the block does not wrap. */
  predicate Straight(b: Block) {
    b.End() < WORD
  }

  predicate AllStraight(s: set<Block>) {
    forall b :: b in s ==> Straight(b)
  }

  lemma StraightEnd(b: Block)
    ensures b.WrappedEnd() == b.End() <==> Straight(b)
  {
  }

  /** Pending requests and the tick at which each was made. */
  type Pending = map<Block, int>

  predicate Covers(b: Block, piece: nat, x: nat) {
    b.piece == piece && b.offset <= x < b.End()
  }

  ghost predicate Covered(m: Pending, piece: nat, x: nat) {
    exists b :: b in m && Covers(b, piece, x)
  }

  predicate Disjoint(a: Block, b: Block) {
    a.piece != b.piece || a.End() <= b.offset || b.End() <= a.offset
  }

  predicate PairwiseDisjoint(m: Pending) {
    forall a, b :: a in m && b in m && a != b ==> Disjoint(a, b)
  }

  predicate AllNonEmpty(m: Pending) {
    forall b :: b in m ==> 0 < b.len
  }

  /** The block swallows the request. */
  predicate Eaten(r: Block, pb: Block) {
    r.piece == pb.piece && pb.offset <= r.offset && r.WrappedEnd() <= pb.WrappedEnd()
  }

  /** The parts of the request `r` that the block `pb` leaves, in the order in which they are put back, by the
      cases and with the arithmetic of `__conn_remove_pending_request`. There are none if the request is eaten or
      not touched. */
  function Parts(r: Block, pb: Block): seq<Block> {
    var re, pe := r.WrappedEnd(), pb.WrappedEnd();
    if r.piece != pb.piece || Eaten(r, pb) then []
    else if r.offset < pb.offset && pe < re then
      [Block(r.piece, pe, Wrap(r.len - pb.len - (pb.offset - r.offset))),
       Block(r.piece, r.offset, pb.offset - r.offset)]
    else if r.offset < pe && pe < re then [Block(r.piece, pe, Wrap(r.len - (pe - r.offset)))]
    else if r.offset < pb.offset && pb.offset < re && re <= pe then [Block(r.piece, r.offset, pb.offset - r.offset)]
    else []
  }

  /** The block changes what is pending for the request. */
  predicate Touched(r: Block, pb: Block) {
    Eaten(r, pb) || Parts(r, pb) != []
  }

  /** What remains of the request. Of two parts the first is put before the request is removed and the second
      after it, so a first part equal to the request is lost. */
  function Remnants(r: Block, pb: Block): set<Block> {
    var parts := Parts(r, pb);
    if !Touched(r, pb) then {r}
    else if |parts| == 2 then ({parts[0]} - {r}) + {parts[1]}
    else set k | k in parts
  }

  /** The code asserts that every part has a positive length as a signed number, and stops the process if not. */
  predicate Trips(r: Block, pb: Block) {
    exists k :: k in Parts(r, pb) && AsInt(k.len) <= 0
  }

  lemma WrapsOnce(b: Block)
    ensures b.End() == b.WrappedEnd() || b.End() == b.WrappedEnd() + WORD
  {
  }

  lemma WrapShifted(n: int, a: u32)
    requires n == a || n == a + WORD || n == a - WORD
    ensures Wrap(n) == a
  {
  }

  /** No part is empty, and a part is as long as the difference of the ends that bound it. */
  lemma PartLengths(r: Block, pb: Block)
    ensures forall k :: k in Parts(r, pb) ==>
              || (k.offset == pb.WrappedEnd() && k.len == r.WrappedEnd() - pb.WrappedEnd() > 0)
              || (k.offset == r.offset && k.len == pb.offset - r.offset > 0)
    ensures pb.WrappedEnd() < r.WrappedEnd() && Parts(r, pb) != [] ==>
              Parts(r, pb)[0].len == r.WrappedEnd() - pb.WrappedEnd()
  {
    var re, pe := r.WrappedEnd(), pb.WrappedEnd();
    WrapsOnce(r);
    WrapsOnce(pb);
    hide Block.WrappedEnd, Wrap;
    if pe < re {
      WrapShifted(r.len - pb.len - (pb.offset - r.offset), re - pe);
      if r.offset < pe { WrapShifted(r.len - (pe - r.offset), re - pe); }
    }
  }

  /** The guards under which an assertion fails: a part is longer than the largest signed number. */
  lemma TripsWhen(r: Block, pb: Block)
    ensures Trips(r, pb) <==>
            && r.piece == pb.piece
            && ((INT_MAX < r.WrappedEnd() - pb.WrappedEnd() && (r.offset < pb.offset || r.offset < pb.WrappedEnd()))
                || (INT_MAX < pb.offset - r.offset && pb.offset < r.WrappedEnd())
                || (INT_MAX < pb.offset - r.offset && pb.WrappedEnd() < r.WrappedEnd()))
    ensures Trips(r, pb) <==> exists k :: k in Parts(r, pb) && INT_MAX < k.len
  {
    PartLengths(r, pb);
    hide Block.WrappedEnd, Wrap;
    var parts := Parts(r, pb);
    if |parts| == 2 {
      assert parts[0] in parts && parts[1] in parts;
    } else if |parts| == 1 {
      assert parts[0] in parts;
    }
  }

  /** A request no longer than the largest signed number does not stop the process, unless an end wraps. */
  lemma ShortRequestsPass(r: Block, pb: Block)
    requires Straight(r) && Straight(pb) && r.len <= INT_MAX
    ensures !Trips(r, pb)
  {
    StraightEnd(r);
    StraightEnd(pb);
    TripsWhen(r, pb);
  }

  /** The same without wrapping. */
  function PlainRemnants(r: Block, pb: Block): set<Block>
    requires Straight(r) && Straight(pb)
  {
    if r.piece != pb.piece then {r}
    else if pb.offset <= r.offset && r.End() <= pb.End() then {}
    else if r.offset < pb.offset && pb.End() < r.End() then
      {Block(r.piece, pb.End(), r.End() - pb.End()), Block(r.piece, r.offset, pb.offset - r.offset)}
    else if r.offset < pb.End() && pb.End() < r.End() then {Block(r.piece, pb.End(), r.End() - pb.End())}
    else if r.offset < pb.offset && pb.offset < r.End() then {Block(r.piece, r.offset, pb.offset - r.offset)}
    else {r}
  }

  lemma RemnantsArePlain(r: Block, pb: Block)
    requires Straight(r) && Straight(pb)
    ensures Remnants(r, pb) == PlainRemnants(r, pb)
  {
    StraightEnd(r);
    StraightEnd(pb);
  }

  /** The remnants cover the request minus the block, and nothing else. */
  lemma RemnantsCover(r: Block, pb: Block, piece: nat, x: nat)
    requires Straight(r) && Straight(pb)
    ensures (exists k :: k in Remnants(r, pb) && Covers(k, piece, x)) <==> Covers(r, piece, x) && !Covers(pb, piece, x)
  {
    RemnantsArePlain(r, pb);
    hide Remnants;
    var right := Block(r.piece, pb.End(), if pb.End() < r.End() then r.End() - pb.End() else 0);
    var left := Block(r.piece, r.offset, if r.offset < pb.offset then pb.offset - r.offset else 0);
    if Covers(r, piece, x) && !Covers(pb, piece, x) {
      if r in Remnants(r, pb) {
      } else if x < pb.offset {
        assert left in Remnants(r, pb) && Covers(left, piece, x);
      } else {
        assert right in Remnants(r, pb) && Covers(right, piece, x);
      }
    }
  }

  /** A remnant lies inside its request, is not empty unless the request was, and the same block
      leaves it as it is. */
  lemma RemnantShape(r: Block, pb: Block, k: Block)
    requires Straight(r) && Straight(pb) && k in Remnants(r, pb)
    ensures Straight(k)
    ensures k.piece == r.piece && r.offset <= k.offset && k.End() <= r.End()
    ensures k == r || 0 < k.len
    ensures Remnants(k, pb) == {k}
  {
    RemnantsArePlain(r, pb);
    hide Remnants;
    RemnantsArePlain(k, pb);
  }

  lemma TouchedWhenCut(r: Block, pb: Block)
    requires Straight(r) && Straight(pb)
    ensures Touched(r, pb) <==> r !in Remnants(r, pb)
    ensures !Touched(r, pb) ==> Remnants(r, pb) == {r}
  {
    StraightEnd(r);
    StraightEnd(pb);
    PartLengths(r, pb);
  }

  lemma RemnantsApart(r: Block, pb: Block, k: Block, l: Block)
    requires Straight(r) && Straight(pb) && k in Remnants(r, pb) && l in Remnants(r, pb) && k != l
    ensures Disjoint(k, l)
  {
    RemnantsArePlain(r, pb);
    hide Remnants;
  }

  // ---------------------------------------------------------------------------------
  // Blocks whose end wraps

  ghost predicate Left(r: Block, pb: Block, piece: nat, x: nat) {
    exists k :: k in Remnants(r, pb) && Covers(k, piece, x)
  }

  /** The remnants cover the request minus the block. */
  ghost predicate ExactlyLeft(r: Block, pb: Block) {
    forall piece, x :: Left(r, pb, piece, x) <==> Covers(r, piece, x) && !Covers(pb, piece, x)
  }

  /** A wrapping block ends before it starts, so it eats no request and cuts none on one side only. */
  lemma WrappedParts(r: Block, pb: Block)
    requires Straight(r) && !Straight(pb) && r.piece == pb.piece
    ensures pb.WrappedEnd() < pb.offset
    ensures Touched(r, pb) <==> r.offset < pb.offset && pb.WrappedEnd() < r.End()
    ensures var before := Block(r.piece, r.offset, if r.offset < pb.offset then pb.offset - r.offset else 0);
            var after := Block(r.piece, pb.WrappedEnd(),
                               if pb.WrappedEnd() < r.End() then r.End() - pb.WrappedEnd() else 0);
            Remnants(r, pb) == if Touched(r, pb) then ({after} - {r}) + {before} else {r}
  {
    StraightEnd(r);
    PartLengths(r, pb);
  }

  /** The bytes left of a request by a wrapping block. */
  lemma WrappedLeft(r: Block, pb: Block, piece: nat, x: nat)
    requires Straight(r) && !Straight(pb) && r.piece == pb.piece
    ensures Left(r, pb, piece, x) <==>
            if r.offset < pb.offset && pb.WrappedEnd() < r.End()
            then piece == r.piece && (r.offset <= x < pb.offset
                                      || (pb.WrappedEnd() != r.offset && pb.WrappedEnd() <= x < r.End()))
            else Covers(r, piece, x)
  {
    WrappedParts(r, pb);
    hide Remnants;
    if Touched(r, pb) {
      var before := Block(r.piece, r.offset, pb.offset - r.offset);
      var after := Block(r.piece, pb.WrappedEnd(), r.End() - pb.WrappedEnd());
      assert before in Remnants(r, pb);
      assert after == r <==> pb.WrappedEnd() == r.offset;
      assert after != r ==> after in Remnants(r, pb);
    } else {
      assert r in Remnants(r, pb);
    }
  }

  /** When the remnants of a request cover the request minus the block. */
  lemma ExactlyLeftWhen(r: Block, pb: Block)
    requires Straight(r)
    ensures ExactlyLeft(r, pb) <==>
            || Straight(pb)
            || r.piece != pb.piece
            || (pb.offset <= r.offset && r.len == 0)
            || (r.offset < pb.offset && (r.End() <= pb.WrappedEnd()
                                         || (pb.WrappedEnd() == r.offset && pb.offset <= r.End())
                                         || (r.offset < pb.WrappedEnd() && pb.offset == r.End())))
  {
    if Straight(pb) {
      forall piece, x ensures Left(r, pb, piece, x) <==> Covers(r, piece, x) && !Covers(pb, piece, x) {
        RemnantsCover(r, pb, piece, x);
      }
    } else if r.piece != pb.piece {
      assert Remnants(r, pb) == {r};
      forall piece, x ensures Left(r, pb, piece, x) <==> Covers(r, piece, x) && !Covers(pb, piece, x) {
        assert r in Remnants(r, pb);
      }
    } else {
      WrappedExactlyLeftWhen(r, pb);
    }
  }

  lemma WrappedExactlyLeftWhen(r: Block, pb: Block)
    requires Straight(r) && !Straight(pb) && r.piece == pb.piece
    ensures ExactlyLeft(r, pb) <==>
            || (pb.offset <= r.offset && r.len == 0)
            || (r.offset < pb.offset && (r.End() <= pb.WrappedEnd()
                                         || (pb.WrappedEnd() == r.offset && pb.offset <= r.End())
                                         || (r.offset < pb.WrappedEnd() && pb.offset == r.End())))
  {
    hide Left;
    WrappedParts(r, pb);
    forall piece, x: nat ensures Left(r, pb, piece, x) <==>
            if r.offset < pb.offset && pb.WrappedEnd() < r.End()
            then piece == r.piece && (r.offset <= x < pb.offset
                                      || (pb.WrappedEnd() != r.offset && pb.WrappedEnd() <= x < r.End()))
            else Covers(r, piece, x)
    {
      WrappedLeft(r, pb, piece, x);
    }
    if ExactlyLeft(r, pb) {
      // the bytes at which the two sides can differ
      assert Left(r, pb, r.piece, r.offset) <==> Covers(r, r.piece, r.offset) && !Covers(pb, r.piece, r.offset);
      var pe := pb.WrappedEnd();
      assert Left(r, pb, r.piece, pe) <==> Covers(r, r.piece, pe) && !Covers(pb, r.piece, pe);
      assert !Covers(r, r.piece, r.End()) && !Left(r, pb, r.piece, r.End());
      if 0 < r.End() {
        var x := r.End() - 1;
        assert Left(r, pb, r.piece, x) <==> Covers(r, r.piece, x) && !Covers(pb, r.piece, x);
      }
    }
  }

  /** Three bytes at the last offset of the number range are taken out of a request for one byte in the middle: no
      assertion fails, and nearly the whole range is pending afterwards. */
  lemma WrappedBlockAdds()
    ensures var r, pb := Block(0, 0x8000_0000, 1), Block(0, 0xFFFF_FFFF, 3);
            && !Trips(r, pb) && !ExactlyLeft(r, pb)
            && Remnants(r, pb) == {Block(0, 2, 0x7FFF_FFFF), Block(0, 0x8000_0000, 0x7FFF_FFFF)}
  {
    var r, pb := Block(0, 0x8000_0000, 1), Block(0, 0xFFFF_FFFF, 3);
    TripsWhen(r, pb);
    ExactlyLeftWhen(r, pb);
  }

  /** The first byte of a request for three gigabytes stops the process, though no end wraps. */
  lemma LongRequestTrips()
    ensures var r, pb := Block(0, 0, 0xC000_0000), Block(0, 0, 1);
            Straight(r) && Straight(pb) && Trips(r, pb)
  {
    TripsWhen(Block(0, 0, 0xC000_0000), Block(0, 0, 1));
  }

  // ---------------------------------------------------------------------------------
  // Any block

  /** No byte of a request outside the block is lost, whether or not the end of the block wraps. */
  lemma RemnantsKeep(r: Block, pb: Block, piece: nat, x: nat)
    requires Straight(r) && Covers(r, piece, x) && !Covers(pb, piece, x)
    ensures Left(r, pb, piece, x)
  {
    if Straight(pb) {
      RemnantsCover(r, pb, piece, x);
    } else if r.piece != pb.piece {
      assert r in Remnants(r, pb);
    } else {
      WrappedLeft(r, pb, piece, x);
    }
  }

  lemma RemnantStraight(r: Block, pb: Block, k: Block)
    requires Straight(r) && k in Remnants(r, pb)
    ensures Straight(k)
  {
    StraightEnd(r);
    PartLengths(r, pb);
    assert k == r || k in Parts(r, pb);
  }

  /** What receiving any block keeps: no byte outside the block is lost, no end wraps, and every tick is one of a
      request. */
  ghost predicate KeepsRest(before: Pending, pb: Block, after: Pending) {
    && AllStraight(after.Keys)
    && (forall k :: k in after ==> exists r :: r in before && after[k] == before[r])
    && (forall piece, x :: Covered(before, piece, x) && !Covers(pb, piece, x) ==> Covered(after, piece, x))
  }

  /** `k` is what remains of some request in `s`. */
  ghost predicate Remains(s: set<Block>, pb: Block, k: Block) {
    exists r :: r in s && k in Remnants(r, pb)
  }

  /** The outcome of receiving `pb`: exactly the remnants are pending, each under the tick of a
      request it is part of. */
  ghost predicate Subtracted(before: Pending, pb: Block, after: Pending) {
    && (forall k :: k in after <==> Remains(before.Keys, pb, k))
    && (forall k :: k in after ==> exists r :: r in before && k in Remnants(r, pb) && after[k] == before[r])
  }

  // ---------------------------------------------------------------------------------
  // Consequences, for any pending requests, overlapping or not

  lemma CoverIsDifference(before: Pending, pb: Block, after: Pending, piece: nat, x: nat)
    requires AllStraight(before.Keys) && Straight(pb)
    requires Subtracted(before, pb, after)
    ensures Covered(after, piece, x) <==> Covered(before, piece, x) && !Covers(pb, piece, x)
  {
    if Covered(after, piece, x) {
      var k :| k in after && Covers(k, piece, x);
      var r :| r in before.Keys && k in Remnants(r, pb);
      RemnantsCover(r, pb, piece, x);
    }
    if Covered(before, piece, x) && !Covers(pb, piece, x) {
      var r :| r in before && Covers(r, piece, x);
      RemnantsCover(r, pb, piece, x);
      var k :| k in Remnants(r, pb) && Covers(k, piece, x);
      assert Remains(before.Keys, pb, k);
    }
  }

  lemma OtherPiecesUntouched(before: Pending, pb: Block, after: Pending, b: Block)
    requires AllStraight(before.Keys) && Straight(pb)
    requires Subtracted(before, pb, after) && b.piece != pb.piece
    ensures b in after <==> b in before
    ensures b in after ==> after[b] == before[b]
  {
    if b in before {
      assert b in Remnants(b, pb);
      assert Remains(before.Keys, pb, b);
    }
    if b in after {
      var r :| r in before && b in Remnants(r, pb) && after[b] == before[r];
      RemnantShape(r, pb, b);
      assert r == b;
    }
  }

  lemma SurvivorsKeepTick(before: Pending, pb: Block, after: Pending, k: Block)
    requires AllStraight(before.Keys) && Straight(pb)
    requires Subtracted(before, pb, after) && k in after
    ensures exists r :: r in before && r.piece == k.piece && r.offset <= k.offset && k.End() <= r.End()
                        && after[k] == before[r]
    ensures AllNonEmpty(before) ==> 0 < k.len
  {
    var r :| r in before && k in Remnants(r, pb) && after[k] == before[r];
    RemnantShape(r, pb, k);
  }

  lemma DisjointStaysDisjoint(before: Pending, pb: Block, after: Pending)
    requires AllStraight(before.Keys) && Straight(pb)
    requires Subtracted(before, pb, after) && PairwiseDisjoint(before)
    ensures PairwiseDisjoint(after)
  {
    forall a, b | a in after && b in after && a != b ensures Disjoint(a, b) {
      var q :| q in before && a in Remnants(q, pb) && after[a] == before[q];
      var r :| r in before && b in Remnants(r, pb) && after[b] == before[r];
      if q == r {
        RemnantsApart(q, pb, a, b);
      } else {
        RemnantShape(q, pb, a);
        RemnantShape(r, pb, b);
        assert Disjoint(q, r);
      }
    }
  }

  // ---------------------------------------------------------------------------------
  // `__req_fit`

  /** The adjustment of a request before it is sent. */
  function Fit(b: Block, pieceLen: u32): Block {
    if pieceLen < b.WrappedEnd() then b.(len := b.WrappedEnd() - pieceLen) else b
  }

  /** The request covers the bytes of `b` that lie inside the piece. */
  ghost predicate Clips(f: Block, b: Block, pieceLen: u32) {
    forall x: nat :: Covers(f, b.piece, x) <==> Covers(b, b.piece, x) && x < pieceLen
  }

  /** Fitting clips a request to its piece exactly when there is nothing to clip, or when the part
      outside happens to be as long as the part inside. */
  lemma FitClips(b: Block, pieceLen: u32)
    ensures Clips(Fit(b, pieceLen), b, pieceLen) <==>
            b.End() <= pieceLen || (pieceLen < b.WrappedEnd() && b.offset + b.WrappedEnd() == 2 * pieceLen)
  {
    var f := Fit(b, pieceLen);
    if pieceLen < b.End() && !(pieceLen < b.WrappedEnd() && b.offset + b.WrappedEnd() == 2 * pieceLen) {
      var x := if f.End() < pieceLen then f.End() else if pieceLen < b.offset then b.offset else f.End() - 1;
      assert Covers(f, b.piece, x) != (Covers(b, b.piece, x) && x < pieceLen);
    }
  }

  /** A request that ends inside the piece stays; of any other as many bytes are asked for as lie beyond the piece. */
  lemma FitAsksFor(b: Block, pieceLen: u32)
    ensures Fit(b, pieceLen).piece == b.piece && Fit(b, pieceLen).offset == b.offset
    ensures var end := (b.offset + b.len) % 0x1_0000_0000;
      Fit(b, pieceLen).len == if end <= pieceLen then b.len else end - pieceLen
  {
  }

  /** Witness against the unrestricted law: of 20 bytes requested from a piece of 16, four are asked for. */
  lemma FitClipsWrongly()
    ensures Fit(Block(0, 0, 20), 16) == Block(0, 0, 4) && !Clips(Block(0, 0, 4), Block(0, 0, 20), 16)
  {
    assert Covers(Block(0, 0, 20), 0, 4) && !Covers(Block(0, 0, 4), 0, 4);
  }
}
