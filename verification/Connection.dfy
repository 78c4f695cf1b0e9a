/** The peer connection of pwp_connection.c: requests in both directions. Callbacks and messages
    sent are recorded in `log`. */
module Connection {
  import opened Common
  import opened PendingRequests
  import opened WireFormat

  datatype Event =
    | SentRequest(b: Block)
    | SentPiece(b: Block)
    | SentChange(id: byte)
    | PushedBlock(b: Block)
    | GaveBack(b: Block)
    | Disconnected

  /** The byte was received or handed back by this event. */
  predicate Settles(e: Event, piece: nat, x: nat) {
    (e.PushedBlock? || e.GaveBack?) && Covers(e.b, piece, x)
  }

  ghost predicate SettledAfter(log: seq<Event>, i: nat, piece: nat, x: nat) {
    exists j :: i < j < |log| && Settles(log[j], piece, x)
  }

  /** Every byte ever requested is still pending, or was later received or handed back. */
  ghost predicate Accounted(log: seq<Event>, recv: Pending) {
    forall i: nat, piece, x :: i < |log| && log[i].SentRequest? && Covers(log[i].b, piece, x) ==>
      Covered(recv, piece, x) || SettledAfter(log, i, piece, x)
  }

  lemma AccountedStep(log: seq<Event>, recv: Pending, more: seq<Event>, recv': Pending)
    requires Accounted(log, recv)
    requires forall piece, x :: Covered(recv, piece, x) ==>
               Covered(recv', piece, x) || exists j :: 0 <= j < |more| && Settles(more[j], piece, x)
    requires forall j, piece, x :: 0 <= j < |more| && more[j].SentRequest? && Covers(more[j].b, piece, x) ==>
               Covered(recv', piece, x)
    ensures Accounted(log + more, recv')
  {
    var all := log + more;
    forall i: nat, piece, x | i < |all| && all[i].SentRequest? && Covers(all[i].b, piece, x)
      ensures Covered(recv', piece, x) || SettledAfter(all, i, piece, x)
    {
      if i < |log| {
        assert log[i] == all[i];
        if SettledAfter(log, i, piece, x) {
          var j :| i < j < |log| && Settles(log[j], piece, x);
          assert Settles(all[j], piece, x);
        } else if !Covered(recv', piece, x) {
          var j :| 0 <= j < |more| && Settles(more[j], piece, x);
          assert Settles(all[|log| + j], piece, x);
        }
      } else {
        assert all[i] == more[i - |log|];
      }
    }
  }

  ghost predicate NoDuplicates(s: seq<Block>) {
    forall i, j :: 0 <= i < j < |s| ==> s[i] != s[j]
  }

  /** The requests of `m`, and no others, were handed back in `more`. */
  ghost predicate AllGivenBack(m: set<Block>, more: seq<Event>) {
    && (forall b :: b in m ==> GaveBack(b) in more)
    && (forall e :: e in more ==> e.GaveBack? && e.b in m)
  }

  /** The check of a peer's request, with the wrapping sum of the code. */
  predicate Acceptable(b: Block, pieceLen: u32) {
    0 < b.len && b.WrappedEnd() <= pieceLen
  }

  /** A block that passes the check lies within the piece if and only if its end does not wrap. */
  lemma AcceptedInPiece(b: Block, pieceLen: u32)
    requires Acceptable(b, pieceLen)
    ensures b.End() <= pieceLen <==> Straight(b)
  {
    StraightEnd(b);
  }

  /** Two bytes at the last offset pass the check of every piece that is not empty. */
  lemma WrappedRequestAccepted(pieceLen: u32)
    requires pieceLen > 0
    ensures Acceptable(Block(0, 0xFFFF_FFFF, 2), pieceLen) && pieceLen < Block(0, 0xFFFF_FFFF, 2).End()
  {
  }

  /** What the send callback does: there may be none, and it may fail. */
  datatype Send = NoCallback | Failed | Sent

  /** `__send_to_peer`: without a callback nothing happens, a failed send disconnects. */
  function Delivered(e: Event, send: Send): seq<Event> {
    match send
    case NoCallback => []
    case Failed => [e, Disconnected]
    case Sent => [e]
  }

  /** The requests that are older than ten ticks. */
  function Expired(m: Pending, tick: int): set<Block> {
    set b | b in m && 10 < tick - m[b]
  }

  /** The others, with their ticks. */
  function Young(m: Pending, tick: int): Pending {
    map b | b in m && tick - m[b] <= 10 :: m[b]
  }

  lemma YoungTicks(m: Pending, tick: int)
    ensures forall b :: b in Young(m, tick) ==> b in m && tick - m[b] <= 10 && Young(m, tick)[b] == m[b]
    ensures forall b :: b in m && tick - m[b] <= 10 ==> b in Young(m, tick)
  {
  }

  /** What serving the first block that the peer asked for puts into the log. */
  function ToPeer(queue: seq<Block>, send: Send): seq<Event> {
    if queue == [] then [] else Delivered(SentPiece(queue[0]), send)
  }

  class Conn {
    const pieceLen: u32
    const numPieces: nat
    /** State flags. */
    var imChoking: bool
    var peerChoking: bool
    var imInterested: bool
    var peerInterested: bool
    var uncontactable: bool
    var tick: int
    /** Requests we wait for, requests of the peer, and requests still to be made. */
    var recv: Pending
    var peerReqs: seq<Block>
    var reqs: seq<Block>
    /** Pieces the peer has. */
    var peerHas: set<nat>
    var log: seq<Event>

    /** What every call keeps. */
    ghost predicate Consistent()
      reads this
    {
      && Accounted(log, recv)
      && (forall b :: b in recv ==> recv[b] <= tick)
      && (imChoking ==> peerReqs == [])
      && NoDuplicates(peerReqs)
      && (forall b :: b in peerReqs ==> Acceptable(b, pieceLen))
    }

    /** In addition no pending end wraps. */
    ghost predicate Valid()
      reads this
    {
      Consistent() && AllStraight(recv.Keys)
    }

    constructor (numPieces: nat, pieceLen: u32)
      ensures Valid() && recv == map[] && log == [] && imChoking && peerChoking
    {
      this.numPieces, this.pieceLen := numPieces, pieceLen;
      imChoking, peerChoking, imInterested, peerInterested, uncontactable := true, true, false, false, false;
      tick, recv, peerReqs, reqs, peerHas, log := 0, map[], [], [], {}, [];
    }

    /** `__conn_remove_pending_request`: the requests are visited in the order in which the hash
        map yields them, which is unspecified. The result is false if an assertion stops the process. */
    method RemovePending(pb: Block) returns (ok: bool)
      modifies this`recv
      ensures ok <==> forall r :: r in old(recv) ==> !Trips(r, pb)
      ensures ok && AllStraight(old(recv.Keys)) ==> KeepsRest(old(recv), pb, recv)
      ensures ok && AllStraight(old(recv.Keys)) && Straight(pb) ==> Subtracted(old(recv), pb, recv)
    {
      hide *;
      var start := recv;
      var add := start.Keys;
      ghost var done: set<Block> := {};
      PartlyStart(start, pb);
      while add != {}
        invariant add == start.Keys - done && done <= start.Keys && add <= recv.Keys
        invariant forall r :: r in done ==> !Trips(r, pb)
        invariant AllStraight(start.Keys) ==> KeepsRest(start, pb, recv)
        invariant AllStraight(start.Keys) && Straight(pb) ==> PartlySubtracted(start, pb, done, recv)
        decreases add
      {
        var r :| r in add;
        if AllStraight(start.Keys) {
          OneStraight(start.Keys, r);
          KeepsRestStep(start, pb, recv, r);
          if Straight(pb) { ReducedStep(start, pb, done, recv, r); }
        }
        OthersStay(recv, r, start[r], pb);
        ok := Reduce(r, start[r], pb);
        if !ok {
          return;
        }
        done := done + {r};
        add := add - {r};
      }
      assert done == start.Keys;
      if AllStraight(start.Keys) && Straight(pb) { PartlyDone(start, pb, recv); }
      ok := true;
    }

    /** One request of the loop, with the tick it carries. It is still pending, so the assertion that an eaten
        request is found does not fail. */
    method Reduce(r: Block, t: int, pb: Block) returns (ok: bool)
      requires r in recv
      modifies this`recv
      ensures ok <==> !Trips(r, pb)
      ensures ok ==> recv == Reduced(old(recv), r, t, pb)
    {
      if r.piece != pb.piece {
        return true;
      }
      var re, pe := r.WrappedEnd(), pb.WrappedEnd();
      if pb.offset <= r.offset && re <= pe {
        ReducedNone(recv, r, t, pb);
        recv := recv - {r};
      } else if r.offset < pb.offset && pe < re {
        var n := Block(r.piece, pe, Wrap(r.len - pb.len - (pb.offset - r.offset)));
        var rest := r.(len := pb.offset - r.offset);
        assert Parts(r, pb) == [n, rest] && n in Parts(r, pb) && rest in Parts(r, pb);
        ReducedTwo(recv, r, t, pb, n, rest);
        hide Parts, Reduced, Remnants;
        if AsInt(n.len) <= 0 {
          return false;
        }
        recv := recv[n := t];
        recv := recv - {r};
        if AsInt(rest.len) <= 0 {
          return false;
        }
        recv := recv[rest := t];
      } else if r.offset < pe && pe < re {
        var rest := Block(r.piece, pe, Wrap(r.len - (pe - r.offset)));
        assert Parts(r, pb) == [rest] && rest in Parts(r, pb);
        ReducedOne(recv, r, t, pb, rest);
        hide Parts, Reduced, Remnants;
        recv := recv - {r};
        if AsInt(rest.len) <= 0 {
          return false;
        }
        recv := recv[rest := t];
      } else if r.offset < pb.offset && pb.offset < re && re <= pe {
        var rest := r.(len := pb.offset - r.offset);
        assert Parts(r, pb) == [rest] && rest in Parts(r, pb);
        ReducedOne(recv, r, t, pb, rest);
        hide Parts, Reduced, Remnants;
        recv := recv - {r};
        if AsInt(rest.len) <= 0 {
          return false;
        }
        recv := recv[rest := t];
      }
      return true;
    }

    /** `pwp_conn_piece`. The result is false if an assertion stops the process. */
    method Piece(pb: Block) returns (ok: bool)
      requires Valid()
      modifies this`recv, this`log
      ensures ok <==> forall r :: r in old(recv) ==> !Trips(r, pb)
      ensures ok ==> Valid() && log == old(log) + [PushedBlock(pb)]
      ensures ok && Straight(pb) ==> Subtracted(old(recv), pb, recv)
      ensures !ok ==> log == old(log)
    {
      ok := RemovePending(pb);
      if !ok {
        return;
      }
      ReceivedAccounted(log, old(recv), pb, recv);
      hide Accounted, Subtracted, Trips;
      log := log + [PushedBlock(pb)];
    }

    /** `pwp_conn_request_block_from_peer`: the request is fitted, sent and remembered. */
    method RequestBlock(b: Block, send: Send)
      requires Valid()
      modifies this`recv, this`log
      ensures Consistent() && (Valid() <==> Straight(Fit(b, pieceLen)))
      ensures log == old(log) + Delivered(SentRequest(Fit(b, pieceLen)), send)
      ensures recv == old(recv)[Fit(b, pieceLen) := tick]
    {
      var f := Fit(b, pieceLen);
      forall piece, x | Covered(recv, piece, x) ensures Covered(recv[f := tick], piece, x) {
        var k :| k in recv && Covers(k, piece, x);
        assert k in recv[f := tick];
      }
      forall piece, x | Covers(f, piece, x) ensures Covered(recv[f := tick], piece, x) {
        assert f in recv[f := tick];
      }
      AccountedStep(log, recv, Delivered(SentRequest(f), send), recv[f := tick]);
      log := log + Delivered(SentRequest(f), send);
      recv := recv[f := tick];
    }

    /** Remove the given pending requests and hand them back, in some order. */
    method GiveBack(rem: set<Block>) returns (ghost more: seq<Event>)
      requires Valid() && rem <= recv.Keys
      modifies this`recv, this`log
      ensures Valid() && log == old(log) + more && AllGivenBack(rem, more)
      ensures recv == old(recv) - rem
    {
      var todo := rem;
      more := [];
      while todo != {}
        invariant todo <= rem && recv == old(recv) - (rem - todo)
        invariant log == old(log) + more && AllGivenBack(rem - todo, more)
        decreases todo
      {
        var r :| r in todo;
        recv := recv - {r};
        log := log + [GaveBack(r)];
        more := more + [GaveBack(r)];
        todo := todo - {r};
      }
      assert rem - todo == rem;
      GivenBackAccounted(old(log), old(recv), rem, more);
    }

    /** `pwp_conn_choke`: the peer chokes us, so all our requests are handed back. */
    method Choke() returns (ghost more: seq<Event>)
      requires Valid()
      modifies this`peerChoking, this`recv, this`log
      ensures Valid() && peerChoking && recv == map[]
      ensures log == old(log) + more && AllGivenBack(old(recv).Keys, more)
    {
      peerChoking := true;
      more := GiveBack(recv.Keys);
    }

    method Unchoke()
      requires Valid()
      modifies this`peerChoking
      ensures Valid() && !peerChoking
    {
      peerChoking := false;
    }

    /** `pwp_conn_send_statechange` */
    method SendChange(id: byte, send: Send) returns (sent: bool)
      requires Valid()
      modifies this`log
      ensures Valid() && log == old(log) + Delivered(SentChange(id), send) && sent == send.Sent?
    {
      AccountedStep(log, recv, Delivered(SentChange(id), send), recv);
      log := log + Delivered(SentChange(id), send);
      sent := send.Sent?;
    }

    /** `pwp_conn_choke_peer`: we choke the peer and forget its requests. */
    method ChokePeer(send: Send)
      requires Valid()
      modifies this`imChoking, this`peerReqs, this`log
      ensures Valid() && imChoking && peerReqs == [] && log == old(log) + Delivered(SentChange(CHOKE), send)
    {
      imChoking := true;
      while 0 < |peerReqs|
        modifies this`peerReqs
        decreases |peerReqs|
      {
        peerReqs := peerReqs[1..];
      }
      var _ := SendChange(CHOKE, send);
    }

    method UnchokePeer(send: Send)
      requires Valid()
      modifies this`imChoking, this`log
      ensures Valid() && !imChoking && log == old(log) + Delivered(SentChange(UNCHOKE), send)
    {
      imChoking := false;
      var _ := SendChange(UNCHOKE, send);
    }

    method Disconnect()
      requires Valid()
      modifies this`log
      ensures Valid() && log == old(log) + [Disconnected]
    {
      AccountedStep(log, recv, [Disconnected], recv);
      log := log + [Disconnected];
    }

    /** `pwp_conn_request`: the peer asks for a block; `completed` are the pieces we have. A request
        is accepted exactly under the stated conditions, and queued unless it already is. An accepted
        block lies within the piece exactly when its end does not wrap. */
    method Request(r: Block, completed: set<nat>) returns (accepted: bool)
      requires Valid()
      modifies this`peerReqs, this`log
      ensures Valid()
      ensures accepted <==>
        && !imChoking && r.piece <= numPieces && r.piece in completed && r.piece !in peerHas
        && 0 < r.len && (r.offset + r.len) % 0x1_0000_0000 <= pieceLen
      ensures accepted ==> (r.End() <= pieceLen <==> Straight(r))
      ensures peerReqs == if accepted && r !in old(peerReqs) then old(peerReqs) + [r] else old(peerReqs)
      ensures log == if accepted then old(log) else old(log) + [Disconnected]
    {
      if imChoking {
        Disconnect();
        return false;
      }
      if numPieces < r.piece || r.piece !in completed || r.piece in peerHas {
        Disconnect();
        return false;
      }
      if r.len == 0 || pieceLen < r.WrappedEnd() {
        Disconnect();
        return false;
      }
      if r !in peerReqs {
        peerReqs := peerReqs + [r];
      }
      AcceptedInPiece(r, pieceLen);
      return true;
    }

    /** `pwp_conn_mark_peer_has_piece` */
    method MarkPeerHasPiece(piece: nat) returns (ok: bool)
      requires Valid()
      modifies this`peerHas, this`log
      ensures Valid() && ok == (piece < numPieces)
      ensures peerHas == (if ok then old(peerHas) + {piece} else old(peerHas))
      ensures log == if ok then old(log) else old(log) + [Disconnected]
    {
      if numPieces <= piece {
        Disconnect();
        return false;
      }
      peerHas := peerHas + {piece};
      return true;
    }

    /** `pwp_conn_cancel`: the first queued request equal to `c` is dropped. */
    method Cancel(c: Block)
      requires Valid()
      modifies this`peerReqs
      ensures Valid() && c !in peerReqs
      ensures c !in old(peerReqs) ==> peerReqs == old(peerReqs)
      ensures c in old(peerReqs) ==>
        exists i :: 0 <= i < |old(peerReqs)| && old(peerReqs)[i] == c && peerReqs == Without(old(peerReqs), i)
    {
      var i := 0;
      while i < |peerReqs|
        invariant 0 <= i <= |peerReqs| && peerReqs == old(peerReqs)
        invariant c !in peerReqs[..i]
      {
        if peerReqs[i] == c {
          peerReqs := Without(peerReqs, i);
          return;
        }
        i := i + 1;
      }
    }

    /** `__expunge_my_old_pending_reqs`: requests older than 10 ticks are handed back. */
    method ExpungeOld() returns (ghost more: seq<Event>)
      requires Valid()
      modifies this`recv, this`log
      ensures Valid() && log == old(log) + more
      ensures recv == Young(old(recv), tick)
      ensures AllGivenBack(Expired(old(recv), tick), more)
    {
      var rem := Expired(recv, tick);
      more := GiveBack(rem);
    }

    /** `pwp_conn_periodic`. `offered` are the blocks that the poll callback queues: it is called while
        fewer than ten requests are pending. `served` and `sent` are the outcomes of the two sends. The log gets the
        requests handed back, then the block served to the peer, then what we ask for. */
    method Periodic(offered: seq<Block>, served: Send, sent: Send) returns (ghost more: seq<Event>)
      requires Valid()
      modifies this
      ensures Consistent() && (Valid() <==> AllStraight(recv.Keys))
      ensures (forall b :: b in old(reqs) + offered ==> Straight(Fit(b, pieceLen))) ==> Valid()
      ensures tick == old(tick) + 1
      ensures forall b :: b in recv ==> tick - recv[b] <= 10
      ensures forall b :: b in old(recv) && tick - old(recv)[b] <= 10 ==> b in recv
      ensures AllGivenBack(Expired(old(recv), tick), more)
      ensures imChoking == old(imChoking) && peerInterested == old(peerInterested)
      ensures uncontactable == old(uncontactable) && peerHas == old(peerHas)
      ensures peerChoking == (old(peerChoking) && !old(!uncontactable && peerInterested && imChoking))
      ensures peerReqs == if old(uncontactable) || old(peerReqs) == [] then old(peerReqs) else old(peerReqs)[1..]
      ensures old(uncontactable) ==>
        && log == old(log) + more && recv == Young(old(recv), tick)
        && reqs == old(reqs) && imInterested == old(imInterested)
      ensures !old(uncontactable) ==>
        Asked(old(log) + more + ToPeer(old(peerReqs), served), Young(old(recv), tick), old(reqs), old(imInterested),
              offered, sent)
    {
      YoungTicks(recv, tick + 1);
      hide Accounted, NoDuplicates, AllGivenBack, Fit, Straight, Acceptable, Expired, Young, Asked, ToPeer;
      tick := tick + 1;
      more := ExpungeOld();
      if uncontactable {
        return;
      }
      Converse(offered, served, sent);
    }

    /**
     * The log `log1`, the pending requests `recv1` and the queued blocks `reqs1` grew by what interest and choking call
     * for: the request for the first block that is queued or polled, the message that we are interested, or nothing.
     */
    ghost predicate Asked(log1: seq<Event>, recv1: Pending, reqs1: seq<Block>, interested: bool, offered: seq<Block>,
                          sent: Send)
      reads this
    {
      if !interested then
        && log == log1 + Delivered(SentChange(INTERESTED), sent)
        && recv == recv1 && reqs == reqs1 && imInterested == sent.Sent?
      else if peerChoking then
        log == log1 && recv == recv1 && reqs == reqs1 && imInterested
      else
        var queue := reqs1 + Polled(offered, |recv1|);
        && imInterested
        && if queue == [] then log == log1 && recv == recv1 && reqs == []
           else
             && log == log1 + Delivered(SentRequest(Fit(queue[0], pieceLen)), sent)
             && recv == recv1[Fit(queue[0], pieceLen) := tick] && reqs == queue[1..]
    }

    /** The part of a period for a peer that can be contacted. */
    method Converse(offered: seq<Block>, served: Send, sent: Send)
      requires Valid()
      modifies this`peerReqs, this`peerChoking, this`reqs, this`recv, this`log, this`imInterested
      ensures Consistent() && (Valid() <==> AllStraight(recv.Keys))
      ensures (forall b :: b in old(reqs) + offered ==> Straight(Fit(b, pieceLen))) ==> Valid()
      ensures peerChoking == (old(peerChoking) && !old(peerInterested && imChoking))
      ensures peerReqs == if old(peerReqs) == [] then old(peerReqs) else old(peerReqs)[1..]
      ensures Asked(old(log) + ToPeer(old(peerReqs), served), old(recv), old(reqs), old(imInterested), offered, sent)
      ensures forall b :: b in recv ==> (b in old(recv) && recv[b] == old(recv)[b]) || recv[b] == tick
      ensures forall b :: b in old(recv) ==> b in recv
    {
      hide Accounted, NoDuplicates, Fit, Straight, Acceptable, Polled, Delivered, Asked;
      ServePeer(served);
      assert log == old(log) + ToPeer(old(peerReqs), served);
      if peerInterested {
        if imChoking {
          Unchoke();
        }
      }
      SeekBlocks(offered, sent);
    }

    /** Ask for one queued block if we are interested and not choked, else say we are interested. */
    method SeekBlocks(offered: seq<Block>, send: Send)
      requires Valid()
      modifies this`reqs, this`recv, this`log, this`imInterested
      ensures Consistent() && (Valid() <==> AllStraight(recv.Keys))
      ensures (forall b :: b in old(reqs) + offered ==> Straight(Fit(b, pieceLen))) ==> Valid()
      ensures Asked(old(log), old(recv), old(reqs), old(imInterested), offered, send)
      ensures forall b :: b in recv ==> (b in old(recv) && recv[b] == old(recv)[b]) || recv[b] == tick
      ensures forall b :: b in old(recv) ==> b in recv
    {
      PolledAmong(offered, |recv|);
      hide Accounted, NoDuplicates, Fit, Straight, Polled, Delivered, Acceptable;
      if imInterested {
        if peerChoking {
          return;
        }
        PollBlocks(offered);
        if 0 < |reqs| {
          var b := reqs[0];
          reqs := reqs[1..];
          assert b in old(reqs) + offered;
          RequestBlock(b, send);
        }
      } else {
        imInterested := SendChange(INTERESTED, send);
      }
    }

    /** The poll callback is called once for every free place; each call may queue a block. */
    method PollBlocks(offered: seq<Block>)
      modifies this`reqs
      ensures reqs == old(reqs) + Polled(offered, |recv|)
    {
      var end := PIPELINE - |recv|;
      var ii := 0;
      while ii < end
        invariant 0 <= ii <= if end < 0 then 0 else end
        invariant reqs == old(reqs) + if ii <= |offered| then offered[..ii] else offered
      {
        if ii < |offered| {
          reqs := reqs + [offered[ii]];
        }
        ii := ii + 1;
      }
    }

    /** Send one block that the peer asked for. */
    method ServePeer(send: Send)
      requires Valid()
      modifies this`peerReqs, this`log
      ensures Valid()
      ensures old(peerReqs) == [] ==> peerReqs == [] && log == old(log)
      ensures old(peerReqs) != [] ==>
        peerReqs == old(peerReqs)[1..] && log == old(log) + Delivered(SentPiece(old(peerReqs)[0]), send)
    {
      if 0 < |peerReqs| {
        var b := peerReqs[0];
        peerReqs := peerReqs[1..];
        AccountedStep(log, recv, Delivered(SentPiece(b), send), recv);
        log := log + Delivered(SentPiece(b), send);
      }
    }
  }

  /** Requests that are kept on their way to the peer. */
  const PIPELINE: int := 10

  /** The blocks that are queued when that many requests are pending: one for each free place, if the source of
      blocks has as many. */
  function Polled(offered: seq<Block>, pending: nat): seq<Block> {
    if pending >= PIPELINE then []
    else if |offered| <= PIPELINE - pending then offered
    else offered[..PIPELINE - pending]
  }

  lemma PolledAmong(offered: seq<Block>, pending: nat)
    ensures forall b :: b in Polled(offered, pending) ==> b in offered
  {
  }

  /** The first of the offered blocks, as many as ten pending requests leave room for. */
  lemma PolledFirst(offered: seq<Block>, pending: nat)
    ensures Polled(offered, pending) <= offered
    ensures pending + |Polled(offered, pending)| <= 10 || Polled(offered, pending) == []
    ensures Polled(offered, pending) == offered || pending + |Polled(offered, pending)| >= 10
  {
  }

  /** A failed send disconnects after the message, a missing callback sends nothing. */
  lemma SendOutcomes(e: Event)
    ensures Delivered(e, NoCallback) == [] && Delivered(e, Sent) == [e] && Delivered(e, Failed) == [e, Disconnected]
  {
  }

  lemma ReceivedAccounted(log: seq<Event>, before: Pending, pb: Block, after: Pending)
    requires Accounted(log, before) && KeepsRest(before, pb, after)
    ensures Accounted(log + [PushedBlock(pb)], after)
  {
    hide Accounted;
    forall piece, x | Covered(before, piece, x)
      ensures Covered(after, piece, x) || exists j :: 0 <= j < 1 && Settles([PushedBlock(pb)][j], piece, x)
    {
      if Covers(pb, piece, x) { assert Settles([PushedBlock(pb)][0], piece, x); }
    }
    AccountedStep(log, before, [PushedBlock(pb)], after);
  }

  lemma GivenBackAccounted(log: seq<Event>, recv: Pending, rem: set<Block>, more: seq<Event>)
    requires Accounted(log, recv) && AllGivenBack(rem, more)
    ensures Accounted(log + more, recv - rem)
  {
    forall piece, x | Covered(recv, piece, x)
      ensures Covered(recv - rem, piece, x) || exists j :: 0 <= j < |more| && Settles(more[j], piece, x)
    {
      var k :| k in recv && Covers(k, piece, x);
      if k in rem {
        var j :| 0 <= j < |more| && more[j] == GaveBack(k);
        assert Settles(more[j], piece, x);
      } else {
        assert k in recv - rem;
      }
    }
    forall j | 0 <= j < |more| ensures !more[j].SentRequest? {
      assert more[j] in more;
    }
    AccountedStep(log, recv, more, recv - rem);
  }

  /** What is pending after one request of the loop. */
  function Reduced(m: Pending, r: Block, t: int, pb: Block): Pending {
    if Touched(r, pb) then (m - {r}) + map k | k in Remnants(r, pb) :: t else m
  }

  lemma OthersStay(m: Pending, r: Block, t: int, pb: Block)
    ensures m.Keys - {r} <= Reduced(m, r, t, pb).Keys
  {
    hide Remnants;
  }

  lemma ReducedNone(m: Pending, r: Block, t: int, pb: Block)
    requires Eaten(r, pb)
    ensures Reduced(m, r, t, pb) == m - {r}
  {
  }

  lemma ReducedOne(m: Pending, r: Block, t: int, pb: Block, k: Block)
    requires Parts(r, pb) == [k]
    ensures Reduced(m, r, t, pb) == (m - {r})[k := t]
  {
    hide Parts;
  }

  lemma ReducedTwo(m: Pending, r: Block, t: int, pb: Block, n: Block, k: Block)
    requires Parts(r, pb) == [n, k]
    ensures Reduced(m, r, t, pb) == (m[n := t] - {r})[k := t]
  {
    hide Parts;
  }

  lemma KeepsRestStep(start: Pending, pb: Block, now: Pending, r: Block)
    requires KeepsRest(start, pb, now) && r in start && Straight(r)
    ensures KeepsRest(start, pb, Reduced(now, r, start[r], pb))
  {
    hide Remnants, Parts, Eaten;
    var after := Reduced(now, r, start[r], pb);
    if Touched(r, pb) {
      forall k | k in after ensures Straight(k) && exists q :: q in start && after[k] == start[q] {
        if k in Remnants(r, pb) { RemnantStraight(r, pb, k); }
      }
      forall piece, x | Covered(start, piece, x) && !Covers(pb, piece, x) ensures Covered(after, piece, x) {
        var k :| k in now && Covers(k, piece, x);
        if k == r {
          RemnantsKeep(r, pb, piece, x);
          var l :| l in Remnants(r, pb) && Covers(l, piece, x);
          assert l in after;
        } else {
          assert k in after;
        }
      }
    }
  }

  /** The requests in `done` have been visited. */
  ghost predicate PartlySubtracted(start: Pending, pb: Block, done: set<Block>, now: Pending) {
    && done <= start.Keys
    && (forall k :: k in now <==> k in start.Keys - done || Remains(done, pb, k))
    && (forall k :: k in now ==>
          || (k in start.Keys - done && now[k] == start[k])
          || exists r :: r in done && k in Remnants(r, pb) && now[k] == start[r])
  }

  lemma OneStraight(s: set<Block>, b: Block)
    requires AllStraight(s) && b in s
    ensures Straight(b)
  {
  }

  lemma PartlyStart(start: Pending, pb: Block)
    ensures PartlySubtracted(start, pb, {}, start)
    ensures AllStraight(start.Keys) ==> KeepsRest(start, pb, start)
  {
  }

  lemma PartlyDone(start: Pending, pb: Block, now: Pending)
    requires PartlySubtracted(start, pb, start.Keys, now)
    ensures Subtracted(start, pb, now)
  {
    hide Remnants;
  }

  lemma RemainsWith(done: set<Block>, pb: Block, r: Block)
    ensures forall k :: Remains(done + {r}, pb, k) <==> Remains(done, pb, k) || k in Remnants(r, pb)
  {
    hide Remnants;
    forall k ensures Remains(done + {r}, pb, k) <==> Remains(done, pb, k) || k in Remnants(r, pb) {
      if k in Remnants(r, pb) { assert r in done + {r}; }
      if Remains(done, pb, k) {
        var q :| q in done && k in Remnants(q, pb);
        assert q in done + {r};
      }
    }
  }

  lemma ReducedStep(start: Pending, pb: Block, done: set<Block>, now: Pending, r: Block)
    requires AllStraight(start.Keys) && Straight(pb)
    requires PartlySubtracted(start, pb, done, now) && r in start.Keys - done
    ensures PartlySubtracted(start, pb, done + {r}, Reduced(now, r, start[r], pb))
  {
    TouchedWhenCut(r, pb);
    hide Remnants, Straight, Touched;
    var after := Reduced(now, r, start[r], pb);
    RemainsWith(done, pb, r);
    if r !in Remnants(r, pb) && Remains(done, pb, r) {
      var q :| q in done && r in Remnants(q, pb);
      RemnantShape(q, pb, r);
    }
    forall k | k in after
      ensures || (k in start.Keys - (done + {r}) && after[k] == start[k])
              || exists q :: q in done + {r} && k in Remnants(q, pb) && after[k] == start[q]
    {
      if k in Remnants(r, pb) && after[k] == start[r] {
        assert r in done + {r};
      } else {
        assert k in now && after[k] == now[k];
        if exists q :: q in done && k in Remnants(q, pb) && now[k] == start[q] {
          var q :| q in done && k in Remnants(q, pb) && now[k] == start[q];
          assert q in done + {r};
        }
      }
    }
  }
}
