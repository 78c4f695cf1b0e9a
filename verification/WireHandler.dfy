/** The message handler object of pwp_msghandler.c: consumes whole runs of bytes at a time. */
module WireHandler {
  import opened Common
  import opened WireFormat
  import opened WireMachine

  /** Calls into the connection. */
  datatype Call = Told(s: Signal) | Pushed(piece: u32, offset: u32, data: seq<byte>)

  function Expand(calls: seq<Call>): seq<Signal> {
    if calls == [] then []
    else Expand(calls[..|calls| - 1]) + ExpandCall(calls[|calls| - 1])
  }

  function ExpandCall(c: Call): seq<Signal> {
    match c
    case Told(s) => [s]
    case Pushed(piece, offset, data) => PieceBytes(piece, offset, data)
  }

  lemma ExpandSnoc(calls: seq<Call>, c: Call)
    ensures Expand(calls + [c]) == Expand(calls) + ExpandCall(c)
  {
    assert (calls + [c])[..|calls|] == calls;
  }

  lemma NothingExpanded()
    ensures Expand([]) == []
  {
  }

  // ---------------------------------------------------------------------------------
  // Blocks of more than INT_MAX bytes

  /**
   * Somewhere in the buffer more than `INT_MAX` bytes of a block are followed by more bytes. The code moves its buffer
   * pointer by the size of a part as an `int`, here backwards, and reads on from there.
   */
  predicate Astray(s: State, bytes: seq<byte>)
    requires Wf(s)
    decreases |bytes|
  {
    bytes != [] &&
    ((s.AtPiece? && INT_MAX < s.rem < |bytes|)
     || (Step(s, bytes[0]).status == Ok && Astray(Step(s, bytes[0]).s, bytes[1..])))
  }

  /** The same for the buffers of a run. */
  predicate AstrayAll(s: State, bufs: seq<seq<byte>>)
    requires Wf(s)
    decreases |bufs|
  {
    bufs != [] &&
    (Astray(s, bufs[0]) || (Run(s, bufs[0]).status == Ok && AstrayAll(Run(s, bufs[0]).s, bufs[1..])))
  }

  lemma {:induction false} ShortNotAstray(s: State, bytes: seq<byte>)
    requires Wf(s) && |bytes| <= INT_MAX
    ensures !Astray(s, bytes)
    decreases |bytes|
  {
    if bytes != [] { ShortNotAstray(Step(s, bytes[0]).s, bytes[1..]); }
  }

  /** Buffers of at most `INT_MAX` bytes are read to their end. */
  lemma {:induction false} ShortBuffersNotAstray(s: State, bufs: seq<seq<byte>>)
    requires Wf(s) && forall b :: b in bufs ==> |b| <= INT_MAX
    ensures !AstrayAll(s, bufs)
    decreases |bufs|
  {
    if bufs != [] {
      ShortNotAstray(s, bufs[0]);
      ShortBuffersNotAstray(Run(s, bufs[0]).s, bufs[1..]);
    }
  }

  /** A block of 2^31 bytes and one more byte, in one buffer. */
  lemma LongBlockStrays(bytes: seq<byte>)
    requires |bytes| == 0x8000_0001
    ensures Astray(AtPiece(0, 0, 0x8000_0000), bytes)
  {
  }

  lemma AstrayByte(s: State, b: byte, rest: seq<byte>)
    requires Wf(s) && !s.AtPiece?
    ensures Astray(s, [b] + rest) <==> Step(s, b).status == Ok && Astray(Step(s, b).s, rest)
  {
    assert ([b] + rest)[1..] == rest;
  }

  /** A part of a block that ends the block, or that the buffer ends with. */
  lemma {:induction false} AstrayPiece(piece: u32, offset: u32, rem: u32, data: seq<byte>, rest: seq<byte>)
    requires |data| <= rem && (rest == [] || (|data| == rem && rem <= INT_MAX))
    ensures Astray(AtPiece(piece, offset, rem), data + rest) <==> rest != [] && Astray(START, rest)
    decreases |data|
  {
    var s := AtPiece(piece, offset, rem);
    if data == [] {
      assert data + rest == rest;
    } else {
      var t := Step(s, data[0]).s;
      assert data + rest == [data[0]] + (data[1..] + rest);
      assert (data + rest)[1..] == data[1..] + rest;
      if rem == 1 {
        assert data[1..] + rest == rest;
      } else {
        AstrayPiece(piece, t.offset, rem - 1, data[1..], rest);
      }
    }
  }

  /** Fewer bytes than complete the number, or all. */
  lemma {:induction false} AstrayLength(tok: seq<byte>, chunk: seq<byte>, rest: seq<byte>)
    requires |tok| < 4 && |tok| + |chunk| <= 4
    ensures |tok| + |chunk| < 4 ==> (Astray(AtLength(tok), chunk + rest) <==> Astray(AtLength(tok + chunk), rest))
    ensures |tok| + |chunk| == 4 ==>
              var n := ReadU32(tok + chunk);
              (Astray(AtLength(tok), chunk + rest) <==> Astray(if n == 0 then START else AtType(n), rest))
    decreases |chunk|
  {
    if chunk == [] {
      assert chunk + rest == rest && tok + chunk == tok;
    } else {
      assert chunk + rest == [chunk[0]] + (chunk[1..] + rest);
      AstrayByte(AtLength(tok), chunk[0], chunk[1..] + rest);
      assert tok + chunk == tok + [chunk[0]] + chunk[1..];
      if |tok| + 1 < 4 {
        AstrayLength(tok + [chunk[0]], chunk[1..], rest);
      } else {
        assert chunk[1..] + rest == rest && tok + [chunk[0]] == tok + chunk;
      }
    }
  }

  lemma {:induction false} AstrayField(kind: Kind, len: u32, done: seq<u32>, tok: seq<byte>, chunk: seq<byte>,
                                       rest: seq<byte>)
    requires |done| < FieldCount(kind) && |tok| < 4 && |tok| + |chunk| <= 4
    ensures |tok| + |chunk| < 4 ==>
      (Astray(AtField(kind, len, done, tok), chunk + rest) <==> Astray(AtField(kind, len, done, tok + chunk), rest))
    ensures |tok| + |chunk| == 4 ==>
      var r := FieldDone(kind, len, done + [ReadU32(tok + chunk)]);
      (Astray(AtField(kind, len, done, tok), chunk + rest) <==> Astray(r.s, rest))
    decreases |chunk|
  {
    if chunk == [] {
      assert chunk + rest == rest && tok + chunk == tok;
    } else {
      assert chunk + rest == [chunk[0]] + (chunk[1..] + rest);
      AstrayByte(AtField(kind, len, done, tok), chunk[0], chunk[1..] + rest);
      assert tok + chunk == tok + [chunk[0]] + chunk[1..];
      if |tok| + 1 < 4 {
        AstrayField(kind, len, done, tok + [chunk[0]], chunk[1..], rest);
      } else {
        assert chunk[1..] + rest == rest && tok + [chunk[0]] == tok + chunk;
      }
    }
  }

  // ---------------------------------------------------------------------------------
  // Runs of bytes

  lemma {:induction false} LengthChunk(tok: seq<byte>, chunk: seq<byte>, rest: seq<byte>)
    requires |tok| < 4 && |tok| + |chunk| <= 4
    ensures |tok| + |chunk| < 4 ==> Run(AtLength(tok), chunk + rest) == Run(AtLength(tok + chunk), rest)
    ensures |tok| + |chunk| == 4 ==>
              var n := ReadU32(tok + chunk);
              Run(AtLength(tok), chunk + rest) ==
                if n == 0 then Then([KeepAlive, EndMsg], Run(START, rest)) else Run(AtType(n), rest)
    decreases |chunk|
  {
    if chunk == [] {
      assert chunk + rest == rest && tok + chunk == tok;
    } else {
      var b := chunk[0];
      assert chunk + rest == [b] + (chunk[1..] + rest);
      RunByte(AtLength(tok), b, chunk[1..] + rest);
      assert tok + chunk == tok + [b] + chunk[1..];
      if |tok| + 1 < 4 {
        LengthChunk(tok + [b], chunk[1..], rest);
        ThenNothing(Run(AtLength(tok + [b]), chunk[1..] + rest));
      } else {
        assert chunk[1..] + rest == rest;
        assert tok + [b] == tok + chunk;
        if ReadU32(tok + chunk) != 0 { ThenNothing(Run(AtType(ReadU32(tok + chunk)), rest)); }
      }
    }
  }

  /** The state after a whole field. */
  function FieldDone(kind: Kind, len: u32, f: seq<u32>): Result
    requires 0 < |f| <= FieldCount(kind)
  {
    if |f| < FieldCount(kind) then Result(Ok, AtField(kind, len, f, []), []) else Complete(kind, len, f)
  }

  lemma {:induction false} FieldChunk(kind: Kind, len: u32, done: seq<u32>, tok: seq<byte>, chunk: seq<byte>,
                                      rest: seq<byte>)
    requires |done| < FieldCount(kind) && |tok| < 4 && |tok| + |chunk| <= 4
    ensures |tok| + |chunk| < 4 ==>
              Run(AtField(kind, len, done, tok), chunk + rest) == Run(AtField(kind, len, done, tok + chunk), rest)
    ensures |tok| + |chunk| == 4 ==>
              Run(AtField(kind, len, done, tok), chunk + rest)
              == Continue(FieldDone(kind, len, done + [ReadU32(tok + chunk)]), rest)
    decreases |chunk|
  {
    if chunk == [] {
      assert chunk + rest == rest && tok + chunk == tok;
    } else {
      var b := chunk[0];
      assert chunk + rest == [b] + (chunk[1..] + rest);
      RunByte(AtField(kind, len, done, tok), b, chunk[1..] + rest);
      assert tok + chunk == tok + [b] + chunk[1..];
      if |tok| + 1 < 4 {
        FieldChunk(kind, len, done, tok + [b], chunk[1..], rest);
        ThenNothing(Run(AtField(kind, len, done, tok + [b]), chunk[1..] + rest));
      } else {
        assert chunk[1..] + rest == rest;
        assert tok + [b] == tok + chunk;
      }
    }
  }

  /** What a run of `data` in a PIECE with `rem` bytes to come leads to. */
  function PieceAfter(piece: u32, offset: int, rem: u32, data: seq<byte>): Result
    requires |data| <= rem
  {
    if |data| == rem then Result(Ok, START, PieceBytes(piece, offset, data) + [EndMsg])
    else Result(Ok, AtPiece(piece, Wrap(offset + |data|), rem - |data|), PieceBytes(piece, offset, data))
  }

  lemma {:induction false} PieceRun(piece: u32, offset: int, rem: u32, data: seq<byte>)
    requires 0 < |data| <= rem
    ensures Run(AtPiece(piece, Wrap(offset), rem), data) == PieceAfter(piece, offset, rem, data)
    decreases |data|
  {
    var b := data[0];
    var s := AtPiece(piece, Wrap(offset), rem);
    var one := [PieceByte(piece, Wrap(offset), b)];
    assert data == [b] + data[1..];
    if |data| == 1 {
      assert PieceBytes(piece, offset, data) == one;
      var r := PieceAfter(piece, offset, rem, data);
      ReadsByte(s, b, r.s, r.out);
    } else {
      var t := AtPiece(piece, Wrap(offset + 1), rem - 1);
      ReadsByte(s, b, t, one);
      PieceRun(piece, offset + 1, rem - 1, data[1..]);
      var r := PieceAfter(piece, offset + 1, rem - 1, data[1..]);
      ReadsConcat(s, [b], t, one, data[1..], r.s, r.out);
      PieceAfterStep(piece, offset, rem, data);
    }
  }

  lemma PieceAfterStep(piece: u32, offset: int, rem: u32, data: seq<byte>)
    requires 1 < |data| <= rem
    ensures Then([PieceByte(piece, Wrap(offset), data[0])], PieceAfter(piece, offset + 1, rem - 1, data[1..]))
            == PieceAfter(piece, offset, rem, data)
  {
    var one := [PieceByte(piece, Wrap(offset), data[0])];
    var tail := PieceBytes(piece, offset + 1, data[1..]);
    assert one + (tail + [EndMsg]) == one + tail + [EndMsg];
    assert offset + 1 + |data[1..]| == offset + |data|;
  }

  lemma PieceChunk(piece: u32, offset: u32, rem: u32, data: seq<byte>, rest: seq<byte>)
    requires 0 < |data| <= rem
    ensures Run(AtPiece(piece, offset, rem), data + rest) == Continue(PieceAfter(piece, offset, rem, data), rest)
  {
    assert Wrap(offset) == offset;
    PieceRun(piece, offset, rem, data);
    RunConcat(AtPiece(piece, offset, rem), data, rest);
  }

  lemma EmptyPieceChunk(piece: u32, offset: u32, bytes: seq<byte>)
    requires bytes != []
    ensures Run(AtPiece(piece, offset, 0), bytes) == Then([EndMsg], Run(START, bytes))
  {
    var q := StepLength([], bytes[0]);
    ThenThen([EndMsg], q.out, Run(q.s, bytes[1..]));
  }

  // ---------------------------------------------------------------------------------
  // The handler

  /** The function that `process_item` points to. */
  datatype Item =
    | LengthItem | TypeItem | HaveItem | BitfieldItem
    | RequestPiece | RequestOffset | RequestLen
    | CancelPiece | CancelOffset | CancelLen
    | PieceIndex | PieceOffset | PieceData

  class Handler {
    var item: Item
    /** The fields of the message being read. */
    var len: u32
    var bytesRead: nat
    var tok: seq<byte>
    var blk: Block
    var bf: seq<bool>
    /** The calls made so far. */
    var calls: seq<Call>

    ghost predicate Valid()
      reads this
    {
      && |tok| < 4
      && (item == LengthItem ==> bytesRead == |tok|)
      && (item == TypeItem ==> bytesRead == 4 && 0 < len)
      && (item == BitfieldItem ==>
            && 1 < len && 5 <= bytesRead < 4 + len
            && (5 < bytesRead ==> |bf| == 8 * (len - 1))
            && (5 < bytesRead ==> forall i :: 8 * (bytesRead - 5) <= i < |bf| ==> !bf[i]))
    }

    ghost function View(): (s: State)
      requires Valid()
      reads this
      ensures Wf(s)
    {
      match item
      case LengthItem => AtLength(tok)
      case TypeItem => AtType(len)
      case HaveItem => AtField(HaveFields, len, [], tok)
      case RequestPiece => AtField(RequestFields, len, [], tok)
      case RequestOffset => AtField(RequestFields, len, [blk.piece], tok)
      case RequestLen => AtField(RequestFields, len, [blk.piece, blk.offset], tok)
      case CancelPiece => AtField(CancelFields, len, [], tok)
      case CancelOffset => AtField(CancelFields, len, [blk.piece], tok)
      case CancelLen => AtField(CancelFields, len, [blk.piece, blk.offset], tok)
      case PieceIndex => AtField(PieceFields, len, [], tok)
      case PieceOffset => AtField(PieceFields, len, [blk.piece], tok)
      case PieceData => AtPiece(blk.piece, blk.offset, Wrap(len - 9))
      case BitfieldItem => AtBits(len, if bytesRead == 5 then [] else bf[..8 * (bytesRead - 5)])
    }

    constructor ()
      ensures Valid() && View() == START && calls == []
    {
      item, len, bytesRead, tok, blk, bf := LengthItem, 0, 0, [], Block(0, 0, 0), [];
      calls := [];
    }

    method Tell(s: Signal)
      modifies this`calls
      ensures Expand(calls) == Expand(old(calls)) + [s]
    {
      Push(Told(s));
    }

    /** `mh_endmsg` */
    method EndMessage()
      modifies this
      ensures Valid() && View() == START && item == LengthItem && Expand(calls) == Expand(old(calls)) + [EndMsg]
    {
      Tell(EndMsg);
      item, len, bytesRead, tok, blk, bf := LengthItem, 0, 0, [], Block(0, 0, 0), [];
    }

    /** Reports a message and ends it. */
    method Finish(s: Signal)
      modifies this
      ensures Valid() && View() == START && Expand(calls) == Expand(old(calls)) + [s, EndMsg]
    {
      hide Expand;
      Tell(s);
      EndMessage();
    }

    /** `mh_uint32` */
    method TakeU32(buf: seq<byte>, pos: nat) returns (done: bool, value: u32, next: nat)
      requires |tok| < 4 && pos < |buf|
      modifies this`tok, this`bytesRead
      ensures pos < next <= |buf| && |old(tok)| + (next - pos) <= 4
      ensures done <==> |old(tok)| + (next - pos) == 4
      ensures done ==> tok == [] && value == ReadU32(old(tok) + buf[pos..next])
      ensures !done ==> tok == old(tok) + buf[pos..next] && next == |buf|
      ensures bytesRead == old(bytesRead) + (next - pos)
    {
      next := pos;
      value := 0;
      while true
        invariant pos <= next <= |buf| && |tok| <= 4
        invariant tok == old(tok) + buf[pos..next] && bytesRead == old(bytesRead) + (next - pos)
        decreases |buf| - next
      {
        if |tok| == 4 {
          value := ReadU32(tok);
          tok := [];
          return true, value, next;
        } else if next == |buf| {
          return false, value, next;
        }
        assert buf[pos..next + 1] == buf[pos..next] + [buf[next]];
        tok := tok + [buf[next]];
        bytesRead := bytesRead + 1;
        next := next + 1;
      }
    }
  
    /** `__pwp_length` */
    method ProcessLength(buf: seq<byte>, pos: nat) returns (next: nat, ghost out: seq<Signal>)
      requires Valid() && item == LengthItem && pos < |buf|
      modifies this
      ensures Valid() && pos < next <= |buf| && Expand(calls) == Expand(old(calls)) + out
      ensures Run(old(View()), buf[pos..]) == Then(out, Run(View(), buf[next..]))
      ensures Astray(old(View()), buf[pos..]) <==> Astray(View(), buf[next..])
    {
      hide Run, ReadU32, Expand, Astray;
      assert bytesRead < 4;
      var done, n;
      done, n, next := TakeU32(buf, pos);
      out := [];
      assert buf[pos..] == buf[pos..next] + buf[next..];
      LengthChunk(old(tok), buf[pos..next], buf[next..]);
      AstrayLength(old(tok), buf[pos..next], buf[next..]);
      if done {
        len := n;
        if len == 0 {
          out := [KeepAlive, EndMsg];
          Finish(KeepAlive);
        } else {
          item := TypeItem;
        }
      }
    }

    /** What the type byte of a message decides. */
    method ApplyType(id: byte) returns (status: Status, ghost out: seq<Signal>)
      requires Valid() && item == TypeItem
      modifies this
      ensures Expand(calls) == Expand(old(calls)) + out
      ensures status == StepType(old(len), id).status && out == StepType(old(len), id).out
      ensures status != Abort ==> Valid() && View() == StepType(old(len), id).s
    {
      bytesRead := bytesRead + 1;
      status := Ok;
      out := [];
      if len == 1 {
        if id <= UNINTERESTED {
          out := [Changed(id), EndMsg];
          Finish(Changed(id));
        } else {
          status := Abort;
        }
      } else if CANCEL + 1 < id {
        EndMessage();
        out := [EndMsg];
        status := Bad;
      } else if id in {HAVE, BITFIELD, REQUEST, PIECE, CANCEL} {
        tok := [];
        item := if id == HAVE then HaveItem else if id == BITFIELD then BitfieldItem
                else if id == REQUEST then RequestPiece else if id == PIECE then PieceIndex else CancelPiece;
      } else {
        status := Abort;
      }
    }

    /** `__pwp_type` */
    method ProcessType(buf: seq<byte>, pos: nat) returns (status: Status, next: nat, ghost out: seq<Signal>)
      requires Valid() && item == TypeItem && pos < |buf|
      modifies this
      ensures next == pos + 1 && Expand(calls) == Expand(old(calls)) + out
      ensures status == Ok ==> Valid() && Run(old(View()), buf[pos..]) == Then(out, Run(View(), buf[next..]))
      ensures status == Bad ==> Valid() && Run(old(View()), buf[pos..]) == Result(Bad, View(), out)
      ensures status == Abort ==> Run(old(View()), buf[pos..]) == Result(Abort, old(View()), out)
      ensures Astray(old(View()), buf[pos..]) <==> status == Ok && Astray(View(), buf[next..])
    {
      next := pos + 1;
      assert buf[pos..] == [buf[pos]] + buf[next..];
      RunByte(AtType(len), buf[pos], buf[next..]);
      AstrayByte(AtType(len), buf[pos], buf[next..]);
      AbortKeeps(len, buf[pos]);
      assert Step(AtType(len), buf[pos]) == StepType(len, buf[pos]);
      hide Run, Step, StepType, Astray;
      status, out := ApplyType(buf[pos]);
    }

    /** `__pwp_have` */
    method ProcessHave(buf: seq<byte>, pos: nat) returns (next: nat, ghost out: seq<Signal>)
      requires Valid() && item == HaveItem && pos < |buf|
      modifies this
      ensures Valid() && pos < next <= |buf| && Expand(calls) == Expand(old(calls)) + out
      ensures Run(old(View()), buf[pos..]) == Then(out, Run(View(), buf[next..]))
      ensures Astray(old(View()), buf[pos..]) <==> Astray(View(), buf[next..])
    {
      hide Run, ReadU32, Expand, Astray;
      var done, n;
      done, n, next := TakeU32(buf, pos);
      out := [];
      assert buf[pos..] == buf[pos..next] + buf[next..];
      FieldChunk(HaveFields, len, [], old(tok), buf[pos..next], buf[next..]);
      AstrayField(HaveFields, len, [], old(tok), buf[pos..next], buf[next..]);
      if done {
        out := [Has(n), EndMsg];
        Finish(Has(n));
      }
    }

    /** `__pwp_request_pieceidx`, `__pwp_cancel_pieceidx`, `__pwp_piece_pieceidx` */
    method ProcessFirstField(buf: seq<byte>, pos: nat) returns (next: nat)
      requires Valid() && item in {RequestPiece, CancelPiece, PieceIndex} && pos < |buf|
      modifies this
      ensures Valid() && pos < next <= |buf| && calls == old(calls)
      ensures Run(old(View()), buf[pos..]) == Run(View(), buf[next..])
      ensures Astray(old(View()), buf[pos..]) <==> Astray(View(), buf[next..])
    {
      hide Run, ReadU32, Expand, Astray;
      ghost var kind := View().kind;
      var done, n;
      done, n, next := TakeU32(buf, pos);
      assert buf[pos..] == buf[pos..next] + buf[next..];
      FieldChunk(kind, len, [], old(tok), buf[pos..next], buf[next..]);
      AstrayField(kind, len, [], old(tok), buf[pos..next], buf[next..]);
      if done {
        blk := blk.(piece := n);
        item := match item
          case RequestPiece => RequestOffset
          case CancelPiece => CancelOffset
          case _ => PieceOffset;
        FieldAdvances(kind, len, [], n, buf[next..]);
      }
    }

    /** `__pwp_request_offset`, `__pwp_cancel_offset` */
    method ProcessOffset(buf: seq<byte>, pos: nat) returns (next: nat)
      requires Valid() && (item == RequestOffset || item == CancelOffset) && pos < |buf|
      modifies this
      ensures Valid() && pos < next <= |buf| && calls == old(calls)
      ensures Run(old(View()), buf[pos..]) == Run(View(), buf[next..])
      ensures Astray(old(View()), buf[pos..]) <==> Astray(View(), buf[next..])
    {
      hide Run, ReadU32, Expand, Astray;
      ghost var kind := View().kind;
      var done, n;
      done, n, next := TakeU32(buf, pos);
      assert buf[pos..] == buf[pos..next] + buf[next..];
      FieldChunk(kind, len, [blk.piece], old(tok), buf[pos..next], buf[next..]);
      AstrayField(kind, len, [blk.piece], old(tok), buf[pos..next], buf[next..]);
      if done {
        FieldAdvances(kind, len, [blk.piece], n, buf[next..]);
        blk := blk.(offset := n);
        item := if item == RequestOffset then RequestLen else CancelLen;
        assert View() == AtField(kind, len, [blk.piece, n], []);
      } else {
        assert View() == AtField(kind, len, [blk.piece], tok);
      }
    }

    /** `__pwp_piece_offset` */
    method ProcessPieceOffset(buf: seq<byte>, pos: nat) returns (next: nat)
      requires Valid() && item == PieceOffset && pos < |buf|
      modifies this
      ensures Valid() && pos < next <= |buf| && calls == old(calls)
      ensures Run(old(View()), buf[pos..]) == Run(View(), buf[next..])
      ensures Astray(old(View()), buf[pos..]) <==> Astray(View(), buf[next..])
    {
      hide Run, ReadU32, Expand, Astray;
      var done, n;
      done, n, next := TakeU32(buf, pos);
      assert buf[pos..] == buf[pos..next] + buf[next..];
      FieldChunk(PieceFields, len, [blk.piece], old(tok), buf[pos..next], buf[next..]);
      AstrayField(PieceFields, len, [blk.piece], old(tok), buf[pos..next], buf[next..]);
      if done {
        FieldAdvances(PieceFields, len, [blk.piece], n, buf[next..]);
        blk := blk.(offset := n);
        item := PieceData;
        assert View() == AtPiece(blk.piece, n, Wrap(len - 9));
      } else {
        assert View() == AtField(PieceFields, len, [blk.piece], tok);
      }
    }

    /** `__pwp_request_len` */
    method ProcessRequestLen(buf: seq<byte>, pos: nat) returns (next: nat, ghost out: seq<Signal>)
      requires Valid() && item == RequestLen && pos < |buf|
      modifies this
      ensures Valid() && pos < next <= |buf| && Expand(calls) == Expand(old(calls)) + out
      ensures Run(old(View()), buf[pos..]) == Then(out, Run(View(), buf[next..]))
      ensures Astray(old(View()), buf[pos..]) <==> Astray(View(), buf[next..])
    {
      hide Run, ReadU32, Expand, Astray;
      var done, n;
      done, n, next := TakeU32(buf, pos);
      out := [];
      assert buf[pos..] == buf[pos..next] + buf[next..];
      FieldChunk(RequestFields, len, [blk.piece, blk.offset], old(tok), buf[pos..next], buf[next..]);
      AstrayField(RequestFields, len, [blk.piece, blk.offset], old(tok), buf[pos..next], buf[next..]);
      if done {
        FieldAdvances(RequestFields, len, [blk.piece, blk.offset], n, buf[next..]);
        blk := blk.(len := n);
        out := [Requested(blk), EndMsg];
        Finish(Requested(blk));
      } else {
        assert View() == AtField(RequestFields, len, [blk.piece, blk.offset], tok);
      }
    }

    /** `__pwp_cancel_len` */
    method ProcessCancelLen(buf: seq<byte>, pos: nat) returns (next: nat, ghost out: seq<Signal>)
      requires Valid() && item == CancelLen && pos < |buf|
      modifies this
      ensures Valid() && pos < next <= |buf| && Expand(calls) == Expand(old(calls)) + out
      ensures Run(old(View()), buf[pos..]) == Then(out, Run(View(), buf[next..]))
      ensures Astray(old(View()), buf[pos..]) <==> Astray(View(), buf[next..])
    {
      hide Run, ReadU32, Expand, Astray;
      var done, n;
      done, n, next := TakeU32(buf, pos);
      out := [];
      assert buf[pos..] == buf[pos..next] + buf[next..];
      FieldChunk(CancelFields, len, [blk.piece, blk.offset], old(tok), buf[pos..next], buf[next..]);
      AstrayField(CancelFields, len, [blk.piece, blk.offset], old(tok), buf[pos..next], buf[next..]);
      if done {
        FieldAdvances(CancelFields, len, [blk.piece, blk.offset], n, buf[next..]);
        blk := blk.(len := n);
        out := [Cancelled(blk), EndMsg];
        Finish(Cancelled(blk));
      } else {
        assert View() == AtField(CancelFields, len, [blk.piece, blk.offset], tok);
      }
    }

    /** `__pwp_piece_data`: passes on whatever part of the block has arrived. The buffer pointer goes astray if the
        part is longer than `INT_MAX` and not the end of the buffer. */
    method ProcessPieceData(buf: seq<byte>, pos: nat) returns (next: nat, astray: bool, ghost out: seq<Signal>)
      requires Valid() && item == PieceData && pos < |buf|
      modifies this
      ensures Valid() && pos <= next <= |buf| && (next == pos ==> item != PieceData)
      ensures Expand(calls) == Expand(old(calls)) + out
      ensures Run(old(View()), buf[pos..]) == Then(out, Run(View(), buf[next..]))
      ensures astray <==> INT_MAX < Wrap(old(len) - 9) < |buf| - pos
      ensures Astray(old(View()), buf[pos..]) <==> astray || Astray(View(), buf[next..])
    {
      hide Run, ReadU32, Wrap, PieceBytes, Astray, Expand;
      var rem := Wrap(len - 9);
      var size := if |buf| - pos < rem then |buf| - pos else rem;
      var data := buf[pos..pos + size];
      next := pos + size;
      assert |data| == size && buf[pos..] == data + buf[next..];
      PieceArrives(blk, len, data, buf[pos..], buf[next..]);
      astray := INT_MAX < size && next < |buf|;
      PieceStrays(blk, rem, data, buf[next..], astray);
      WrapStep(len, size);
      out := TakePart(data);
    }

    /** Passes a part of a block on and advances by it. */
    method TakePart(data: seq<byte>) returns (ghost out: seq<Signal>)
      requires Valid() && item == PieceData
      modifies this
      ensures Valid() && Expand(calls) == Expand(old(calls)) + out
      ensures var left := Wrap(old(len) - |data|);
        && out == PieceBytes(old(blk).piece, old(blk).offset, data) + (if left == 9 then [EndMsg] else [])
        && item == (if left == 9 then LengthItem else PieceData)
        && View() ==
           if left == 9 then START else AtPiece(old(blk).piece, Wrap(old(blk).offset + |data|), Wrap(left - 9))
    {
      hide Expand, PieceBytes;
      var size := |data|;
      var left, offset := Wrap(len - size), Wrap(blk.offset + size);
      out := PieceBytes(blk.piece, blk.offset, data) + if left == 9 then [EndMsg] else [];
      Push(Pushed(blk.piece, blk.offset, data));
      len := left;
      blk := blk.(offset := offset);
      if len == 9 {
        EndMessage();
      }
    }

    /** Record a call. */
    method Push(c: Call)
      modifies this`calls
      ensures Expand(calls) == Expand(old(calls)) + ExpandCall(c)
    {
      ExpandSnoc(calls, c);
      calls := calls + [c];
    }

    /** What one byte of a bit field does. */
    method ApplyBits(val: byte, ghost bits: seq<bool>) returns (ghost out: seq<Signal>)
      requires Valid() && item == BitfieldItem && View() == AtBits(len, bits)
      modifies this
      ensures Valid() && Expand(calls) == Expand(old(calls)) + out
      ensures StepBits(old(len), bits, val) == Result(Ok, View(), out)
    {
      hide UnpackByte, Expand;
      if bytesRead == 5 {
        bf := seq(8 * (len - 1), _ => false);
      }
      bytesRead := bytesRead + 1;
      MarkByte(val, bits);
      out := [];
      if 4 + len == bytesRead {
        assert bf == bits + UnpackByte(val);
        out := [Field(bits + UnpackByte(val)), EndMsg];
        Finish(Field(bf));
      } else {
        assert bf[..8 * (bytesRead - 5)] == bits + UnpackByte(val);
      }
    }

    /** `__pwp_bitfield` */
    method ProcessBitfield(buf: seq<byte>, pos: nat) returns (next: nat, ghost out: seq<Signal>)
      requires Valid() && item == BitfieldItem && pos < |buf|
      modifies this
      ensures Valid() && next == pos + 1 && Expand(calls) == Expand(old(calls)) + out
      ensures Run(old(View()), buf[pos..]) == Then(out, Run(View(), buf[next..]))
      ensures Astray(old(View()), buf[pos..]) <==> Astray(View(), buf[next..])
    {
      ghost var s := View();
      next := pos + 1;
      assert buf[pos..] == [buf[pos]] + buf[next..];
      RunByte(s, buf[pos], buf[next..]);
      AstrayByte(s, buf[pos], buf[next..]);
      assert Step(s, buf[pos]) == StepBits(len, s.bits, buf[pos]);
      hide Run, Step, StepBits, Expand, Astray;
      out := ApplyBits(buf[pos], s.bits);
    }

    /** One call of `process_item`. */
    method ProcessItem(buf: seq<byte>, pos: nat)
      returns (status: Status, next: nat, astray: bool, ghost out: seq<Signal>)
      requires Valid() && pos < |buf|
      modifies this
      ensures pos <= next <= |buf| && Expand(calls) == Expand(old(calls)) + out
      ensures status == Ok ==> Valid() && Run(old(View()), buf[pos..]) == Then(out, Run(View(), buf[next..]))
      ensures status == Ok && next == pos ==> old(item) == PieceData && item != PieceData
      ensures status == Bad ==> Valid() && Run(old(View()), buf[pos..]) == Result(Bad, View(), out)
      ensures status == Abort ==> Run(old(View()), buf[pos..]) == Result(Abort, old(View()), out)
      ensures astray ==> status == Ok
      ensures Astray(old(View()), buf[pos..]) <==> status == Ok && (astray || Astray(View(), buf[next..]))
    {
      hide Run, ReadU32, Expand, Astray;
      status := Ok;
      out := [];
      astray := false;
      match item {
        case LengthItem => next, out := ProcessLength(buf, pos);
        case TypeItem => status, next, out := ProcessType(buf, pos);
        case HaveItem => next, out := ProcessHave(buf, pos);
        case BitfieldItem => next, out := ProcessBitfield(buf, pos);
        case RequestPiece => next := ProcessFirstField(buf, pos);
        case CancelPiece => next := ProcessFirstField(buf, pos);
        case PieceIndex => next := ProcessFirstField(buf, pos);
        case RequestOffset => next := ProcessOffset(buf, pos);
        case CancelOffset => next := ProcessOffset(buf, pos);
        case PieceOffset => next := ProcessPieceOffset(buf, pos);
        case RequestLen => next, out := ProcessRequestLen(buf, pos);
        case CancelLen => next, out := ProcessCancelLen(buf, pos);
        case PieceData => next, astray, out := ProcessPieceData(buf, pos);
      }
      if status == Ok { ThenNothing(Run(View(), buf[next..])); }
    }

    /** `pwp_msghandler_dispatch_from_buffer`: unless the buffer pointer goes astray, the buffer has the effect of
        its bytes one by one. */
    method DispatchFromBuffer(buf: seq<byte>) returns (status: Status, astray: bool)
      requires Valid()
      modifies this
      ensures astray <==> Astray(old(View()), buf)
      ensures !astray ==>
        && status == Run(old(View()), buf).status
        && Expand(calls) == Expand(old(calls)) + Run(old(View()), buf).out
        && (status != Abort ==> Valid() && View() == Run(old(View()), buf).s)
    {
      ghost var start, before := View(), Expand(calls);
      Begun(start, buf, before);
      hide Run, Expand, View, Reached, Astray;
      var pos := 0;
      ghost var told: seq<Signal> := [];
      status, astray := Ok, false;
      while pos < |buf|
        invariant Valid() && 0 <= pos <= |buf| && Reached(start, buf, before, pos, View(), told, Expand(calls))
        invariant !astray && (Astray(start, buf) <==> Astray(View(), buf[pos..]))
        decreases |buf| - pos, if item == PieceData then 1 else 0
      {
        ghost var out, s, p, sofar := [], View(), pos, Expand(calls);
        status, pos, astray, out := ProcessItem(buf, pos);
        if astray {
          return;
        }
        if status != Ok {
          Stopped(start, buf, before, p, s, told, sofar, out, status);
          return;
        }
        GoneOn(start, buf, before, p, s, told, sofar, pos, View(), out);
        told := told + out;
      }
      Finished(start, buf, before, pos, View(), told, Expand(calls));
      NothingAstray(View(), buf[pos..]);
      status := Ok;
    }

    /** Calls with one buffer after the other, up to the first that is not accepted. */
    method DispatchBuffers(bufs: seq<seq<byte>>) returns (status: Status, astray: bool)
      requires Valid()
      modifies this
      ensures astray <==> AstrayAll(old(View()), bufs)
      ensures !astray ==>
        && status == RunAll(old(View()), bufs).status
        && Expand(calls) == Expand(old(calls)) + RunAll(old(View()), bufs).out
        && (status != Abort ==> Valid() && View() == RunAll(old(View()), bufs).s)
    {
      hide Run, Expand, View, Astray;
      var i := 0;
      status, astray := Ok, false;
      ghost var told: seq<Signal> := [];
      assert bufs[0..] == bufs;
      ThenNothing(RunAll(View(), bufs));
      while i < |bufs|
        invariant Valid() && 0 <= i <= |bufs| && Expand(calls) == Expand(old(calls)) + told
        invariant RunAll(old(View()), bufs) == Then(told, RunAll(View(), bufs[i..]))
        invariant !astray && (AstrayAll(old(View()), bufs) <==> AstrayAll(View(), bufs[i..]))
      {
        ghost var s := View();
        assert bufs[i..][0] == bufs[i] && bufs[i..][1..] == bufs[i + 1..];
        status, astray := DispatchFromBuffer(bufs[i]);
        if astray || status != Ok {
          return;
        }
        ThenThen(told, Run(s, bufs[i]).out, RunAll(View(), bufs[i + 1..]));
        told := told + Run(s, bufs[i]).out;
        i := i + 1;
      }
      assert bufs[i..] == [];
      status := Ok;
    }

    /** The loop that marks the bits of a byte. */
    method MarkByte(val: byte, ghost bits: seq<bool>)
      requires 6 <= bytesRead && |bits| == 8 * (bytesRead - 6) && |bits| + 8 <= |bf|
      requires bf[..|bits|] == bits && forall i :: |bits| <= i < |bf| ==> !bf[i]
      modifies this`bf
      ensures |bf| == |old(bf)|
      ensures bf[..|bits| + 8] == bits + UnpackByte(val) && forall i :: |bits| + 8 <= i < |bf| ==> !bf[i]
    {
      var base := (bytesRead - 5 - 1) * 8;
      var ii := 0;
      while ii < 8
        invariant 0 <= ii <= 8 && |bf| == |old(bf)|
        invariant bf[..base] == bits
        invariant forall j :: 0 <= j < ii ==> bf[base + j] == TestBit(val, j)
        invariant forall j :: base + ii <= j < |bf| ==> !bf[j]
      {
        if TestBit(val, ii) {
          bf := bf[base + ii := true];
        }
        ii := ii + 1;
      }
      assert bf[base..base + 8] == UnpackByte(val);
      assert bf[..base + 8] == bf[..base] + bf[base..base + 8];
    }
  }

  lemma RunNothing(s: State)
    requires Wf(s)
    ensures Run(s, []) == Result(Ok, s, [])
  {
  }

  lemma FieldAdvances(kind: Kind, len: u32, done: seq<u32>, n: u32, rest: seq<byte>)
    requires |done| < FieldCount(kind)
    ensures var r := FieldDone(kind, len, done + [n]);
            Continue(FieldDone(kind, len, done + [n]), rest) == Then(r.out, Run(r.s, rest))
    ensures |done| == 0 ==> done + [n] == [n]
    ensures |done| == 1 ==> done + [n] == [done[0], n]
    ensures |done| == 2 ==> done + [n] == [done[0], done[1], n]
    ensures var r := FieldDone(kind, len, done + [n]); r.out == [] ==> Then(r.out, Run(r.s, rest)) == Run(r.s, rest)
  {
  }

  lemma WrapStep(len: u32, size: nat)
    requires size <= Wrap(len - 9)
    ensures Wrap(Wrap(len - size) - 9) == Wrap(len - 9) - size
    ensures Wrap(len - size) == 9 <==> size == Wrap(len - 9)
  {
    if len < 9 {
      assert Wrap(len - 9) == len - 9 + 0x1_0000_0000;
    } else {
      assert Wrap(len - 9) == len - 9;
    }
  }

  lemma PieceStrays(blk: Block, rem: u32, data: seq<byte>, rest: seq<byte>, astray: bool)
    requires |data| <= rem && (rest == [] || |data| == rem) && (astray <==> INT_MAX < |data| && rest != [])
    ensures astray ==> Astray(AtPiece(blk.piece, blk.offset, rem), data + rest)
    ensures !astray ==>
      (Astray(AtPiece(blk.piece, blk.offset, rem), data + rest) <==> rest != [] && Astray(START, rest))
    ensures rest == [] ==> forall s :: Wf(s) ==> !Astray(s, rest)
  {
    if !astray { AstrayPiece(blk.piece, blk.offset, rem, data, rest); }
  }

  lemma PieceArrives(blk: Block, len: u32, data: seq<byte>, all: seq<byte>, rest: seq<byte>)
    requires |data| <= Wrap(len - 9) && all == data + rest && all != [] && (data == [] ==> Wrap(len - 9) == 0)
    ensures var left := Wrap(len - |data|);
            Run(AtPiece(blk.piece, blk.offset, Wrap(len - 9)), all) ==
            Then(PieceBytes(blk.piece, blk.offset, data) + (if left == 9 then [EndMsg] else []),
                 Run(if left == 9 then START else AtPiece(blk.piece, Wrap(blk.offset + |data|), Wrap(left - 9)), rest))
    ensures data == [] ==> Wrap(len - |data|) == 9
  {
    WrapStep(len, |data|);
    var r := PieceAfter(blk.piece, blk.offset, Wrap(len - 9), data);
    if data == [] {
      assert all == rest;
      EmptyPieceChunk(blk.piece, blk.offset, all);
    } else {
      PieceChunk(blk.piece, blk.offset, Wrap(len - 9), data, rest);
    }
    var plain := PieceBytes(blk.piece, blk.offset, data);
    assert plain + [] == plain;
  }

  /** A new handler object that is fed the bytes of some messages in any buffers has been told of all of them, and
      is ready for the next, exactly if no bit field is empty and the last message is not an empty PIECE, unless the
      buffer pointer goes astray. It does not in buffers of at most `INT_MAX` bytes. */
  method Receive(bufs: seq<seq<byte>>, ghost ms: seq<Message>) returns (h: Handler, status: Status, astray: bool)
    requires (forall i :: 0 <= i < |ms| ==> Sendable(ms[i])) && Flatten(bufs) == SendAll(ms)
    ensures fresh(h)
    ensures astray <==> AstrayAll(START, bufs)
    ensures (forall b :: b in bufs ==> |b| <= INT_MAX) ==> !astray
    ensures !astray ==>
      (Prompt(ms) <==> status == Ok && h.Valid() && h.View() == START && Expand(h.calls) == ReportAll(ms))
  {
    hide Run, RunAll, SendAll, ReportAll, Prompt, Sendable, Expand, Flatten, Astray, AstrayAll, Handler.View;
    h := new Handler();
    NothingExpanded();
    status, astray := h.DispatchBuffers(bufs);
    if forall b :: b in bufs ==> |b| <= INT_MAX { ShortBuffersNotAstray(START, bufs); }
    SentIsReceived(ms, bufs);
  }

  /** From `start` the buffer led to `s` at `pos`, after telling `told`; all that was told is now `sofar`. */
  ghost predicate Reached(start: State, buf: seq<byte>, before: seq<Signal>, pos: nat, s: State, told: seq<Signal>,
                          sofar: seq<Signal>) {
    && Wf(start) && Wf(s) && pos <= |buf| && sofar == before + told
    && Run(start, buf) == Then(told, Run(s, buf[pos..]))
  }

  lemma Begun(start: State, buf: seq<byte>, before: seq<Signal>)
    requires Wf(start)
    ensures Reached(start, buf, before, 0, start, [], before) && buf[0..] == buf
  {
    assert buf[0..] == buf;
    ThenNothing(Run(start, buf));
  }

  lemma NothingAstray(s: State, bytes: seq<byte>)
    requires Wf(s) && bytes == []
    ensures !Astray(s, bytes)
  {
  }

  lemma GoneOn(start: State, buf: seq<byte>, before: seq<Signal>, p: nat, s: State, told: seq<Signal>,
               sofar: seq<Signal>, pos: nat, t: State, out: seq<Signal>)
    requires Reached(start, buf, before, p, s, told, sofar) && Wf(t) && pos <= |buf|
    requires Run(s, buf[p..]) == Then(out, Run(t, buf[pos..]))
    ensures Reached(start, buf, before, pos, t, told + out, sofar + out)
  {
    hide Run;
    ThenThen(told, out, Run(t, buf[pos..]));
  }

  lemma Stopped(start: State, buf: seq<byte>, before: seq<Signal>, p: nat, s: State, told: seq<Signal>,
                sofar: seq<Signal>, out: seq<Signal>, status: Status)
    requires Reached(start, buf, before, p, s, told, sofar)
    requires Run(s, buf[p..]).status == status && Run(s, buf[p..]).out == out
    ensures Wf(start) && Run(start, buf).status == status && before + Run(start, buf).out == sofar + out
    ensures Run(start, buf).s == Run(s, buf[p..]).s
  {
    hide Run;
  }

  lemma Finished(start: State, buf: seq<byte>, before: seq<Signal>, pos: nat, s: State, told: seq<Signal>,
                 sofar: seq<Signal>)
    requires Reached(start, buf, before, pos, s, told, sofar) && pos == |buf|
    ensures Wf(start) && Run(start, buf).status == Ok && before + Run(start, buf).out == sofar
    ensures Run(start, buf).s == s
  {
    assert buf[pos..] == [];
    RunNothing(s);
  }

  lemma AbortKeeps(len: u32, b: byte)
    ensures StepType(len, b).status == Abort ==> StepType(len, b).s == AtType(len)
  {
  }
}
