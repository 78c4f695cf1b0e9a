/** What the message handler makes of any bytes at all, one message at a time. */
module WireReader {
  import opened Common
  import opened WireFormat
  import opened WireHandler
  import opened WireMachine

  /** The first message is whole and tells `out`; the input ends inside it and has told `out`; its type is refused; or
      an assertion fails. */
  datatype Reading = Whole(n: nat, out: seq<Signal>) | Part(out: seq<Signal>) | Refused | Stopped

  function Number(b: seq<byte>, at: nat): u32
    requires at + 4 <= |b|
  {
    var x: int, y: int, z: int, w: int := b[at], b[at + 1], b[at + 2], b[at + 3];
    w + 256 * (z + 256 * (y + 256 * x))
  }

  lemma ReadIsBigEndian(b: seq<byte>, at: nat)
    requires at + 4 <= |b|
    ensures ReadU32(b[at..at + 4]) == Number(b, at)
  {
    var w := b[at..at + 4];
    var n := Number(b, at);
    assert w == [b[at], b[at + 1], b[at + 2], b[at + 3]];
    var x: int, y: int, z: int := b[at], b[at + 1], b[at + 2];
    SplitOff(b[at + 3], z + 256 * (y + 256 * x));
    SplitOff(z, y + 256 * x);
    SplitOff(y, x);
    WriteIsBigEndian(n);
    assert WriteU32(n) == w;
    ReadWrite(n);
  }

  function First(b: seq<byte>): (r: Reading)
    ensures r.Whole? ==> 0 < r.n <= |b|
  {
    if |b| < 4 then Part([])
    else if Number(b, 0) == 0 then Whole(4, [KeepAlive, EndMsg])
    else if |b| < 5 then Part([])
    else Message(b, Number(b, 0), b[4])
  }

  /** A message of `len` bytes from its type on. */
  function Message(b: seq<byte>, len: u32, id: byte): (r: Reading)
    requires 5 <= |b| && 0 < len
    ensures r.Whole? ==> 0 < r.n <= |b|
  {
    if len == 1 then if id <= 3 then Whole(5, [Changed(id), EndMsg]) else Stopped
    else if 9 < id then Refused
    else if id == 4 then if |b| < 9 then Part([]) else Whole(9, [Has(Number(b, 5)), EndMsg])
    else if id == 5 then
      if |b| < 4 + len then Part([]) else Whole(4 + len, [Field(UnpackBits(b[5..4 + len])), EndMsg])
    else if id == 6 || id == 8 then
      if |b| < 17 then Part([])
      else
        var blk := Block(Number(b, 5), Number(b, 9), Number(b, 13));
        Whole(17, [if id == 6 then Requested(blk) else Cancelled(blk), EndMsg])
    else if id == 7 then if |b| < 13 then Part([]) else Data(b, Number(b, 5), Number(b, 9), Wrap(len - 9))
    else Stopped
  }

  /** The data of a block. The end of an empty one is told with the next byte. */
  function Data(b: seq<byte>, piece: u32, offset: u32, rem: u32): (r: Reading)
    requires 13 <= |b|
    ensures r.Whole? ==> 0 < r.n <= |b|
  {
    if |b| == 13 then Part([])
    else if |b| < 13 + rem then Part(PieceBytes(piece, offset, b[13..]))
    else Whole(13 + rem, PieceBytes(piece, offset, b[13..13 + rem]) + [EndMsg])
  }

  /** The outcome of a whole stream. */
  function Stream(b: seq<byte>): (Status, seq<Signal>)
    decreases |b|
  {
    match First(b)
    case Whole(n, out) => var (status, more) := Stream(b[n..]); (status, out + more)
    case Part(out) => (Ok, out)
    case Refused => (Bad, [EndMsg])
    case Stopped => (Abort, [])
  }

  // ---------------------------------------------------------------------------------
  // The machine agrees

  /** From the start state the machine does with the bytes what the reading says. */
  predicate Agrees(b: seq<byte>, r: Reading) {
    var q := Run(START, b);
    match r
    case Whole(n, out) => n <= |b| && q == Then(out, Run(START, b[n..]))
    case Part(out) => q.status == Ok && q.out == out
    case Refused => q.status == Bad && q.out == [EndMsg]
    case Stopped => q.status == Abort && q.out == []
  }

  /** The rest after the type byte, from the state that the type leads to. */
  predicate AgreesFrom(s: State, b: seq<byte>, at: nat, r: Reading)
    requires Wf(s) && at <= |b|
  {
    var q := Run(s, b[at..]);
    match r
    case Whole(n, out) => at <= n <= |b| && q == Then(out, Run(START, b[n..]))
    case Part(out) => q.status == Ok && q.out == out
    case Refused => q.status == Bad && q.out == [EndMsg]
    case Stopped => q.status == Abort && q.out == []
  }

  lemma LengthAgrees(b: seq<byte>)
    ensures |b| < 4 ==> Agrees(b, Part([]))
    ensures 4 <= |b| && Number(b, 0) == 0 ==> Agrees(b, Whole(4, [KeepAlive, EndMsg]))
    ensures 4 <= |b| && Number(b, 0) != 0 ==> Run(START, b) == Run(AtType(Number(b, 0)), b[4..])
  {
    hide Run, ReadU32, Number;
    if |b| < 4 {
      assert b + [] == b && [] + b == b;
      LengthChunk([], b, []);
      RunNothing(AtLength(b));
    } else {
      assert b == b[..4] + b[4..] && [] + b[..4] == b[..4] && b[0..4] == b[..4];
      ReadIsBigEndian(b, 0);
      LengthChunk([], b[..4], b[4..]);
    }
  }

  lemma TypeAgrees(b: seq<byte>, len: u32)
    requires 5 <= |b| && 0 < len
    ensures Run(AtType(len), b[4..]) == Continue(StepType(len, b[4]), b[5..])
  {
    assert b[4..] == [b[4]] + b[5..];
    RunByte(AtType(len), b[4], b[5..]);
  }

  /** One field of four bytes, or less of it. */
  lemma FieldAgrees(kind: Kind, len: u32, done: seq<u32>, b: seq<byte>, at: nat)
    requires |done| < FieldCount(kind) && at <= |b|
    ensures |b| < at + 4 ==> AgreesFrom(AtField(kind, len, done, []), b, at, Part([]))
    ensures at + 4 <= |b| ==>
      Run(AtField(kind, len, done, []), b[at..])
      == Continue(FieldDone(kind, len, done + [Number(b, at)]), b[at + 4..])
  {
    hide Run, ReadU32, Number, FieldDone;
    var rest := b[at..];
    if |b| < at + 4 {
      assert rest + [] == rest && [] + rest == rest;
      FieldChunk(kind, len, done, [], rest, []);
      RunNothing(AtField(kind, len, done, rest));
    } else {
      assert rest == b[at..at + 4] + b[at + 4..] && [] + b[at..at + 4] == b[at..at + 4];
      ReadIsBigEndian(b, at);
      FieldChunk(kind, len, done, [], b[at..at + 4], b[at + 4..]);
    }
  }

  lemma HaveAgrees(b: seq<byte>, len: u32)
    requires 5 <= |b| && 1 < len
    ensures AgreesFrom(AtField(HaveFields, len, [], []), b, 5, Message(b, len, 4))
  {
    hide Run, Number;
    FieldAgrees(HaveFields, len, [], b, 5);
    if 9 <= |b| { FieldAdvances(HaveFields, len, [], Number(b, 5), b[9..]); }
  }

  /** The three fields of a request or of its cancellation. */
  lemma BlockAgrees(b: seq<byte>, len: u32, kind: Kind)
    requires 5 <= |b| && 1 < len && kind in {RequestFields, CancelFields}
    ensures AgreesFrom(AtField(kind, len, [], []), b, 5, Message(b, len, if kind == RequestFields then 6 else 8))
  {
    hide Run, Number;
    FieldAgrees(kind, len, [], b, 5);
    if 9 <= |b| {
      var x := Number(b, 5);
      FieldAdvances(kind, len, [], x, b[9..]);
      FieldAgrees(kind, len, [x], b, 9);
      if 13 <= |b| {
        var y := Number(b, 9);
        FieldAdvances(kind, len, [x], y, b[13..]);
        FieldAgrees(kind, len, [x, y], b, 13);
        if 17 <= |b| { FieldAdvances(kind, len, [x, y], Number(b, 13), b[17..]); }
      }
    }
  }

  lemma PieceAgrees(b: seq<byte>, len: u32)
    requires 5 <= |b| && 1 < len
    ensures AgreesFrom(AtField(PieceFields, len, [], []), b, 5, Message(b, len, 7))
  {
    hide Run, Number, Data, Wrap, Message, FieldDone;
    PieceMessage(b, len);
    FieldAgrees(PieceFields, len, [], b, 5);
    if 9 <= |b| {
      var x := Number(b, 5);
      PieceFieldsDone(len, x, 0);
      FieldAdvances(PieceFields, len, [], x, b[9..]);
      FieldAgrees(PieceFields, len, [x], b, 9);
      if 13 <= |b| {
        PieceFieldsDone(len, x, Number(b, 9));
        FieldAdvances(PieceFields, len, [x], Number(b, 9), b[13..]);
        DataAgrees(b, x, Number(b, 9), Wrap(len - 9));
      }
    }
  }

  lemma PieceMessage(b: seq<byte>, len: u32)
    requires 5 <= |b| && 1 < len
    ensures |b| < 13 ==> Message(b, len, 7) == Part([])
    ensures 13 <= |b| ==> Message(b, len, 7) == Data(b, Number(b, 5), Number(b, 9), Wrap(len - 9))
  {
    hide Number, Data, Wrap;
  }

  lemma PieceFieldsDone(len: u32, x: u32, y: u32)
    ensures FieldDone(PieceFields, len, [x]) == Result(Ok, AtField(PieceFields, len, [x], []), [])
    ensures FieldDone(PieceFields, len, [x, y]) == Result(Ok, AtPiece(x, y, Wrap(len - 9)), [])
  {
    hide Wrap;
  }

  lemma DataAgrees(b: seq<byte>, piece: u32, offset: u32, rem: u32)
    requires 13 <= |b|
    ensures AgreesFrom(AtPiece(piece, offset, rem), b, 13, Data(b, piece, offset, rem))
  {
    hide Run, PieceBytes, Wrap;
    var rest := b[13..];
    if |b| == 13 {
      RunNothing(AtPiece(piece, offset, rem));
      assert rest == [];
    } else if rem == 0 {
      EmptyPieceChunk(piece, offset, rest);
      NoPieceBytes(piece, offset, b[13..13]);
    } else if |b| < 13 + rem {
      assert rest + [] == rest;
      PieceChunk(piece, offset, rem, rest, []);
      PieceContinues(piece, offset, rem, rest, []);
    } else {
      assert rest == b[13..13 + rem] + b[13 + rem..];
      PieceChunk(piece, offset, rem, b[13..13 + rem], b[13 + rem..]);
      PieceContinues(piece, offset, rem, b[13..13 + rem], b[13 + rem..]);
    }
  }

  lemma NoPieceBytes(piece: u32, offset: u32, data: seq<byte>)
    requires data == []
    ensures PieceBytes(piece, offset, data) + [EndMsg] == [EndMsg]
  {
  }

  lemma PieceContinues(piece: u32, offset: u32, rem: u32, data: seq<byte>, rest: seq<byte>)
    requires |data| <= rem
    ensures var q := Continue(PieceAfter(piece, offset, rem, data), rest);
      && (|data| == rem ==> q == Then(PieceBytes(piece, offset, data) + [EndMsg], Run(START, rest)))
      && (|data| < rem && rest == [] ==> q.status == Ok && q.out == PieceBytes(piece, offset, data))
  {
    hide PieceBytes, Wrap;
  }

  lemma {:induction false} BitsOpen(len: u32, bits: seq<bool>, bytes: seq<byte>)
    requires 1 < len && |bits| + 8 * |bytes| < 8 * (len - 1)
    ensures Run(AtBits(len, bits), bytes).status == Ok && Run(AtBits(len, bits), bytes).out == []
    decreases |bytes|
  {
    if bytes != [] {
      assert bytes == [bytes[0]] + bytes[1..];
      RunByte(AtBits(len, bits), bytes[0], bytes[1..]);
      BitsOpen(len, bits + UnpackByte(bytes[0]), bytes[1..]);
    }
  }

  lemma BitsAgree(b: seq<byte>, len: u32)
    requires 5 <= |b| && 1 < len
    ensures AgreesFrom(AtBits(len, []), b, 5, Message(b, len, 5))
  {
    hide Run, UnpackBits;
    if |b| < 4 + len {
      BitsOpen(len, [], b[5..]);
    } else {
      var bytes := b[5..4 + len];
      ReadsBits(len, [], bytes);
      assert [] + UnpackBits(bytes) == UnpackBits(bytes);
      assert b[5..] == bytes + b[4 + len..];
      RunConcat(AtBits(len, []), bytes, b[4 + len..]);
    }
  }

  lemma MessageAgrees(b: seq<byte>, len: u32)
    requires 5 <= |b| && 0 < len
    ensures AgreesFrom(AtType(len), b, 4, Message(b, len, b[4]))
  {
    hide Run, Number, Data, Wrap, UnpackBits;
    var id := b[4];
    var q := StepType(len, id);
    TypeAgrees(b, len);
    if len == 1 || 9 < id {
    } else if id == 4 {
      HaveAgrees(b, len);
    } else if id == 5 {
      BitsAgree(b, len);
    } else if id == 6 {
      BlockAgrees(b, len, RequestFields);
    } else if id == 7 {
      PieceAgrees(b, len);
    } else if id == 8 {
      BlockAgrees(b, len, CancelFields);
    }
    if q.status == Ok { ThenNothing(Run(q.s, b[5..])); }
  }

  lemma FirstAgrees(b: seq<byte>)
    ensures Agrees(b, First(b))
  {
    hide Run, Number, Message;
    LengthAgrees(b);
    if 4 <= |b| && Number(b, 0) != 0 {
      if |b| < 5 {
        assert b[4..] == [];
        RunNothing(AtType(Number(b, 0)));
      } else {
        MessageAgrees(b, Number(b, 0));
      }
    }
  }

  /** For every stream of bytes at all: what the machine tells, and how it ends, is what reading message by message
      gives. */
  lemma {:induction false} StreamAgrees(b: seq<byte>)
    ensures (Run(START, b).status, Run(START, b).out) == Stream(b)
    decreases |b|
  {
    hide Run;
    FirstAgrees(b);
    var r := First(b);
    if r.Whole? { StreamAgrees(b[r.n..]); }
  }

  /** A new handler object that is fed any bytes at all in any buffers: its status and the calls it made are those of
      reading message by message, unless its buffer pointer goes astray. */
  method Judge(bufs: seq<seq<byte>>) returns (h: Handler, status: Status, astray: bool)
    ensures fresh(h) && (astray <==> AstrayAll(START, bufs))
    ensures !astray ==> (status, Expand(h.calls)) == Stream(Flatten(bufs))
  {
    hide Run, RunAll, Expand, Flatten, Stream, AstrayAll, Handler.View;
    h := new Handler();
    NothingExpanded();
    CutsDoNotMatter(START, bufs);
    StreamAgrees(Flatten(bufs));
    status, astray := h.DispatchBuffers(bufs);
    assert [] + RunAll(START, bufs).out == RunAll(START, bufs).out;
  }
}
