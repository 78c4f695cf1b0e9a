/** The message decoder of pwp_msghandler.c, one byte at a time, and its agreement with the
    send functions. */
module WireMachine {
  import opened Common
  import opened WireFormat

  /** Messages made of 32-bit fields. */
  datatype Kind = HaveFields | RequestFields | CancelFields | PieceFields

  function FieldCount(kind: Kind): nat {
    match kind
    case HaveFields => 1
    case PieceFields => 2
    case _ => 3
  }

  datatype State =
    | AtLength(tok: seq<byte>)
    | AtType(len: u32)
    | AtField(kind: Kind, len: u32, done: seq<u32>, tok: seq<byte>)
    | AtPiece(piece: u32, offset: u32, rem: u32)
    | AtBits(len: u32, bits: seq<bool>)

  const START := AtLength([])

  predicate Wf(s: State) {
    match s
    case AtLength(tok) => |tok| < 4
    case AtField(kind, _, done, tok) => |tok| < 4 && |done| < FieldCount(kind)
    case AtType(len) => 0 < len
    case AtBits(len, bits) => 1 < len
    case _ => true
  }

  /** What the connection is told. A PIECE block arrives in parts of unspecified size, so it is
      recorded byte by byte; `EndMsg` marks the end of each message. */
  datatype Signal =
    | KeepAlive
    | Changed(id: byte)
    | Has(piece: u32)
    | Field(bits: seq<bool>)
    | Requested(blk: Block)
    | Cancelled(blk: Block)
    | PieceByte(piece: u32, offset: u32, b: byte)
    | EndMsg

  /** `Bad` is a return of 0, `Abort` a failed assertion. */
  datatype Status = Ok | Bad | Abort

  datatype Result = Result(status: Status, s: State, out: seq<Signal>)

  function Then(out: seq<Signal>, r: Result): Result {
    r.(out := out + r.out)
  }

  function StepLength(tok: seq<byte>, b: byte): Result
    requires |tok| < 4
  {
    var t := tok + [b];
    if |t| < 4 then Result(Ok, AtLength(t), [])
    else if ReadU32(t) == 0 then Result(Ok, START, [KeepAlive, EndMsg])
    else Result(Ok, AtType(ReadU32(t)), [])
  }

  function StepType(len: u32, b: byte): Result {
    if len == 1 then
      if b <= UNINTERESTED then Result(Ok, START, [Changed(b), EndMsg]) else Result(Abort, AtType(len), [])
    else if CANCEL + 1 < b then Result(Bad, START, [EndMsg])
    else if b == HAVE then Result(Ok, AtField(HaveFields, len, [], []), [])
    else if b == BITFIELD then Result(Ok, AtBits(len, []), [])
    else if b == REQUEST then Result(Ok, AtField(RequestFields, len, [], []), [])
    else if b == PIECE then Result(Ok, AtField(PieceFields, len, [], []), [])
    else if b == CANCEL then Result(Ok, AtField(CancelFields, len, [], []), [])
    else Result(Abort, AtType(len), [])
  }

  /** All fields of a message have been read. */
  function Complete(kind: Kind, len: u32, f: seq<u32>): Result
    requires |f| == FieldCount(kind)
  {
    match kind
    case HaveFields => Result(Ok, START, [Has(f[0]), EndMsg])
    case RequestFields => Result(Ok, START, [Requested(Block(f[0], f[1], f[2])), EndMsg])
    case CancelFields => Result(Ok, START, [Cancelled(Block(f[0], f[1], f[2])), EndMsg])
    case PieceFields => Result(Ok, AtPiece(f[0], f[1], Wrap(len - 9)), [])
  }

  function StepField(kind: Kind, len: u32, done: seq<u32>, tok: seq<byte>, b: byte): Result
    requires |tok| < 4 && |done| < FieldCount(kind)
  {
    var t := tok + [b];
    if |t| < 4 then Result(Ok, AtField(kind, len, done, t), [])
    else
      var f := done + [ReadU32(t)];
      if |f| < FieldCount(kind) then Result(Ok, AtField(kind, len, f, []), []) else Complete(kind, len, f)
  }

  function StepPiece(piece: u32, offset: u32, rem: u32, b: byte): Result {
    if rem == 0 then Then([EndMsg], StepLength([], b))
    else if rem == 1 then Result(Ok, START, [PieceByte(piece, offset, b), EndMsg])
    else Result(Ok, AtPiece(piece, Wrap(offset + 1), rem - 1), [PieceByte(piece, offset, b)])
  }

  function StepBits(len: u32, bits: seq<bool>, b: byte): Result {
    var more := bits + UnpackByte(b);
    if |more| == 8 * (len - 1) then Result(Ok, START, [Field(more), EndMsg])
    else Result(Ok, AtBits(len, more), [])
  }

  function Step(s: State, b: byte): (r: Result)
    requires Wf(s)
    ensures Wf(r.s)
  {
    match s
    case AtLength(tok) => StepLength(tok, b)
    case AtType(len) => StepType(len, b)
    case AtField(kind, len, done, tok) => StepField(kind, len, done, tok, b)
    case AtPiece(piece, offset, rem) => StepPiece(piece, offset, rem, b)
    case AtBits(len, bits) => StepBits(len, bits, b)
  }

  /** The outcome of a stream, up to the first byte that is not accepted. */
  function Run(s: State, bytes: seq<byte>): (r: Result)
    requires Wf(s)
    ensures Wf(r.s)
    decreases |bytes|, 0
  {
    if bytes == [] then Result(Ok, s, [])
    else Continue(Step(s, bytes[0]), bytes[1..])
  }

  function Continue(r: Result, bytes: seq<byte>): (q: Result)
    requires Wf(r.s)
    ensures Wf(q.s)
    decreases |bytes|, 1
  {
    if r.status == Ok then Then(r.out, Run(r.s, bytes)) else r
  }

  // ---------------------------------------------------------------------------------
  // Fragmentation

  lemma ThenThen(a: seq<Signal>, b: seq<Signal>, r: Result)
    ensures Then(a, Then(b, r)) == Then(a + b, r)
  {
    assert a + (b + r.out) == a + b + r.out;
  }

  lemma ThenNothing(r: Result)
    ensures Then([], r) == r
  {
  }

  lemma {:induction false} RunConcat(s: State, a: seq<byte>, b: seq<byte>)
    requires Wf(s)
    ensures Run(s, a + b) == Continue(Run(s, a), b)
    decreases |a|
  {
    if a == [] {
      assert a + b == b;
      ThenNothing(Run(s, b));
    } else {
      assert (a + b)[0] == a[0] && (a + b)[1..] == a[1..] + b;
      var r := Step(s, a[0]);
      if r.status == Ok {
        RunConcat(r.s, a[1..], b);
        var q := Run(r.s, a[1..]);
        ThenThen(r.out, q.out, Run(q.s, b));
      }
    }
  }

  lemma RunByte(s: State, b: byte, rest: seq<byte>)
    requires Wf(s)
    ensures Run(s, [b] + rest) == Continue(Step(s, b), rest)
  {
    assert ([b] + rest)[1..] == rest;
  }

  /** Feeding the buffers one after the other, up to the first that is not accepted. */
  function RunAll(s: State, bufs: seq<seq<byte>>): (r: Result)
    requires Wf(s)
    ensures Wf(r.s)
    decreases |bufs|
  {
    if bufs == [] then Result(Ok, s, [])
    else
      var r := Run(s, bufs[0]);
      if r.status == Ok then Then(r.out, RunAll(r.s, bufs[1..])) else r
  }

  /** Any stream, well formed or not: the cuts between buffers make no difference. */
  lemma {:induction false} CutsDoNotMatter(s: State, bufs: seq<seq<byte>>)
    requires Wf(s)
    ensures RunAll(s, bufs) == Run(s, Flatten(bufs))
    decreases |bufs|
  {
    if bufs != [] {
      var r := Run(s, bufs[0]);
      RunConcat(s, bufs[0], Flatten(bufs[1..]));
      if r.status == Ok { CutsDoNotMatter(r.s, bufs[1..]); }
    }
  }

  // ---------------------------------------------------------------------------------
  // Round trip

  function PieceBytes(piece: u32, offset: int, data: seq<byte>): seq<Signal>
    decreases |data|
  {
    if data == [] then [] else [PieceByte(piece, Wrap(offset), data[0])] + PieceBytes(piece, offset + 1, data[1..])
  }

  /** What the connection should be told about a message. */
  function Report(m: Message): seq<Signal> {
    match m
    case StateChange(id) => [Changed(id), EndMsg]
    case Have(piece) => [Has(piece), EndMsg]
    case Bitfield(have) => [Field(UnpackBits(PackBits(have))), EndMsg]
    case Request(b) => [Requested(b), EndMsg]
    case Cancel(b) => [Cancelled(b), EndMsg]
    case Piece(piece, offset, data) => PieceBytes(piece, offset, data) + [EndMsg]
  }

  function ReportAll(ms: seq<Message>): seq<Signal> {
    if ms == [] then [] else Report(ms[0]) + ReportAll(ms[1..])
  }

  /** The machine gets from `s` through `bytes` to `t`, reporting `out`. */
  ghost predicate Reads(s: State, bytes: seq<byte>, t: State, out: seq<Signal>)
    requires Wf(s)
  {
    Run(s, bytes) == Result(Ok, t, out)
  }

  lemma ReadsConcat(s: State, a: seq<byte>, t: State, x: seq<Signal>, b: seq<byte>, u: State, y: seq<Signal>)
    requires Wf(s) && Wf(t) && Reads(s, a, t, x) && Reads(t, b, u, y)
    ensures Reads(s, a + b, u, x + y)
  {
    RunConcat(s, a, b);
  }

  lemma ReadsByte(s: State, b: byte, t: State, out: seq<Signal>)
    requires Wf(s) && Step(s, b) == Result(Ok, t, out)
    ensures Reads(s, [b], t, out)
  {
    assert [b] + [] == [b];
    RunByte(s, b, []);
    assert out + [] == out;
  }

  lemma ReadsLength(n: u32)
    requires 0 < n
    ensures Reads(START, WriteU32(n), AtType(n), [])
  {
    var w := WriteU32(n);
    ReadWrite(n);
    assert w == [w[0]] + ([w[1]] + ([w[2]] + [w[3]]));
    ReadsByte(START, w[0], AtLength([w[0]]), []);
    ReadsByte(AtLength([w[0]]), w[1], AtLength([w[0], w[1]]), []);
    ReadsByte(AtLength([w[0], w[1]]), w[2], AtLength([w[0], w[1], w[2]]), []);
    assert [w[0], w[1], w[2]] + [w[3]] == w;
    ReadsByte(AtLength([w[0], w[1], w[2]]), w[3], AtType(n), []);
    ReadsConcat(AtLength([w[0], w[1]]), [w[2]], AtLength([w[0], w[1], w[2]]), [], [w[3]], AtType(n), []);
    ReadsConcat(AtLength([w[0]]), [w[1]], AtLength([w[0], w[1]]), [], [w[2]] + [w[3]], AtType(n), []);
    ReadsConcat(START, [w[0]], AtLength([w[0]]), [], [w[1]] + ([w[2]] + [w[3]]), AtType(n), []);
  }

  lemma ReadsField(kind: Kind, len: u32, done: seq<u32>, n: u32)
    requires |done| < FieldCount(kind)
    ensures var r := if |done| + 1 < FieldCount(kind) then Result(Ok, AtField(kind, len, done + [n], []), [])
                     else Complete(kind, len, done + [n]);
            Reads(AtField(kind, len, done, []), WriteU32(n), r.s, r.out)
  {
    var r := if |done| + 1 < FieldCount(kind) then Result(Ok, AtField(kind, len, done + [n], []), [])
             else Complete(kind, len, done + [n]);
    var w := WriteU32(n);
    var s0 := AtField(kind, len, done, []);
    var s1 := AtField(kind, len, done, [w[0]]);
    var s2 := AtField(kind, len, done, [w[0], w[1]]);
    var s3 := AtField(kind, len, done, [w[0], w[1], w[2]]);
    ReadWrite(n);
    assert w == [w[0]] + ([w[1]] + ([w[2]] + [w[3]]));
    ReadsByte(s0, w[0], s1, []);
    ReadsByte(s1, w[1], s2, []);
    ReadsByte(s2, w[2], s3, []);
    assert [w[0], w[1], w[2]] + [w[3]] == w;
    ReadsByte(s3, w[3], r.s, r.out);
    assert [] + r.out == r.out;
    ReadsConcat(s2, [w[2]], s3, [], [w[3]], r.s, r.out);
    ReadsConcat(s1, [w[1]], s2, [], [w[2]] + [w[3]], r.s, r.out);
    ReadsConcat(s0, [w[0]], s1, [], [w[1]] + ([w[2]] + [w[3]]), r.s, r.out);
  }

  lemma {:induction false} ReadsPiece(piece: u32, offset: int, data: seq<byte>)
    requires 0 < |data| < 0x1_0000_0000
    ensures Reads(AtPiece(piece, Wrap(offset), |data|), data, START, PieceBytes(piece, offset, data) + [EndMsg])
    decreases |data|
  {
    var s := AtPiece(piece, Wrap(offset), |data|);
    if |data| == 1 {
      assert data == [data[0]];
      ReadsByte(s, data[0], START, [PieceByte(piece, Wrap(offset), data[0]), EndMsg]);
    } else {
      var t := AtPiece(piece, Wrap(offset + 1), |data| - 1);
      ReadsByte(s, data[0], t, [PieceByte(piece, Wrap(offset), data[0])]);
      ReadsPiece(piece, offset + 1, data[1..]);
      assert data == [data[0]] + data[1..];
      ReadsConcat(s, [data[0]], t, [PieceByte(piece, Wrap(offset), data[0])], data[1..], START,
                  PieceBytes(piece, offset + 1, data[1..]) + [EndMsg]);
    }
  }

  lemma {:induction false} ReadsBits(len: u32, bits: seq<bool>, bytes: seq<byte>)
    requires 0 < |bytes| && |bits| + 8 * |bytes| == 8 * (len - 1)
    ensures Reads(AtBits(len, bits), bytes, START, [Field(bits + UnpackBits(bytes)), EndMsg])
    decreases |bytes|
  {
    var s := AtBits(len, bits);
    var more := bits + UnpackByte(bytes[0]);
    if |bytes| == 1 {
      assert bytes == [bytes[0]];
      assert bits + UnpackBits(bytes) == more;
      ReadsByte(s, bytes[0], START, [Field(more), EndMsg]);
    } else {
      ReadsByte(s, bytes[0], AtBits(len, more), []);
      ReadsBits(len, more, bytes[1..]);
      assert bytes == [bytes[0]] + bytes[1..];
      assert bits + UnpackBits(bytes) == more + UnpackBits(bytes[1..]);
      ReadsConcat(s, [bytes[0]], AtBits(len, more), [], bytes[1..], START,
                  [Field(more + UnpackBits(bytes[1..])), EndMsg]);
    }
  }

  lemma ReadsHeader(n: u32, id: byte, t: State, out: seq<Signal>)
    requires 0 < n && StepType(n, id) == Result(Ok, t, out)
    ensures Reads(START, WriteU32(n) + [id], t, out)
  {
    ReadsLength(n);
    ReadsByte(AtType(n), id, t, out);
    assert [] + out == out;
    ReadsConcat(START, WriteU32(n), AtType(n), [], [id], t, out);
  }

  lemma ReadsBlock(kind: Kind, b: Block)
    requires kind == RequestFields || kind == CancelFields
    ensures var out := [if kind == RequestFields then Requested(b) else Cancelled(b), EndMsg];
            Reads(AtField(kind, 13, [], []), WriteU32(b.piece) + WriteU32(b.offset) + WriteU32(b.len), START, out)
  {
    var out := [if kind == RequestFields then Requested(b) else Cancelled(b), EndMsg];
    var s0 := AtField(kind, 13, [], []);
    var s1 := AtField(kind, 13, [b.piece], []);
    var s2 := AtField(kind, 13, [b.piece, b.offset], []);
    assert [b.piece] + [b.offset] == [b.piece, b.offset];
    assert [b.piece, b.offset] + [b.len] == [b.piece, b.offset, b.len];
    ReadsField(kind, 13, [], b.piece);
    ReadsField(kind, 13, [b.piece], b.offset);
    ReadsField(kind, 13, [b.piece, b.offset], b.len);
    assert [] + out == out;
    ReadsConcat(s0, WriteU32(b.piece), s1, [], WriteU32(b.offset), s2, []);
    ReadsConcat(s0, WriteU32(b.piece) + WriteU32(b.offset), s2, [], WriteU32(b.len), START, out);
  }

  lemma ReadsPieceFields(n: u32, piece: u32, offset: u32)
    ensures Reads(AtField(PieceFields, n, [], []), WriteU32(piece) + WriteU32(offset),
                  AtPiece(piece, offset, Wrap(n - 9)), [])
  {
    var s0 := AtField(PieceFields, n, [], []);
    var s1 := AtField(PieceFields, n, [piece], []);
    ReadsField(PieceFields, n, [], piece);
    assert [piece] + [offset] == [piece, offset];
    ReadsField(PieceFields, n, [piece], offset);
    ReadsConcat(s0, WriteU32(piece), s1, [], WriteU32(offset), AtPiece(piece, offset, Wrap(n - 9)), []);
  }

  lemma ReadsSilently(s: State, a: seq<byte>, t: State, b: seq<byte>, u: State, out: seq<Signal>)
    requires Wf(s) && Wf(t) && Reads(s, a, t, []) && Reads(t, b, u, out)
    ensures Reads(s, a + b, u, out)
  {
    assert [] + out == out;
    ReadsConcat(s, a, t, [], b, u, out);
  }

  lemma ReadsPieceHeader(piece: u32, offset: u32, n: nat)
    requires 9 + n < 0x1_0000_0000
    ensures Reads(START, (WriteU32(9 + n) + [PIECE]) + (WriteU32(piece) + WriteU32(offset)),
                  AtPiece(piece, offset, n), [])
  {
    var s := AtField(PieceFields, 9 + n, [], []);
    assert StepType(9 + n, PIECE) == Result(Ok, s, []);
    assert Wrap(9 + n - 9) == n;
    hide Reads, WriteU32, StepType;
    ReadsHeader(9 + n, PIECE, s, []);
    ReadsPieceFields(9 + n, piece, offset);
    var fields := WriteU32(piece) + WriteU32(offset);
    ReadsSilently(START, WriteU32(9 + n) + [PIECE], s, fields, AtPiece(piece, offset, n), []);
  }

  /** The end of an empty PIECE message is noticed only when a further byte arrives. */
  function EndState(m: Message): State {
    if m.Piece? && m.data == [] then AtPiece(m.piece, m.offset, 0) else START
  }

  function Owed(m: Message): seq<Signal> {
    if m.Piece? && m.data == [] then [EndMsg] else []
  }

  lemma FinishPiece(head: seq<byte>, piece: u32, offset: u32, data: seq<byte>)
    requires |data| < 0x1_0000_0000 && Reads(START, head, AtPiece(piece, offset, |data|), [])
    ensures var m := Piece(piece, offset, data);
            Reads(START, head + data, EndState(m), if data == [] then [] else Report(m))
  {
    if data == [] {
      assert head + data == head;
    } else {
      assert Wrap(offset) == offset;
      ReadsPiece(piece, offset, data);
      var out := PieceBytes(piece, offset, data) + [EndMsg];
      ReadsSilently(START, head, AtPiece(piece, offset, |data|), data, START, out);
    }
  }

  lemma ReadsPieceMessage(piece: u32, offset: u32, data: seq<byte>)
    requires Sendable(Piece(piece, offset, data))
    ensures var m := Piece(piece, offset, data);
            Reads(START, Send(m), EndState(m), if data == [] then [] else Report(m))
  {
    ReadsPieceHeader(piece, offset, |data|);
    var head := SendPiece(piece, offset, data);
    FinishPiece(head, piece, offset, data);
  }

  lemma SendPiece(piece: u32, offset: u32, data: seq<byte>) returns (head: seq<byte>)
    requires Sendable(Piece(piece, offset, data))
    ensures head == (WriteU32(9 + |data|) + [PIECE]) + (WriteU32(piece) + WriteU32(offset))
    ensures Send(Piece(piece, offset, data)) == head + data
  {
    head := (WriteU32(9 + |data|) + [PIECE]) + (WriteU32(piece) + WriteU32(offset));
    assert WriteU32(9 + |data|) + [PIECE] + WriteU32(piece) + WriteU32(offset) == head;
  }

  lemma ReadsBitfieldMessage(have: seq<bool>)
    requires Sendable(Bitfield(have)) && have != []
    ensures Reads(START, Send(Bitfield(have)), START, Report(Bitfield(have)))
  {
    var packed := PackBits(have);
    var n := 1 + |packed|;
    var out := [Field(UnpackBits(packed)), EndMsg];
    ReadsHeader(n, BITFIELD, AtBits(n, []), []);
    ReadsBits(n, [], packed);
    assert [] + UnpackBits(packed) == UnpackBits(packed);
    assert [] + out == out;
    ReadsConcat(START, WriteU32(n) + [BITFIELD], AtBits(n, []), [], packed, START, out);
  }

  /** Every message that can be sent, except a bit field of no pieces, is decoded as itself. */
  lemma ReadsMessage(m: Message)
    requires Sendable(m) && m != Bitfield([])
    ensures Run(START, Send(m)).status == Ok && Run(START, Send(m)).s == EndState(m)
    ensures Run(START, Send(m)).out + Owed(m) == Report(m)
  {
    match m
    case StateChange(id) => ReadsHeader(1, id, START, Report(m));
    case Have(piece) =>
      var s := AtField(HaveFields, 5, [], []);
      ReadsHeader(5, HAVE, s, []);
      ReadsField(HaveFields, 5, [], piece);
      assert [] + Report(m) == Report(m);
      ReadsConcat(START, WriteU32(5) + [HAVE], s, [], WriteU32(piece), START, Report(m));
    case Bitfield(have) => ReadsBitfieldMessage(have);
    case Request(b) => ReadsBlockMessage(RequestFields, REQUEST, b);
    case Cancel(b) => ReadsBlockMessage(CancelFields, CANCEL, b);
    case Piece(piece, offset, data) => ReadsPieceMessage(piece, offset, data);
  }

  lemma EmptyBitfieldAborts(rest: seq<byte>)
    ensures Run(START, Send(Bitfield([])) + rest).status == Abort
  {
    ReadsLength(1);
    RunConcat(START, WriteU32(1), [BITFIELD] + rest);
    RunByte(AtType(1), BITFIELD, rest);
    assert Send(Bitfield([])) + rest == WriteU32(1) + ([BITFIELD] + rest);
  }

  lemma ReadsBlockMessage(kind: Kind, id: byte, b: Block)
    requires (kind == RequestFields && id == REQUEST) || (kind == CancelFields && id == CANCEL)
    ensures var out := [if kind == RequestFields then Requested(b) else Cancelled(b), EndMsg];
            Reads(START, WriteU32(13) + [id] + WriteU32(b.piece) + WriteU32(b.offset) + WriteU32(b.len), START, out)
  {
    var out := [if kind == RequestFields then Requested(b) else Cancelled(b), EndMsg];
    var s := AtField(kind, 13, [], []);
    var head := WriteU32(13) + [id];
    var body := WriteU32(b.piece) + WriteU32(b.offset) + WriteU32(b.len);
    ReadsHeader(13, id, s, []);
    ReadsBlock(kind, b);
    assert [] + out == out;
    ReadsConcat(START, head, s, [], body, START, out);
    assert head + WriteU32(b.piece) + WriteU32(b.offset) + WriteU32(b.len) == head + body;
  }

  lemma AfterMessage(m: Message, rest: seq<byte>)
    requires Sendable(m) && m != Bitfield([]) && rest != []
    ensures Run(START, Send(m) + rest) == Then(Report(m), Run(START, rest))
  {
    ReadsMessage(m);
    RunConcat(START, Send(m), rest);
    var r := Run(START, Send(m));
    if m.Piece? && m.data == [] {
      var q := StepLength([], rest[0]);
      assert Run(r.s, rest) == Continue(Then([EndMsg], q), rest[1..]);
      ThenThen([EndMsg], q.out, Run(q.s, rest[1..]));
      assert Run(r.s, rest) == Then([EndMsg], Run(START, rest));
      ThenThen(r.out, [EndMsg], Run(START, rest));
    } else {
      assert r.out + [] == r.out;
    }
  }

  /** Messages whose last one ends at its last byte, and that hold no empty bit field. */
  predicate Prompt(ms: seq<Message>) {
    && (forall i :: 0 <= i < |ms| ==> ms[i] != Bitfield([]))
    && (ms != [] ==> Owed(ms[|ms| - 1]) == [])
  }

  lemma SendAllEmpty(ms: seq<Message>)
    requires forall i :: 0 <= i < |ms| ==> Sendable(ms[i])
    ensures SendAll(ms) == [] <==> ms == []
  {
    if ms != [] { assert |Send(ms[0])| > 0; }
  }

  lemma {:induction false} MessagesReported(ms: seq<Message>)
    requires forall i :: 0 <= i < |ms| ==> Sendable(ms[i])
    ensures Run(START, SendAll(ms)) == Result(Ok, START, ReportAll(ms)) <==> Prompt(ms)
    decreases |ms|
  {
    if ms != [] {
      var m, tail := ms[0], ms[1..];
      SendAllEmpty(tail);
      if m == Bitfield([]) {
        EmptyBitfieldAborts(SendAll(tail));
      } else if tail == [] {
        ReadsMessage(m);
        assert Send(m) + [] == Send(m);
        assert Report(m) + [] == Report(m);
        assert ms[|ms| - 1] == m;
        if Owed(m) != [] { assert Run(START, Send(m)).s != START; }
      } else {
        AfterMessage(m, SendAll(tail));
        MessagesReported(tail);
        PromptTail(ms);
        ThenIs(Report(m), Run(START, SendAll(tail)), ReportAll(tail));
      }
    }
  }

  lemma PromptTail(ms: seq<Message>)
    requires |ms| > 1
    ensures Prompt(ms) <==> ms[0] != Bitfield([]) && Prompt(ms[1..])
  {
    assert ms[|ms| - 1] == ms[1..][|ms[1..]| - 1];
    assert forall i :: 0 < i < |ms| ==> ms[i] == ms[1..][i - 1];
  }

  lemma ThenIs(a: seq<Signal>, r: Result, out: seq<Signal>)
    ensures Then(a, r) == Result(Ok, START, a + out) <==> r == Result(Ok, START, out)
  {
    if a + r.out == a + out {
      assert r.out == (a + r.out)[|a|..] == (a + out)[|a|..] == out;
    }
  }

  /** Sent messages, under any fragmentation, are reported in order and in full when the stream
      ends, exactly if no bit field is empty and the last message is not an empty PIECE. */
  lemma SentIsReceived(ms: seq<Message>, bufs: seq<seq<byte>>)
    requires forall i :: 0 <= i < |ms| ==> Sendable(ms[i])
    requires Flatten(bufs) == SendAll(ms)
    ensures RunAll(START, bufs) == Result(Ok, START, ReportAll(ms)) <==> Prompt(ms)
  {
    MessagesReported(ms);
    CutsDoNotMatter(START, bufs);
  }

  /** Bit `i` of a received bit field says whether the sender has piece `i`. */
  lemma BitfieldTellsPieces(have: seq<bool>, i: nat)
    requires Sendable(Bitfield(have))
    ensures var r := Report(Bitfield(have)); r[0].Field? && |have| <= |r[0].bits| < |have| + 8
    ensures i < |Report(Bitfield(have))[0].bits| ==> (Report(Bitfield(have))[0].bits[i] <==> i < |have| && have[i])
  {
    UnpackPackBits(have, i);
  }

  /** Byte `i` of a received block is byte `i` of the block sent, at its own offset. */
  lemma {:induction false} PieceBytesAt(piece: u32, offset: int, data: seq<byte>, i: nat)
    ensures |PieceBytes(piece, offset, data)| == |data|
    ensures i < |data| ==> PieceBytes(piece, offset, data)[i] == PieceByte(piece, Wrap(offset + i), data[i])
    decreases |data|
  {
    if data != [] {
      PieceBytesAt(piece, offset + 1, data[1..], if i == 0 then 0 else i - 1);
    }
  }
}
