/** What a stream of test messages reports, and the receiver that reads it through a fixed window. */
module CheckResult {
  import opened CheckPack
  import opened Common

  // ---------------------------------------------------------------------------------
  // The result of a list of messages

  lemma {:induction false} UpdateAllConcat(r: RcvMsg, a: seq<Message>, b: seq<Message>)
    ensures UpdateAll(r, a + b) == UpdateAll(UpdateAll(r, a), b)
    decreases |a|
  {
    if a == [] {
      assert a + b == b;
    } else {
      assert (a + b)[1..] == a[1..] + b;
      UpdateAllConcat(Update(r, Received(a[0])), a[1..], b);
    }
  }

  /** The context in force after some messages. */
  function LastCtx(c: int32, ms: seq<Message>): int32 {
    if ms == [] then c
    else if ms[|ms| - 1].Ctx? then ms[|ms| - 1].ctx
    else LastCtx(c, ms[..|ms| - 1])
  }

  predicate NoFail(ms: seq<Message>) {
    forall i :: 0 <= i < |ms| ==> !ms[i].Fail?
  }

  predicate NoCtx(ms: seq<Message>) {
    forall i :: 0 <= i < |ms| ==> !ms[i].Ctx?
  }

  predicate NoLoc(ms: seq<Message>) {
    forall i :: 0 <= i < |ms| ==> !ms[i].Loc?
  }

  lemma UpdateSnoc(r: RcvMsg, ms: seq<Message>)
    requires ms != []
    ensures UpdateAll(r, ms) == Update(UpdateAll(r, ms[..|ms| - 1]), Received(ms[|ms| - 1]))
  {
    var n := |ms| - 1;
    assert ms == ms[..n] + ms[n..];
    UpdateAllConcat(r, ms[..n], ms[n..]);
    assert ms[n..][1..] == [];
  }

  /** The context is the last one sent; before a failure there is no message and no failing context. */
  lemma {:induction false} BeforeFailure(ms: seq<Message>)
    ensures UpdateAll(CREATED, ms).lastctx == LastCtx(CTX_INVALID, ms)
    ensures NoFail(ms) ==> UpdateAll(CREATED, ms).msg == None && UpdateAll(CREATED, ms).failctx == CTX_INVALID
    decreases |ms|
  {
    if ms != [] {
      UpdateSnoc(CREATED, ms);
      BeforeFailure(ms[..|ms| - 1]);
    }
  }

  /** Without context, location or failure messages only the duration can change. */
  lemma {:induction false} OnlyDuration(r: RcvMsg, ms: seq<Message>)
    requires NoFail(ms) && NoCtx(ms) && NoLoc(ms)
    ensures UpdateAll(r, ms) == r.(duration := UpdateAll(r, ms).duration)
    decreases |ms|
  {
    if ms != [] {
      UpdateSnoc(r, ms);
      OnlyDuration(r, ms[..|ms| - 1]);
    }
  }

  /**
   * A recorded failure is never replaced: its message, its context and the test location stay
   * whatever comes later. A location in a fixture stays until the next context message, which
   * clears it for good.
   */
  lemma {:induction false} FailureStays(r: RcvMsg, ms: seq<Message>)
    requires r.msg != None && r.failctx != CTX_INVALID && r.lastctx != CTX_INVALID
    requires forall i :: 0 <= i < |ms| && ms[i].Ctx? ==> ms[i].ctx != CTX_INVALID
    ensures
      var after := UpdateAll(r, ms);
      && after.msg == r.msg && after.failctx == r.failctx
      && after.testFile == r.testFile && after.testLine == r.testLine
      && after.lastctx == LastCtx(r.lastctx, ms) != CTX_INVALID
      && (if NoCtx(ms) then after.fixtureFile == r.fixtureFile && after.fixtureLine == r.fixtureLine
          else after.fixtureFile == None && after.fixtureLine == -1)
    decreases |ms|
  {
    if ms != [] {
      var n := |ms| - 1;
      UpdateSnoc(r, ms);
      FailureStays(r, ms[..n]);
      assert NoCtx(ms) <==> NoCtx(ms[..n]) && !ms[n].Ctx?;
    }
  }

  // ---------------------------------------------------------------------------------
  // The test result made from what was received

  datatype TestResult = TestResult(ctx: int32, msg: Str, file: Str, line: int32, duration: int32)

  const CTX_SETUP: int32 := 1

  function Located(ctx: int32, msg: Str, duration: int32, r: RcvMsg): TestResult {
    if ctx == CTX_TEST then TestResult(ctx, msg, r.testFile, r.testLine, duration)
    else TestResult(ctx, msg, r.fixtureFile, r.fixtureLine, duration)
  }

  /** `construct_test_result`: note that the context of a failure is the last one, not the failing one. */
  function Report(r: RcvMsg, wasError: bool): TestResult {
    if r.msg != None || wasError then Located(r.lastctx, r.msg, -1, r)
    else if r.lastctx == CTX_SETUP then Located(CTX_SETUP, None, -1, r)
    else Located(CTX_TEST, None, r.duration, r)
  }

  /** The last duration that was sent, and -1 if none was. */
  function LastDuration(ms: seq<Message>): int32 {
    if ms == [] then -1
    else if ms[|ms| - 1].Duration? then ms[|ms| - 1].duration
    else LastDuration(ms[..|ms| - 1])
  }

  /** The last location that was sent in the test context. */
  function LastTestLoc(ms: seq<Message>): (Str, int32) {
    if ms == [] then (None, -1)
    else
      var m, before := ms[|ms| - 1], ms[..|ms| - 1];
      if m.Loc? && LastCtx(CTX_INVALID, before) == 2 then (Some(Chars(m.file)), m.line) else LastTestLoc(before)
  }

  /** The last location that was sent in another context, unless a context other than the first came after it. */
  function LastFixtureLoc(ms: seq<Message>): (Str, int32) {
    if ms == [] then (None, -1)
    else
      var m, before := ms[|ms| - 1], ms[..|ms| - 1];
      if m.Ctx? && LastCtx(CTX_INVALID, before) != 0 then (None, -1)
      else if m.Loc? && LastCtx(CTX_INVALID, before) != 2 then (Some(Chars(m.file)), m.line)
      else LastFixtureLoc(before)
  }

  /** What was received without a failure. */
  lemma {:induction false} ReceivedWithoutFailure(ms: seq<Message>)
    requires NoFail(ms)
    ensures var r := UpdateAll(CREATED, ms);
      && r.msg == None && r.failctx == 0 && r.lastctx == LastCtx(CTX_INVALID, ms)
      && r.duration == LastDuration(ms)
      && (r.testFile, r.testLine) == LastTestLoc(ms) && (r.fixtureFile, r.fixtureLine) == LastFixtureLoc(ms)
    decreases |ms|
  {
    if ms != [] {
      UpdateSnoc(CREATED, ms);
      ReceivedWithoutFailure(ms[..|ms| - 1]);
    }
  }

  /**
   * The report without a failure. A test that came to its end carries the last duration and the last location of the
   * test; one that ended in the setup, or with an error, the location of its context and no duration.
   */
  lemma PassReported(ms: seq<Message>)
    requires NoFail(ms)
    ensures var (ctx, test, fixture) := (LastCtx(CTX_INVALID, ms), LastTestLoc(ms), LastFixtureLoc(ms));
      && Report(UpdateAll(CREATED, ms), false) ==
         (if ctx == 1 then TestResult(1, None, fixture.0, fixture.1, -1)
          else TestResult(2, None, test.0, test.1, LastDuration(ms)))
      && Report(UpdateAll(CREATED, ms), true) ==
         (if ctx == 2 then TestResult(2, None, test.0, test.1, -1)
          else TestResult(ctx, None, fixture.0, fixture.1, -1))
  {
    ReceivedWithoutFailure(ms);
  }

  /** What was received up to the first failure, which followed the location `file`, `line`. */
  lemma FailureRecorded(a: seq<Message>, file: Str, line: int32, b: seq<Message>, s: Str, c: int32)
    requires NoFail(a) && NoFail(b) && NoCtx(b) && NoLoc(b)
    requires c == LastCtx(CTX_INVALID, a) != CTX_INVALID
    ensures
      var r := UpdateAll(CREATED, a + [Loc(file, line)] + b + [Fail(s)]);
      && r.msg == Some(Chars(s)) && r.failctx == r.lastctx == c
      && (if c == CTX_TEST then r.testFile == Some(Chars(file)) && r.testLine == line
          else r.fixtureFile == Some(Chars(file)) && r.fixtureLine == line)
  {
    BeforeFailure(a);
    var al := a + [Loc(file, line)];
    UpdateSnoc(CREATED, al);
    assert al[..|al| - 1] == a;
    UpdateAllConcat(CREATED, al, b);
    OnlyDuration(UpdateAll(CREATED, al), b);
    var ms := al + b + [Fail(s)];
    UpdateSnoc(CREATED, ms);
    assert ms[..|ms| - 1] == al + b;
  }

  /**
   * The first failure is reported with its message and the last location sent before it, if and
   * only if the context is the same at the end and, outside of a test, never changed in between.
   */
  lemma FailureReported(a: seq<Message>, file: Str, line: int32, b: seq<Message>, s: Str, c: int32,
                        after: seq<Message>, wasError: bool)
    requires NoFail(a) && NoFail(b) && NoCtx(b) && NoLoc(b)
    requires c == LastCtx(CTX_INVALID, a) != CTX_INVALID
    requires forall i :: 0 <= i < |after| && after[i].Ctx? ==> after[i].ctx != CTX_INVALID
    ensures
      var ms := a + [Loc(file, line)] + b + [Fail(s)] + after;
      Report(UpdateAll(CREATED, ms), wasError) == TestResult(c, Some(Chars(s)), Some(Chars(file)), line, -1)
      <==> LastCtx(c, after) == c && (c == CTX_TEST || NoCtx(after))
  {
    FailureRecorded(a, file, line, b, s, c);
    var upto := a + [Loc(file, line)] + b + [Fail(s)];
    UpdateAllConcat(CREATED, upto, after);
    FailureStays(UpdateAll(CREATED, upto), after);
  }

  /** A failure in the test context, then the teardown context: reported for the teardown and without location. */
  lemma TeardownHidesFailure(file: Str, line: int32, s: Str)
    ensures var ms := [Ctx(CTX_TEST), Loc(file, line), Fail(s), Ctx(3)];
      Report(UpdateAll(CREATED, ms), false) == TestResult(3, Some(Chars(s)), None, -1, -1)
  {
    var ms := [Ctx(CTX_TEST), Loc(file, line), Fail(s), Ctx(3)];
    var r1 := CREATED.(lastctx := CTX_TEST);
    var r2 := r1.(testFile := Some(Chars(file)), testLine := line);
    var r3 := r2.(msg := Some(Chars(s)), failctx := CTX_TEST);
    var m1, m2, m3 := ms[1..], ms[1..][1..], ms[1..][1..][1..];
    assert m3[1..] == [];
    assert UpdateAll(CREATED, ms) == UpdateAll(r1, m1) == UpdateAll(r2, m2) == UpdateAll(r3, m3);
    assert UpdateAll(r3, m3) == Update(r3, Ctx(3));
  }

  // ---------------------------------------------------------------------------------
  // The sender

  /** A packing position in a buffer. */
  class Cursor {
    const buf: array<byte>
    var pos: nat

    constructor (buf: array<byte>)
      ensures this.buf == buf && pos == 0
    {
      this.buf := buf;
      pos := 0;
    }

    method PutInt(val: int32)
      requires pos + 4 <= buf.Length
      modifies this, buf
      ensures pos == old(pos) + 4
      ensures buf[..pos] == old(buf[..pos]) + PackInt(val)
    {
      var uval := val % 0x1_0000_0000;
      buf[pos] := uval / 256 / 256 / 256;
      buf[pos + 1] := uval / 256 / 256 % 256;
      buf[pos + 2] := uval / 256 % 256;
      buf[pos + 3] := uval % 256;
      pos := pos + 4;
    }

    method PutStr(val: Str)
      requires IsString(val) && pos + 4 + |Chars(val)| <= buf.Length
      modifies this, buf
      ensures pos == old(pos) + 4 + |Chars(val)|
      ensures buf[..pos] == old(buf[..pos]) + PackStr(val)
    {
      hide PackInt;
      var strsz := if val == None then 0 else |val.value|;
      PutInt(strsz);
      ghost var head := buf[..pos];
      if strsz > 0 {
        forall i | 0 <= i < strsz { buf[pos + i] := val.value[i]; }
        assert buf[pos..pos + strsz] == Chars(val);
        assert buf[..pos] == head;
        assert buf[..pos + strsz] == buf[..pos] + buf[pos..pos + strsz];
        pos := pos + strsz;
      }
    }

    method TakeInt() returns (val: int32)
      requires pos + 4 <= buf.Length
      modifies this
      ensures pos == old(pos) + 4 && val == UpackInt(buf[old(pos)..])
    {
      var uval := Upack4(buf[pos], buf[pos + 1], buf[pos + 2], buf[pos + 3]);
      val := if uval < 0x8000_0000 then uval else uval - 0x1_0000_0000;
      pos := pos + 4;
    }

    method TakeStr() returns (val: seq<byte>)
      requires pos <= buf.Length && UpackStr(buf[pos..]).Some?
      modifies this
      ensures var read := UpackStr(buf[old(pos)..]).value;
        val == read.value && pos == old(pos) + read.size
    {
      hide UpackInt;
      ghost var s := buf[pos..];
      var strsz := TakeInt();
      if strsz > 0 {
        assert buf[pos..pos + strsz] == s[4..4 + strsz];
        val := UpToZero(buf[pos..pos + strsz]);
        pos := pos + strsz;
      } else {
        val := [];
      }
    }
  }

  method UnpackMessage(buf: array<byte>) returns (m: Message, n: nat)
    requires Upack(buf[..]).Some?
    ensures Upack(buf[..]) == Some(Read(m, n))
  {
    hide UpackInt, UpackStr;
    var p := new Cursor(buf);
    ghost var rest := buf[..][4..];
    assert buf[0..] == buf[..];
    var kind := p.TakeInt();
    assert buf[4..] == rest;
    if kind == MSG_CTX {
      var c := p.TakeInt();
      m := Ctx(c);
    } else if kind == MSG_FAIL {
      var s := p.TakeStr();
      m := Fail(Some(s));
    } else if kind == MSG_LOC {
      var file := p.TakeStr();
      assert buf[p.pos..] == rest[p.pos - 4..];
      var line := p.TakeInt();
      m := Loc(Some(file), line);
    } else {
      var d := p.TakeInt();
      m := Duration(d);
    }
    n := p.pos;
  }

  /** `pack_ctx` and `pack_duration` */
  method PackNumber(kind: int32, val: int32) returns (buf: array<byte>)
    ensures fresh(buf) && buf[..] == PackInt(kind) + PackInt(val)
  {
    hide PackInt;
    buf := new byte[8];
    var p := new Cursor(buf);
    p.PutInt(kind);
    p.PutInt(val);
    assert buf[..8] == buf[..];
  }

  method PackFail(s: Str) returns (buf: array<byte>)
    requires IsString(s)
    ensures fresh(buf) && buf[..] == PackInt(MSG_FAIL) + PackStr(s)
  {
    hide PackInt, PackStr, IsString, Chars;
    buf := new byte[4 + 4 + |Chars(s)|];
    var p := new Cursor(buf);
    p.PutInt(MSG_FAIL);
    p.PutStr(s);
    assert buf[..p.pos] == buf[..];
  }

  method PackLoc(file: Str, line: int32) returns (buf: array<byte>)
    requires IsString(file)
    ensures fresh(buf) && buf[..] == PackInt(MSG_LOC) + PackStr(file) + PackInt(line)
  {
    hide PackInt, PackStr, IsString, Chars;
    buf := new byte[4 + 4 + |Chars(file)| + 4];
    var p := new Cursor(buf);
    p.PutInt(MSG_LOC);
    p.PutStr(file);
    p.PutInt(line);
    assert buf[..p.pos] == buf[..];
  }

  method PackMessage(m: Message) returns (buf: array<byte>)
    requires Packable(m)
    ensures fresh(buf) && buf[..] == Pack(m)
  {
    hide PackInt, PackStr, IsString, Chars;
    match m {
      case Ctx(c) => buf := PackNumber(MSG_CTX, c);
      case Fail(s) => buf := PackFail(s);
      case Loc(file, line) => buf := PackLoc(file, line);
      case Duration(d) => buf := PackNumber(MSG_DURATION, d);
    }
  }

  /** The file between the test and the runner: the bytes written to it, and the read position. */
  class Pipe {
    var bytes: seq<byte>
    var pos: nat

    /** `ppack`: a message of more than half the window is refused. */
    method Send(m: Message) returns (sent: bool)
      requires Packable(m)
      modifies this`bytes
      ensures sent <==> |Pack(m)| <= MAX_MSG_SIZE / 2
      ensures bytes == if sent then old(bytes) + Pack(m) else old(bytes)
    {
      var buf := PackMessage(m);
      assert |buf[..]| == buf.Length;
      if buf.Length > MAX_MSG_SIZE / 2 { return false; }
      bytes := bytes + buf[..];
      return true;
    }

    /** `read_buf`: as many bytes as there are, up to `size`. */
    method ReadBuf(size: nat, buf: array<byte>, at: nat) returns (n: nat)
      requires pos <= |bytes| && at + size <= buf.Length
      modifies this`pos, buf
      ensures n == (if size <= |bytes| - old(pos) then size else |bytes| - old(pos))
      ensures pos == old(pos) + n
      ensures buf[..at + n] == old(buf[..at]) + bytes[old(pos)..pos]
    {
      n := if size <= |bytes| - pos then size else |bytes| - pos;
      forall i | 0 <= i < n { buf[at + i] := bytes[pos + i]; }
      pos := pos + n;
    }
  }

  // ---------------------------------------------------------------------------------
  // The receiver

  class Receiver {
    var lastctx: int32
    var failctx: int32
    var fixtureFile: Str
    var fixtureLine: int32
    var testFile: Str
    var testLine: int32
    var msg: Str
    var duration: int32

    function State(): RcvMsg
      reads this
    {
      RcvMsg(lastctx, failctx, fixtureFile, fixtureLine, testFile, testLine, msg, duration)
    }

    constructor ()
      ensures State() == CREATED
    {
      lastctx, failctx, msg, duration := CTX_INVALID, CTX_INVALID, None, -1;
      testLine, testFile := -1, None;
      fixtureLine, fixtureFile := -1, None;
    }

    method UpdateCtx(ctx: int32)
      modifies this
      ensures State() == Update(old(State()), Ctx(ctx))
    {
      if lastctx != CTX_INVALID { fixtureLine, fixtureFile := -1, None; }
      lastctx := ctx;
    }

    method UpdateLoc(file: Str, line: int32)
      modifies this
      ensures old(failctx) == CTX_INVALID ==> State() == Update(old(State()), Loc(file, line))
    {
      if lastctx == CTX_TEST { testLine, testFile := line, file; }
      else { fixtureLine, fixtureFile := line, file; }
    }

    /** `get_result` */
    method GetResult(buf: array<byte>) returns (n: nat)
      requires Upack(buf[..]).Some?
      modifies this
      ensures State() == Update(old(State()), Upack(buf[..]).value.value)
      ensures n == Upack(buf[..]).value.size
    {
      hide Upack;
      var m;
      m, n := UnpackMessage(buf);
      match m {
        case Ctx(c) => { UpdateCtx(c); }
        case Loc(file, line) => { if failctx == CTX_INVALID { UpdateLoc(file, line); } }
        case Fail(s) => { if msg == None { msg := s; failctx := lastctx; } }
        case Duration(d) => { duration := d; }
      }
    }
  }

  // ---------------------------------------------------------------------------------
  // The window

  predicate Fits(ms: seq<Message>) {
    forall i :: 0 <= i < |ms| ==> Packable(ms[i]) && |Pack(ms[i])| <= MAX_MSG_SIZE
  }

  /** A window that is full, or holds all that is left, has a whole message at its front. */
  lemma WholeMessageInFront(window: seq<byte>, junk: seq<byte>, rest: seq<byte>, ms: seq<Message>)
    requires Fits(ms) && window + rest == PackAll(ms)
    requires |window| > 0 && (|window| == MAX_MSG_SIZE || rest == [])
    ensures ms != [] && |Pack(ms[0])| <= |window|
    ensures Upack(window + junk) == Some(Read(Received(ms[0]), |Pack(ms[0])|))
    ensures window[|Pack(ms[0])|..] + rest == PackAll(ms[1..])
  {
    hide Upack, Pack;
    assert |window + rest| > 0;
    var m := ms[0];
    var n := |Pack(m)|;
    assert PackAll(ms) == Pack(m) + PackAll(ms[1..]);
    if rest == [] { assert window + rest == window; }
    assert window[..n] == (window + rest)[..n] == Pack(m);
    assert window + junk == Pack(m) + (window[n..] + junk);
    UpackPack(m, window[n..] + junk);
    assert window[n..] + rest == (window + rest)[n..];
  }

  /** Moves what is left of the window to its front and reads more, unless the end was seen. */
  method Slide(pipe: Pipe, buf: array<byte>, parsed: nat, n: nat, seen: nat) returns (nparse: nat, nread: nat)
    requires buf.Length == MAX_MSG_SIZE && n <= parsed <= MAX_MSG_SIZE && pipe.pos <= |pipe.bytes|
    requires parsed == MAX_MSG_SIZE || pipe.pos == |pipe.bytes|
    requires seen > 0 || pipe.pos == |pipe.bytes|
    modifies pipe`pos, buf
    ensures nparse <= MAX_MSG_SIZE && pipe.pos <= |pipe.bytes|
    ensures nparse == MAX_MSG_SIZE || pipe.pos == |pipe.bytes|
    ensures nread > 0 || n == 0 || pipe.pos == |pipe.bytes|
    ensures buf[..nparse] + pipe.bytes[pipe.pos..] == old(buf[n..parsed]) + pipe.bytes[old(pipe.pos)..]
  {
    nparse, nread := parsed - n, seen;
    forall i | 0 <= i < nparse { buf[i] := buf[n + i]; }
    assert buf[..nparse] == old(buf[n..parsed]);
    if nread > 0 {
      ghost var window := buf[..nparse];
      nread := pipe.ReadBuf(n, buf, nparse);
      nparse := nparse + nread;
      Refilled(window, pipe.bytes, old(pipe.pos), pipe.pos);
    }
  }

  /** The bytes read move from the rest of the stream to the window. */
  lemma Refilled(window: seq<byte>, bytes: seq<byte>, from: nat, to: nat)
    requires from <= to <= |bytes|
    ensures (window + bytes[from..to]) + bytes[to..] == window + bytes[from..]
  {
    assert bytes[from..] == bytes[from..to] + bytes[to..];
  }

  /** Reads the whole pipe, one message at a time. */
  method Drain(pipe: Pipe, r: Receiver, ghost ms: seq<Message>)
    requires Fits(ms) && pipe.pos == 0 && pipe.bytes == PackAll(ms)
    modifies pipe`pos, r
    ensures r.State() == UpdateAll(old(r.State()), ms)
    ensures pipe.pos == |pipe.bytes|
  {
    hide Upack, Pack, Update, Received, UpdateAll, PackAll, Packable, Receiver.State;
    var buf := new byte[MAX_MSG_SIZE];
    var nread := pipe.ReadBuf(MAX_MSG_SIZE, buf, 0);
    var nparse: nat := nread;
    ghost var todo := ms;
    assert buf[..nparse] + pipe.bytes[pipe.pos..] == pipe.bytes;
    while nparse > 0
      invariant nparse <= MAX_MSG_SIZE && pipe.pos <= |pipe.bytes|
      invariant Fits(todo) && buf[..nparse] + pipe.bytes[pipe.pos..] == PackAll(todo)
      invariant nparse == MAX_MSG_SIZE || pipe.pos == |pipe.bytes|
      invariant nread > 0 || pipe.pos == |pipe.bytes|
      invariant UpdateAll(r.State(), todo) == UpdateAll(old(r.State()), ms)
      decreases |todo|
    {
      ghost var window := buf[..nparse];
      WholeMessageInFront(window, buf[nparse..], pipe.bytes[pipe.pos..], todo);
      assert buf[..] == window + buf[nparse..];
      UpdateFirst(r.State(), todo);
      var n := r.GetResult(buf);
      assert buf[n..nparse] == window[n..];
      nparse, nread := Slide(pipe, buf, nparse, n, nread);
      todo := todo[1..];
    }
    assert buf[..nparse] + pipe.bytes[pipe.pos..] == [];
    NothingLeft(r.State(), todo);
  }

  lemma UpdateFirst(r: RcvMsg, ms: seq<Message>)
    requires Fits(ms) && ms != []
    ensures UpdateAll(r, ms) == UpdateAll(Update(r, Received(ms[0])), ms[1..])
    ensures Fits(ms[1..]) && Packable(ms[0]) && |Pack(ms[0])| > 0
  {
  }

  lemma NothingLeft(r: RcvMsg, ms: seq<Message>)
    requires Fits(ms) && PackAll(ms) == []
    ensures UpdateAll(r, ms) == r
  {
  }

  /**
   * Whatever the length of the stream, reading it through the window gives what folding the
   * messages one by one gives; nothing, if no context is in force at the end.
   */
  method Punpack(pipe: Pipe, ghost ms: seq<Message>) returns (rmsg: Receiver?)
    requires Fits(ms) && pipe.pos == 0 && pipe.bytes == PackAll(ms)
    modifies pipe`pos
    ensures rmsg != null ==> fresh(rmsg)
    ensures rmsg == null <==> LastCtx(CTX_INVALID, ms) == CTX_INVALID
    ensures rmsg != null ==> rmsg.State() == UpdateAll(CREATED, ms)
    ensures pipe.pos == |pipe.bytes|
  {
    rmsg := new Receiver();
    Drain(pipe, rmsg, ms);
    BeforeFailure(ms);
    if rmsg.lastctx == CTX_INVALID { rmsg := null; }
  }
}
