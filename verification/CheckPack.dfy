/** Test messages of libcheck: packing, and the receiver's fixed window over the stream. */
module CheckPack {
  import opened Common

  type int32 = n: int | -0x8000_0000 <= n < 0x8000_0000

  /** `CK_MAX_MSG_SIZE`; the sender refuses messages of more than half of it. */
  const MAX_MSG_SIZE: nat := 8192

  const CTX_INVALID: int32 := 0
  const CTX_TEST: int32 := 2

  const MSG_CTX: int32 := 0
  const MSG_FAIL: int32 := 1
  const MSG_LOC: int32 := 2
  const MSG_DURATION: int32 := 3

  /** `None` is a null string. */
  type Str = Option<seq<byte>>

  datatype Message =
    | Ctx(ctx: int32)
    | Fail(msg: Str)
    | Loc(file: Str, line: int32)
    | Duration(duration: int32)

  // ---------------------------------------------------------------------------------
  // Packing

  function PackInt(val: int32): (r: seq<byte>)
    ensures |r| == 4
  {
    var u := val % 0x1_0000_0000;
    [u / 256 / 256 / 256, u / 256 / 256 % 256, u / 256 % 256, u % 256]
  }

  function Chars(s: Str): seq<byte> {
    if s.None? then [] else s.value
  }

  function PackStr(s: Str): seq<byte>
    requires IsString(s)
  {
    PackInt(|Chars(s)|) + Chars(s)
  }

  /** Strings end at their first zero byte and have a length that is an `int`. */
  predicate IsString(s: Str) {
    0 !in Chars(s) && |Chars(s)| < 0x8000_0000
  }

  predicate Packable(m: Message) {
    match m
    case Fail(s) => IsString(s)
    case Loc(s, _) => IsString(s)
    case _ => true
  }

  function PackedSize(m: Message): nat {
    match m
    case Fail(s) => 4 + 4 + |Chars(s)|
    case Loc(s, _) => 4 + 4 + |Chars(s)| + 4
    case _ => 4 + 4
  }

  function Pack(m: Message): (r: seq<byte>)
    requires Packable(m)
    ensures |r| == PackedSize(m)
  {
    match m
    case Ctx(c) => PackInt(MSG_CTX) + PackInt(c)
    case Fail(s) => PackInt(MSG_FAIL) + PackStr(s)
    case Loc(f, line) => PackInt(MSG_LOC) + PackStr(f) + PackInt(line)
    case Duration(d) => PackInt(MSG_DURATION) + PackInt(d)
  }

  /** The most significant byte comes first, and negative numbers are in two's complement. */
  lemma PackedNumbers()
    ensures PackInt(0x0102_0304) == [1, 2, 3, 4] && PackInt(-2) == [255, 255, 255, 254]
    ensures PackInt(0) == [0, 0, 0, 0] && PackInt(1) == [0, 0, 0, 1]
    ensures PackInt(2) == [0, 0, 0, 2] && PackInt(3) == [0, 0, 0, 3]
  {
  }

  /** The type number of every message. */
  lemma PackLayout(m: Message)
    requires Packable(m)
    ensures m.Ctx? ==> Pack(m) == [0, 0, 0, 0] + PackInt(m.ctx)
    ensures m.Fail? ==> Pack(m) == [0, 0, 0, 1] + (PackInt(|Chars(m.msg)|) + Chars(m.msg))
    ensures m.Loc? ==> Pack(m) == [0, 0, 0, 2] + (PackInt(|Chars(m.file)|) + Chars(m.file)) + PackInt(m.line)
    ensures m.Duration? ==> Pack(m) == [0, 0, 0, 3] + PackInt(m.duration)
  {
    PackedNumbers();
    hide PackInt;
  }

  // ---------------------------------------------------------------------------------
  // Unpacking

  function Upack4(a: int, b: int, c: int, d: int): int {
    d + 256 * (c + 256 * (b + 256 * a))
  }

  function UpackInt(s: seq<byte>): int32
    requires |s| >= 4
  {
    var u := Upack4(s[0], s[1], s[2], s[3]);
    if u < 0x8000_0000 then u else u - 0x1_0000_0000
  }

  /** A value read from the front of a buffer, and the bytes it took. */
  datatype Read<T> = Read(value: T, size: nat)

  /** The string a reader sees in a zero-terminated copy of some bytes. */
  function UpToZero(s: seq<byte>): seq<byte> {
    if s == [] || s[0] == 0 then [] else [s[0]] + UpToZero(s[1..])
  }

  lemma {:induction false} NoZero(s: seq<byte>)
    requires 0 !in s
    ensures UpToZero(s) == s
  {
    if s != [] { NoZero(s[1..]); }
  }

  /** `None` if the string would run past the buffer. */
  function UpackStr(s: seq<byte>): Option<Read<seq<byte>>> {
    if |s| < 4 then None
    else
      var n := UpackInt(s);
      if n <= 0 then Some(Read([], 4))
      else if |s| < 4 + n then None
      else Some(Read(UpToZero(s[4..4 + n]), 4 + n))
  }

  /** `upack`: `None` for a bad message type or a message that runs past the buffer. */
  function Upack(s: seq<byte>): Option<Read<Message>> {
    if |s| < 4 then None
    else
      var kind, rest := UpackInt(s), s[4..];
      if kind == MSG_CTX then
        if |rest| < 4 then None else Some(Read(Ctx(UpackInt(rest)), 8))
      else if kind == MSG_DURATION then
        if |rest| < 4 then None else Some(Read(Duration(UpackInt(rest)), 8))
      else if kind == MSG_FAIL then
        var str := UpackStr(rest);
        if str.None? then None else Some(Read(Fail(Some(str.value.value)), 4 + str.value.size))
      else if kind == MSG_LOC then
        var str := UpackStr(rest);
        if str.None? || |rest| < str.value.size + 4 then None
        else Some(Read(Loc(Some(str.value.value), UpackInt(rest[str.value.size..])), 4 + str.value.size + 4))
      else None
  }

  /** A received message: null strings arrive as empty ones. */
  function Received(m: Message): Message {
    match m
    case Fail(s) => Fail(Some(Chars(s)))
    case Loc(s, line) => Loc(Some(Chars(s)), line)
    case _ => m
  }

  lemma UpackPackInt(val: int32, rest: seq<byte>)
    ensures UpackInt(PackInt(val) + rest) == val
  {
    var u := val % 0x1_0000_0000;
    var s := PackInt(val) + rest;
    assert s[0] == u / 256 / 256 / 256 && s[1] == u / 256 / 256 % 256 && s[2] == u / 256 % 256 && s[3] == u % 256;
    assert Upack4(s[0], s[1], s[2], s[3]) == u;
  }

  lemma UpackPackStr(s: Str, rest: seq<byte>)
    requires IsString(s)
    ensures UpackStr(PackStr(s) + rest) == Some(Read(Chars(s), 4 + |Chars(s)|))
  {
    var c := Chars(s);
    var all := PackStr(s) + rest;
    assert all == PackInt(|c|) + (c + rest);
    UpackPackInt(|c|, c + rest);
    if |c| > 0 {
      assert all[4..4 + |c|] == c;
      NoZero(c);
    }
  }

  lemma UpackNumber(kind: int32, val: int32, rest: seq<byte>)
    requires kind == MSG_CTX || kind == MSG_DURATION
    ensures Upack(PackInt(kind) + PackInt(val) + rest)
         == Some(Read(if kind == MSG_CTX then Ctx(val) else Duration(val), 8))
  {
    hide PackInt, UpackInt;
    var all := PackInt(kind) + PackInt(val) + rest;
    assert all == PackInt(kind) + (PackInt(val) + rest);
    UpackPackInt(kind, PackInt(val) + rest);
    assert all[4..] == PackInt(val) + rest;
    UpackPackInt(val, rest);
  }

  lemma UpackFail(s: Str, rest: seq<byte>)
    requires IsString(s)
    ensures Upack(Pack(Fail(s)) + rest) == Some(Read(Received(Fail(s)), PackedSize(Fail(s))))
  {
    hide PackInt, UpackInt, UpackStr, PackStr, IsString;
    var all := Pack(Fail(s)) + rest;
    assert all == PackInt(MSG_FAIL) + (PackStr(s) + rest);
    UpackPackInt(MSG_FAIL, PackStr(s) + rest);
    assert all[4..] == PackStr(s) + rest;
    UpackPackStr(s, rest);
  }

  lemma UpackLocParts(head: seq<byte>, mid: seq<byte>, tail: seq<byte>, file: seq<byte>)
    requires |head| == 4 && UpackInt(head + (mid + tail)) == MSG_LOC
    requires UpackStr(mid + tail) == Some(Read(file, |mid|)) && |tail| >= 4
    ensures Upack(head + (mid + tail)) == Some(Read(Loc(Some(file), UpackInt(tail)), 4 + |mid| + 4))
  {
    hide UpackInt, UpackStr;
    assert (head + (mid + tail))[4..] == mid + tail;
    assert (mid + tail)[|mid|..] == tail;
  }

  lemma UpackLoc(s: Str, line: int32, rest: seq<byte>)
    requires IsString(s)
    ensures Upack(Pack(Loc(s, line)) + rest) == Some(Read(Received(Loc(s, line)), PackedSize(Loc(s, line))))
  {
    assert |PackStr(s)| == 4 + |Chars(s)|;
    hide PackInt, UpackInt, UpackStr, PackStr, IsString, Upack, Chars;
    var tail := PackInt(line) + rest;
    assert Pack(Loc(s, line)) + rest == PackInt(MSG_LOC) + (PackStr(s) + tail);
    UpackPackInt(MSG_LOC, PackStr(s) + tail);
    UpackPackStr(s, tail);
    UpackPackInt(line, rest);
    UpackLocParts(PackInt(MSG_LOC), PackStr(s), tail, Chars(s));
  }

  /** Whatever follows it, a packed message at the front of a buffer is read back. */
  lemma UpackPack(m: Message, rest: seq<byte>)
    requires Packable(m)
    ensures Upack(Pack(m) + rest) == Some(Read(Received(m), |Pack(m)|))
  {
    hide Upack, PackInt, PackStr;
    match m
    case Ctx(c) => UpackNumber(MSG_CTX, c, rest);
    case Duration(d) => UpackNumber(MSG_DURATION, d, rest);
    case Fail(s) => UpackFail(s, rest);
    case Loc(s, line) => UpackLoc(s, line, rest);
  }

  // ---------------------------------------------------------------------------------
  // The received result

  datatype RcvMsg = RcvMsg(lastctx: int32, failctx: int32, fixtureFile: Str, fixtureLine: int32,
                           testFile: Str, testLine: int32, msg: Str, duration: int32)

  const CREATED := RcvMsg(CTX_INVALID, CTX_INVALID, None, -1, None, -1, None, -1)

  /** `get_result`, after unpacking. */
  function Update(r: RcvMsg, m: Message): RcvMsg {
    match m
    case Ctx(c) =>
      (if r.lastctx != CTX_INVALID then r.(fixtureFile := None, fixtureLine := -1) else r).(lastctx := c)
    case Loc(file, line) =>
      if r.failctx != CTX_INVALID then r
      else if r.lastctx == CTX_TEST then r.(testFile := file, testLine := line)
      else r.(fixtureFile := file, fixtureLine := line)
    case Fail(s) =>
      if r.msg == None then r.(msg := s, failctx := r.lastctx) else r
    case Duration(d) => r.(duration := d)
  }

  function UpdateAll(r: RcvMsg, ms: seq<Message>): RcvMsg
    decreases |ms|
  {
    if ms == [] then r else UpdateAll(Update(r, Received(ms[0])), ms[1..])
  }

  function PackAll(ms: seq<Message>): seq<byte>
    requires forall i :: 0 <= i < |ms| ==> Packable(ms[i])
  {
    if ms == [] then [] else Pack(ms[0]) + PackAll(ms[1..])
  }
}
