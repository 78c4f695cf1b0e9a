/** The parser of bencode.c as a state machine on values: one transition per input byte. */
module BencodeMachine {
  import opened Common
  import opened BencodeSyntax

  datatype Token = NONE | LIST | DICT_KEYLEN | DICT_KEY | DICT_VAL | INT | STR_LEN | STR | DICT

  /** What a frame's `key` pointer refers to. A frame is pushed with a fresh buffer the first
      time and with the buffer of its previous use afterwards. */
  datatype KeyBuffer = Null | Fresh | Text(bytes: seq<byte>)

  datatype Frame = Frame(tok: Token, pos: nat, len: nat, intval: nat, key: KeyBuffer, strval: seq<byte>)

  type Callback = Event<KeyBuffer>

  datatype RawState = RawState(nframes: nat, d: nat, stk: seq<Frame>, out: seq<Callback>) {
    function Top(): Frame
      requires d < |stk|
    {
      stk[d]
    }
  }

  /** The stack array has `10 + expected_depth` frames and the depth never passes `expected_depth`. */
  type State = s: RawState | |s.stk| == 10 + s.nframes && s.d <= s.nframes
    witness RawState(0, 0, seq(10, _ => ZERO_FRAME), [])

  const ZERO_FRAME := Frame(NONE, 0, 0, 0, Null, [])

  function Init(expectedDepth: nat): State {
    RawState(expectedDepth, 0, seq(10 + expectedDepth, _ => ZERO_FRAME), [])
  }

  /** The largest size to which the buffers of a frame grow: the next one is not an `int`. */
  function SizeLimit(d: nat): nat {
    if d == 0 then OUTER_LIMIT else INNER_LIMIT
  }

  /** `Reject` is a return of 0; `Abort` is a failed `assert` or a signed overflow. */
  datatype Outcome = Go(s: State) | Reject(s: State) | Abort

  function SetTop(s: State, f: Frame): (r: State) {
    s.(stk := s.stk[s.d := f])
  }

  function Emit(s: State, e: Callback): State {
    s.(out := s.out + [e])
  }

  function Pushed(f: Frame): Frame {
    f.(tok := NONE, pos := 0, len := 0, intval := 0, key := if f.key.Null? then Fresh else f.key)
  }

  function Push(s: State): State
    requires s.d < s.nframes
  {
    s.(d := s.d + 1, stk := s.stk[s.d + 1 := Pushed(s.stk[s.d + 1])])
  }

  function Leave(s: State): State {
    var f := s.Top();
    match f.tok
    case LIST => Emit(s, ListLeave(f.key))
    case DICT => Emit(s, DictLeave(f.key))
    case _ => s
  }

  function Next(s: State): State {
    match s.Top().tok
    case LIST => Emit(s, ListNext)
    case DICT => Emit(s, DictNext)
    case _ => s
  }

  function Pop(s: State): State {
    var left := Leave(s);
    if left.d == 0 then left else Next(left.(d := left.d - 1))
  }

  function PushKeyLen(s: State): State
    requires s.d < s.nframes
  {
    var p := Push(s);
    SetTop(p, p.Top().(tok := DICT_KEYLEN, pos := 0))
  }

  /** The first byte of a value, the frame for it being on top. */
  function Begin(s: State, c: byte): Outcome {
    var f := s.Top();
    if c == CHAR_I then
      Go(SetTop(s, f.(tok := INT, pos := 0)))
    else if c == CHAR_D then
      var s1 := Emit(SetTop(s, f.(tok := DICT, pos := 0)), DictEnter(f.key));
      if s1.nframes <= s1.d then Abort else Go(PushKeyLen(s1))
    else if c == CHAR_L then
      Go(Emit(SetTop(s, f.(tok := LIST, pos := 0)), ListEnter(f.key)))
    else if IsDigit(c) then
      LenDigit(SetTop(s, f.(tok := STR_LEN, pos := 0)), c)
    else
      Reject(s)
  }

  function LenDigit(s: State, c: byte): Outcome
    requires IsDigit(c)
  {
    var n := (c - CHAR_0) + s.Top().len * 10;
    if INT_MAX < n then Abort else Go(SetTop(s, s.Top().(len := n)))
  }

  function IntDigit(s: State, c: byte): Outcome
    requires IsDigit(c)
  {
    var n := (c - CHAR_0) + s.Top().intval * 10;
    if INT_MAX < n then Abort else Go(SetTop(s, s.Top().(intval := n)))
  }

  /** A buffer after writing `c` at index `pos`, up to the byte just written. */
  function Overwrite(buffer: seq<byte>, pos: nat, c: byte): seq<byte> {
    (if pos <= |buffer| then buffer[..pos] else buffer) + [c]
  }

  function Written(key: KeyBuffer): seq<byte> {
    if key.Text? then key.bytes else []
  }

  function StepStr(s: State, c: byte): Outcome {
    var f := s.Top();
    var f1 := f.(strval := Overwrite(f.strval, f.pos, c), pos := f.pos + 1);
    var s1 := SetTop(s, f1);
    if SizeLimit(s.d) <= f.pos + 1 then Abort
    else if f1.len == f1.pos then Go(Pop(Emit(s1, StrHit(f1.key, f1.strval)))) else Go(s1)
  }

  function StepKey(s: State, c: byte): Outcome {
    var f := s.Top();
    var f1 := f.(key := Text(Overwrite(Written(f.key), f.pos, c)), pos := f.pos + 1);
    if SizeLimit(s.d) <= f.pos + 1 then Abort
    else Go(SetTop(s, if f1.pos == f1.len then f1.(tok := DICT_VAL, pos := 0, len := 0) else f1))
  }

  function StepStrLen(s: State, c: byte): Outcome {
    var f := s.Top();
    if c == CHAR_COLON then
      if f.len == 0 then Go(Pop(Emit(s, StrHit(f.key, []))))
      else Go(SetTop(s, f.(tok := STR, pos := 0)))
    else if IsDigit(c) then LenDigit(s, c)
    else Abort
  }

  function StepKeyLen(s: State, c: byte): Outcome {
    if c == CHAR_COLON then Go(SetTop(s, s.Top().(tok := DICT_KEY, pos := 0)))
    else if IsDigit(c) then LenDigit(s, c)
    else if c == CHAR_E then Go(Pop(s))
    else Reject(s)
  }

  function StepInt(s: State, c: byte): Outcome {
    var f := s.Top();
    if c == CHAR_E then Go(Pop(Emit(s, IntHit(f.key, f.intval))))
    else if IsDigit(c) then IntDigit(s, c)
    else Abort
  }

  function Step(s: State, c: byte): Outcome {
    match s.Top().tok
    case LIST =>
      if c == CHAR_E then Go(Pop(s))
      else if !StartsValue(c) then Reject(s)
      else if s.nframes <= s.d then Abort
      else Begin(Push(s), c)
    case DICT_VAL => Begin(s, c)
    case NONE => Begin(s, c)
    case INT => StepInt(s, c)
    case STR_LEN => StepStrLen(s, c)
    case STR => StepStr(s, c)
    case DICT =>
      if c == CHAR_E then Go(Pop(s))
      else if s.nframes <= s.d then Abort
      else StepKeyLen(PushKeyLen(s), c)
    case DICT_KEYLEN => StepKeyLen(s, c)
    case DICT_KEY => StepKey(s, c)
  }

  /** The dispatch loop. */
  function Feed(s: State, buf: seq<byte>): Outcome
    decreases |buf|
  {
    if buf == [] then Go(s)
    else match Step(s, buf[0])
      case Go(s1) => Feed(s1, buf[1..])
      case other => other
  }

  function Dispatch(s: State, buf: seq<byte>): Outcome {
    if s.nframes <= s.d then Reject(s) else Feed(s, buf)
  }

  /** Feeding a stream in the given buffers, up to the first call that does not return 1. */
  function DispatchAll(s: State, bufs: seq<seq<byte>>): Outcome
    decreases |bufs|
  {
    if bufs == [] then Go(s)
    else match Dispatch(s, bufs[0])
      case Go(s1) => DispatchAll(s1, bufs[1..])
      case other => other
  }
}
