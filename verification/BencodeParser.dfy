/** The parser object of bencode.c: a frame array updated in place by the dispatch loop.
    Callbacks are recorded in `out`. */
module BencodeParser {
  import opened Arithmetic
  import opened Common
  import opened BencodeSyntax
  import opened BencodeCuts
  import opened BencodeMachine
  import opened BencodeProof
  import opened BencodeReader
  import opened BencodeExact

  /** `Accepted` is a return of 1, `Rejected` a return of 0, `Aborted` a failed assertion or a signed
      overflow. */
  datatype Status = Accepted | Rejected | Aborted

  /** A call ended as the machine says. */
  ghost predicate Reflects(o: Outcome, status: Status, s: State) {
    match o
    case Go(t) => status == Accepted && s == t
    case Reject(t) => status == Rejected && s == t
    case Abort => status == Aborted
  }

  // ---------------------------------------------------------------------------------
  // Buffer sizes

  /** The size of a buffer before a byte and a terminator are written at `pos`. */
  function Grown(size: nat, pos: nat): nat {
    if size <= pos + 1 then 4 + 2 * size else size
  }

  /** Growth from `size` passes through `limit`. */
  predicate Reaches(size: nat, limit: nat)
    decreases limit - size
  {
    size == limit || (4 + 2 * size <= limit && Reaches(4 + 2 * size, limit))
  }

  lemma {:induction false} SizeSeries(size: nat, n: nat)
    ensures Reaches(size, (size + 4) * Pow2(n) - 4)
    decreases n
  {
    if n > 0 {
      SizeSeries(4 + 2 * size, n - 1);
      assert (8 + 2 * size) * Pow2(n - 1) == (size + 4) * Pow2(n);
    }
  }

  lemma FirstSizes()
    ensures Reaches(0, OUTER_LIMIT) && Reaches(20, INNER_LIMIT)
  {
    hide Reaches, Pow2;
    SizePowers();
    SizeSeries(0, 29);
    SizeSeries(20, 26);
  }

  lemma SizePowers()
    ensures Pow2(26) == 0x400_0000 && Pow2(29) == 0x2000_0000
  {
    SmallPowers();
    hide Pow2;
    PowSum(4, 4);
    PowSum(8, 4);
    PowSum(12, 12);
    PowSum(24, 2);
    PowSum(26, 3);
  }

  lemma SmallPowers()
    ensures Pow2(2) == 4 && Pow2(3) == 8 && Pow2(4) == 16
  {
  }

  /** A buffer into which the bytes before `pos` were written grows to a size that is an `int` exactly below the limit
      of its frame. Then it has room for the byte and the terminator. */
  lemma GrowthFits(d: nat, size: nat, pos: nat)
    requires Reaches(size, SizeLimit(d)) && (pos == 0 || pos < size)
    ensures size <= SizeLimit(d) <= INT_MAX
    ensures Grown(size, pos) <= INT_MAX <==> pos + 1 < SizeLimit(d)
    ensures pos + 1 < SizeLimit(d) ==> Reaches(Grown(size, pos), SizeLimit(d)) && pos + 1 < Grown(size, pos)
  {
  }

  /** The size of a buffer of frame `i`; a frame that was never pushed has none. */
  predicate Sized(i: nat, d: nat, size: nat) {
    if size == 0 && 0 < i then d < i else Reaches(size, SizeLimit(i))
  }

  /** The buffers of frame `i`, of the given sizes, hold what was written into them. */
  predicate Holds(i: nat, d: nat, f: Frame, svSize: nat, kSize: nat) {
    && Sized(i, d, svSize) && Sized(i, d, kSize)
    && (kSize == 0 <==> f.key == Null)
    && (f.tok == STR ==> f.pos == 0 || f.pos < svSize)
    && (f.tok == DICT_KEY ==> f.pos == 0 || f.pos < kSize)
  }

  lemma HoldsBelow(i: nat, d: nat, f: Frame, svSize: nat, kSize: nat)
    requires Holds(i, d, f, svSize, kSize) && 0 < d
    ensures Holds(i, d - 1, f, svSize, kSize)
  {
  }

  class Parser {
    const nframes: nat
    const stk: array<Frame>
    /** The fields `sv_size` and `k_size` of the frames. */
    const svSize: array<nat>
    const kSize: array<nat>
    var d: nat
    var out: seq<Callback>

    ghost predicate Valid()
      reads this, stk, svSize, kSize
    {
      && svSize != kSize && stk.Length == svSize.Length == kSize.Length == 10 + nframes && d <= nframes
      && forall i :: 0 <= i < stk.Length ==> Holds(i, d, stk[i], svSize[i], kSize[i])
    }

    ghost function View(): State
      requires Valid()
      reads this, stk, svSize, kSize
    {
      RawState(nframes, d, stk[..], out)
    }

    constructor (expectedDepth: nat)
      ensures Valid() && fresh(stk) && fresh(svSize) && fresh(kSize)
      ensures View() == Init(expectedDepth)
    {
      nframes := expectedDepth;
      FirstSizes();
      stk := new Frame[10 + expectedDepth](_ => ZERO_FRAME);
      svSize := new nat[10 + expectedDepth](_ => 0);
      kSize := new nat[10 + expectedDepth](_ => 0);
      d := 0;
      out := [];
    }

    method PushStack() returns (ok: bool)
      requires Valid()
      modifies this, stk, svSize, kSize
      ensures Valid() && ok == (old(d) < nframes)
      ensures View() == if ok then Push(old(View())) else old(View())
    {
      hide Reaches;
      FirstSizes();
      if nframes <= d {
        return false;
      }
      d := d + 1;
      stk[d] := stk[d].(pos := 0, intval := 0, len := 0, tok := NONE);
      if svSize[d] == 0 {
        svSize[d] := 20;
      }
      if kSize[d] == 0 {
        kSize[d] := 20;
        stk[d] := stk[d].(key := Fresh);
      }
      return true;
    }

    method PopStack()
      requires Valid()
      modifies this
      ensures Valid() && View() == Pop(old(View()))
      ensures old(d) == 0 ==> d == 0 && stk[..] == old(stk[..])
    {
      hide Holds;
      forall i | 0 <= i < stk.Length && 0 < d ensures Holds(i, d - 1, stk[i], svSize[i], kSize[i]) {
        HoldsBelow(i, d, stk[i], svSize[i], kSize[i]);
      }
      match stk[d].tok {
        case LIST => out := out + [ListLeave(stk[d].key)];
        case DICT => out := out + [DictLeave(stk[d].key)];
        case _ =>
      }
      ghost var left := View();
      assert left == Leave(old(View()));
      if d == 0 {
        return;
      }
      d := d - 1;
      assert View() == left.(d := d);
      match stk[d].tok {
        case LIST => out := out + [ListNext];
        case DICT => out := out + [DictNext];
        case _ =>
      }
    }

    method StartDict() returns (status: Status)
      requires Valid()
      modifies this, stk, svSize, kSize
      ensures Valid() && Reflects(Begin(old(View()), CHAR_D), status, View())
    {
      stk[d] := stk[d].(tok := DICT, pos := 0);
      out := out + [DictEnter(stk[d].key)];
      var ok := PushStack();
      if !ok {
        return Aborted;
      }
      stk[d] := stk[d].(tok := DICT_KEYLEN, pos := 0);
      return Accepted;
    }

    method StartList()
      requires Valid()
      modifies this, stk, svSize, kSize
      ensures Valid() && Go(View()) == Begin(old(View()), CHAR_L)
    {
      stk[d] := stk[d].(tok := LIST, pos := 0);
      out := out + [ListEnter(stk[d].key)];
    }

    method AddLenDigit(c: byte) returns (status: Status)
      requires Valid() && IsDigit(c)
      modifies stk
      ensures Valid() && Reflects(LenDigit(old(View()), c), status, View())
    {
      var n := (c - CHAR_0) + stk[d].len * 10;
      if INT_MAX < n {
        return Aborted;
      }
      stk[d] := stk[d].(len := n);
      return Accepted;
    }

    method StartValue(c: byte) returns (status: Status)
      requires Valid()
      modifies this, stk, svSize, kSize
      ensures Valid() && Reflects(Begin(old(View()), c), status, View())
    {
      if c == CHAR_I {
        stk[d] := stk[d].(tok := INT, pos := 0);
        return Accepted;
      } else if c == CHAR_D {
        status := StartDict();
      } else if c == CHAR_L {
        StartList();
        return Accepted;
      } else if IsDigit(c) {
        stk[d] := stk[d].(tok := STR_LEN, pos := 0);
        status := AddLenDigit(c);
      } else {
        return Rejected;
      }
    }

    method ProcessList(c: byte) returns (status: Status)
      requires Valid() && stk[d].tok == LIST
      modifies this, stk, svSize, kSize
      ensures Valid() && Reflects(Step(old(View()), c), status, View())
    {
      if c == CHAR_E {
        PopStack();
        return Accepted;
      }
      if !StartsValue(c) {
        return Rejected;
      }
      var ok := PushStack();
      if !ok {
        return Aborted;
      }
      status := StartValue(c);
    }

    method ProcessInt(c: byte) returns (status: Status)
      requires Valid()
      modifies this, stk, svSize, kSize
      ensures Valid() && Reflects(StepInt(old(View()), c), status, View())
    {
      if c == CHAR_E {
        out := out + [IntHit(stk[d].key, stk[d].intval)];
        PopStack();
      } else if IsDigit(c) {
        var n := (c - CHAR_0) + stk[d].intval * 10;
        if INT_MAX < n {
          return Aborted;
        }
        stk[d] := stk[d].(intval := n);
      } else {
        return Aborted;
      }
      return Accepted;
    }

    method ProcessStrLen(c: byte) returns (status: Status)
      requires Valid()
      modifies this, stk, svSize, kSize
      ensures Valid() && Reflects(StepStrLen(old(View()), c), status, View())
    {
      if c == CHAR_COLON {
        if stk[d].len == 0 {
          out := out + [StrHit(stk[d].key, [])];
          PopStack();
        } else {
          stk[d] := stk[d].(tok := STR, pos := 0);
        }
        return Accepted;
      } else if IsDigit(c) {
        status := AddLenDigit(c);
      } else {
        return Aborted;
      }
    }

    method ProcessStr(c: byte) returns (status: Status)
      requires Valid() && stk[d].tok == STR
      modifies this, stk, svSize
      ensures Valid() && Reflects(StepStr(old(View()), c), status, View())
    {
      hide Reaches, SizeLimit, Pop;
      GrowthFits(d, svSize[d], stk[d].pos);
      if svSize[d] <= stk[d].pos + 1 {
        if INT_MAX < 4 + svSize[d] * 2 {
          return Aborted;
        }
        svSize[d] := 4 + svSize[d] * 2;
      }
      stk[d] := stk[d].(strval := Overwrite(stk[d].strval, stk[d].pos, c), pos := stk[d].pos + 1);
      ghost var s1 := SetTop(old(View()), stk[d]);
      assert View() == s1;
      if stk[d].len == stk[d].pos {
        out := out + [StrHit(stk[d].key, stk[d].strval)];
        assert View() == Emit(s1, StrHit(stk[d].key, stk[d].strval));
        PopStack();
      }
      return Accepted;
    }

    method ProcessKeyLen(c: byte) returns (status: Status)
      requires Valid()
      modifies this, stk, svSize, kSize
      ensures Valid() && Reflects(StepKeyLen(old(View()), c), status, View())
    {
      if c == CHAR_COLON {
        stk[d] := stk[d].(tok := DICT_KEY, pos := 0);
        return Accepted;
      } else if IsDigit(c) {
        status := AddLenDigit(c);
      } else if c == CHAR_E {
        PopStack();
        return Accepted;
      } else {
        return Rejected;
      }
    }

    method ProcessDict(c: byte) returns (status: Status)
      requires Valid() && stk[d].tok == DICT
      modifies this, stk, svSize, kSize
      ensures Valid() && Reflects(Step(old(View()), c), status, View())
    {
      if c == CHAR_E {
        PopStack();
        return Accepted;
      }
      var ok := PushStack();
      if !ok {
        return Aborted;
      }
      stk[d] := stk[d].(tok := DICT_KEYLEN, pos := 0);
      status := ProcessKeyLen(c);
    }

    method ProcessKey(c: byte) returns (status: Status)
      requires Valid() && stk[d].tok == DICT_KEY
      modifies stk, kSize
      ensures Valid() && Reflects(StepKey(old(View()), c), status, View())
    {
      hide Reaches, SizeLimit, Overwrite, Written;
      GrowthFits(d, kSize[d], stk[d].pos);
      if kSize[d] <= stk[d].pos + 1 {
        if INT_MAX < kSize[d] * 2 + 4 {
          return Aborted;
        }
        kSize[d] := kSize[d] * 2 + 4;
      }
      stk[d] := stk[d].(key := Text(Overwrite(Written(stk[d].key), stk[d].pos, c)), pos := stk[d].pos + 1);
      if stk[d].pos == stk[d].len {
        stk[d] := stk[d].(tok := DICT_VAL, pos := 0, len := 0);
      }
      return Accepted;
    }

    method ProcessTok(c: byte) returns (status: Status)
      requires Valid()
      modifies this, stk, svSize, kSize
      ensures Valid() && Reflects(Step(old(View()), c), status, View())
    {
      match stk[d].tok
      case LIST => status := ProcessList(c);
      case DICT_VAL => status := StartValue(c);
      case NONE => status := StartValue(c);
      case INT => status := ProcessInt(c);
      case STR_LEN => status := ProcessStrLen(c);
      case STR => status := ProcessStr(c);
      case DICT => status := ProcessDict(c);
      case DICT_KEYLEN => status := ProcessKeyLen(c);
      case DICT_KEY => status := ProcessKey(c);
    }

    method DispatchFromBuffer(buf: seq<byte>) returns (status: Status)
      requires Valid()
      modifies this, stk, svSize, kSize
      ensures Valid() && Reflects(Dispatch(old(View()), buf), status, View())
      ensures old(d) < nframes && buf != [] && !StartsValue(buf[0])
              && (old(stk[d].tok) in {NONE, DICT_VAL} || (old(stk[d].tok) == LIST && buf[0] != CHAR_E)) ==>
        status == Rejected && View() == old(View())
      ensures old(d) < nframes && buf != [] && !IsDigit(buf[0]) && buf[0] != CHAR_COLON && buf[0] != CHAR_E
              && old(stk[d].tok) in {DICT, DICT_KEYLEN} ==>
        status == Rejected
    {
      RefusedAtOnce(View(), buf);
      if nframes <= d {
        return Rejected;
      }
      var i := 0;
      while i < |buf|
        invariant Valid() && 0 <= i <= |buf|
        invariant Feed(View(), buf[i..]) == Feed(old(View()), buf)
      {
        status := ProcessTok(buf[i]);
        assert buf[i..][0] == buf[i] && buf[i..][1..] == buf[i + 1..];
        if status != Accepted {
          return;
        }
        i := i + 1;
      }
      assert buf[i..] == [];
      return Accepted;
    }

    /** Calls with one buffer after the other, up to the first that does not return 1. */
    method DispatchBuffers(bufs: seq<seq<byte>>) returns (status: Status)
      requires Valid()
      modifies this, stk, svSize, kSize
      ensures Valid() && Reflects(DispatchAll(old(View()), bufs), status, View())
    {
      hide Dispatch, View;
      var i := 0;
      assert bufs[0..] == bufs;
      while i < |bufs|
        invariant Valid() && 0 <= i <= |bufs|
        invariant DispatchAll(View(), bufs[i..]) == DispatchAll(old(View()), bufs)
      {
        assert bufs[i..][0] == bufs[i] && bufs[i..][1..] == bufs[i + 1..];
        status := DispatchFromBuffer(bufs[i]);
        if status != Accepted {
          return;
        }
        i := i + 1;
      }
      assert bufs[i..] == [];
      return Accepted;
    }
  }

  lemma RefusedAtOnce(s: State, buf: seq<byte>)
    ensures s.d < s.nframes && buf != [] && !StartsValue(buf[0])
            && (s.Top().tok in {NONE, DICT_VAL} || (s.Top().tok == LIST && buf[0] != CHAR_E)) ==>
      Dispatch(s, buf) == Reject(s)
    ensures s.d < s.nframes && buf != [] && !IsDigit(buf[0]) && buf[0] != CHAR_COLON && buf[0] != CHAR_E
            && s.Top().tok in {DICT, DICT_KEYLEN} ==>
      Dispatch(s, buf).Reject?
  {
    hide Dispatch;
    if buf != [] && s.d < s.nframes {
      assert buf == [buf[0]] + buf[1..];
      if !StartsValue(buf[0]) && (s.Top().tok in {NONE, DICT_VAL} || (s.Top().tok == LIST && buf[0] != CHAR_E)) {
        NoValueRefused(s, buf[0], buf[1..]);
      }
      if !IsDigit(buf[0]) && buf[0] != CHAR_COLON && buf[0] != CHAR_E && s.Top().tok in {DICT, DICT_KEYLEN} {
        NoKeyRefused(s, buf[0], buf[1..]);
      }
    }
  }

  /**
   * A new parser object that is fed any bytes at all in one buffer: it accepts, refuses or stops exactly as recursive
   * descent says, up to the end of the first value.
   */
  method Judge(expectedDepth: nat, buf: seq<byte>) returns (p: Parser, status: Status)
    ensures fresh(p) && p.Valid()
    ensures expectedDepth == 0 ==> status == Rejected
    ensures 0 < expectedDepth ==>
      match Reading(buf, expectedDepth, OUTER_LIMIT)
      case Done(n) => n == |buf| ==> status == Accepted
      case More => status == Accepted
      case Bad => status == Rejected
      case Crash => status == Aborted
  {
    p := new Parser(expectedDepth);
    if 0 < expectedDepth { EveryInputJudged(expectedDepth, buf); }
    status := p.DispatchFromBuffer(buf);
  }

  /** The callbacks of a parser object are exactly those of a traversal. */
  ghost predicate Told(p: Parser, status: Status, v: Value)
    reads p
  {
    status == Accepted && Exactly(p.out, Traverse(v, None))
  }

  /**
   * A new parser object that is fed the encoding of a value in some buffers reports the value in full exactly when
   * it is supported, nested at most as deep as there are frames, and no buffer starts where it is nested so deep.
   * Values of smaller depth are reported for any buffers. The frames stay nested.
   */
  method Parse(expectedDepth: nat, bufs: seq<seq<byte>>, ghost v: Value) returns (p: Parser, status: Status)
    requires Flatten(bufs) == Encode(v)
    ensures fresh(p) && p.Valid()
    ensures Supported(v, OUTER_LIMIT) && Depth(v) < expectedDepth ==> Told(p, status, v)
    ensures Told(p, status, v) <==>
            Supported(v, OUTER_LIMIT) && Depth(v) <= expectedDepth && StartsBelow(v, expectedDepth, bufs)
    ensures bufs == ByteWise(Encode(v)) && Told(p, status, v) ==> Supported(v, OUTER_LIMIT) && Depth(v) < expectedDepth
    ensures status != Aborted ==> Nested(p.View())
  {
    p := new Parser(expectedDepth);
    status := p.DispatchBuffers(bufs);
    hide DispatchAll, Exactly, Nested, Supported, Encode, Traverse, Depth, StartsBelow;
    if Supported(v, OUTER_LIMIT) && Depth(v) < expectedDepth { SupportedParsed(v, expectedDepth, bufs); }
    CutIsExact(v, expectedDepth, bufs);
    if bufs == ByteWise(Encode(v)) && Told(p, status, v) { ParsedByteWise(v, expectedDepth); }
    EveryReachableStateNested(expectedDepth, bufs);
  }
}
