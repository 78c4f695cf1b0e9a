/** Streaming correctness of the bencode parser: whatever the cuts between buffers, the
    callbacks are those of a traversal of the value, exactly for the supported values. */
module BencodeProof {
  import opened Common
  import opened BencodeSyntax
  import opened BencodeMachine

  // ---------------------------------------------------------------------------------
  // Every reachable state: frames below the top are LIST or DICT, writes are in bounds

  ghost predicate Nested(s: State) {
    && (forall i :: 0 <= i < s.d ==> s.stk[i].tok in {LIST, DICT})
    && (s.Top().tok == STR ==> s.Top().pos <= |s.Top().strval|)
    && (s.Top().tok == DICT_KEY ==> s.Top().pos <= |Written(s.Top().key)|)
  }

  ghost predicate OutcomeNested(o: Outcome) {
    o.Abort? || Nested(o.s)
  }

  /** Nothing but the current frame and the depth matters below the top. */
  ghost predicate Below(s: State) {
    forall i :: 0 <= i < s.d ==> s.stk[i].tok in {LIST, DICT}
  }

  lemma PopNested(s: State)
    requires Below(s) && (s.d == 0 ==> Nested(s))
    ensures Nested(Pop(s))
  {
    assert Pop(s).stk == s.stk;
    if s.d > 0 { assert s.stk[s.d - 1].tok in {LIST, DICT}; }
  }

  lemma BeginNested(s: State, c: byte)
    requires Below(s)
    requires s.Top().tok in {NONE, DICT_VAL}
    ensures OutcomeNested(Begin(s, c))
  {
  }

  lemma StepStrNested(s: State, c: byte)
    requires Nested(s) && s.Top().tok == STR
    ensures OutcomeNested(StepStr(s, c))
  {
    var f := s.Top();
    var f1 := f.(strval := Overwrite(f.strval, f.pos, c), pos := f.pos + 1);
    PopNested(Emit(SetTop(s, f1), StrHit(f1.key, f1.strval)));
  }

  lemma StepKeyLenNested(s: State, c: byte)
    requires Nested(s) && s.Top().tok == DICT_KEYLEN
    ensures OutcomeNested(StepKeyLen(s, c))
  {
    PopNested(s);
  }

  lemma StepIntNested(s: State, c: byte)
    requires Nested(s) && s.Top().tok == INT
    ensures OutcomeNested(StepInt(s, c))
  {
    PopNested(Emit(s, IntHit(s.Top().key, s.Top().intval)));
  }

  lemma StepStrLenNested(s: State, c: byte)
    requires Nested(s) && s.Top().tok == STR_LEN
    ensures OutcomeNested(StepStrLen(s, c))
  {
    PopNested(Emit(s, StrHit(s.Top().key, [])));
  }

  lemma StepKeepsNested(s: State, c: byte)
    requires Nested(s)
    ensures OutcomeNested(Step(s, c))
  {
    match s.Top().tok
    case LIST =>
      PopNested(s);
      if s.d < s.nframes { BeginNested(Push(s), c); }
    case DICT_VAL => BeginNested(s, c);
    case NONE => BeginNested(s, c);
    case INT => StepIntNested(s, c);
    case STR_LEN => StepStrLenNested(s, c);
    case STR => StepStrNested(s, c);
    case DICT =>
      PopNested(s);
      if s.d < s.nframes { StepKeyLenNested(PushKeyLen(s), c); }
    case DICT_KEYLEN => StepKeyLenNested(s, c);
    case DICT_KEY =>
  }

  lemma {:induction false} FeedKeepsNested(s: State, buf: seq<byte>)
    requires Nested(s)
    ensures OutcomeNested(Feed(s, buf))
    decreases |buf|
  {
    if buf != [] {
      StepKeepsNested(s, buf[0]);
      if Step(s, buf[0]).Go? {
        FeedKeepsNested(Step(s, buf[0]).s, buf[1..]);
      }
    }
  }

  lemma {:induction false} DispatchKeepsNested(s: State, bufs: seq<seq<byte>>)
    requires Nested(s)
    ensures OutcomeNested(DispatchAll(s, bufs))
    decreases |bufs|
  {
    if bufs != [] {
      FeedKeepsNested(s, bufs[0]);
      if Dispatch(s, bufs[0]).Go? {
        DispatchKeepsNested(Dispatch(s, bufs[0]).s, bufs[1..]);
      }
    }
  }

  lemma InitNested(n: nat)
    ensures Nested(Init(n))
  {
  }

  /** Whatever a new parser is fed, accepted or not, only lists and dictionaries lie below the top frame. */
  lemma EveryReachableStateNested(n: nat, bufs: seq<seq<byte>>)
    ensures OutcomeNested(DispatchAll(Init(n), bufs))
  {
    hide Nested, OutcomeNested;
    InitNested(n);
    DispatchKeepsNested(Init(n), bufs);
  }

  // ---------------------------------------------------------------------------------
  // Fragmentation

  /** The same loop with the depth test of a dispatch call before every byte and at the end. */
  function Guarded(s: State, buf: seq<byte>): Outcome
    decreases |buf|
  {
    if s.nframes <= s.d then Reject(s)
    else if buf == [] then Go(s)
    else match Step(s, buf[0])
      case Go(s1) => Guarded(s1, buf[1..])
      case other => other
  }

  lemma {:induction false} FeedConcat(s: State, a: seq<byte>, b: seq<byte>)
    ensures Feed(s, a + b) == match Feed(s, a) case Go(s1) => Feed(s1, b) case other => other
    decreases |a|
  {
    if a == [] {
      assert a + b == b;
    } else {
      assert (a + b)[1..] == a[1..] + b;
      if Step(s, a[0]).Go? { FeedConcat(Step(s, a[0]).s, a[1..], b); }
    }
  }

  lemma {:induction false} GuardedConcat(s: State, a: seq<byte>, b: seq<byte>)
    ensures Guarded(s, a + b) == match Guarded(s, a) case Go(s1) => Guarded(s1, b) case other => other
    decreases |a|
  {
    if a == [] {
      assert a + b == b;
    } else {
      assert (a + b)[1..] == a[1..] + b;
      if Step(s, a[0]).Go? { GuardedConcat(Step(s, a[0]).s, a[1..], b); }
    }
  }

  /** For any input at all: if the calls all return 1, the cuts made no difference. */
  lemma {:induction false} CutsDoNotMatter(s: State, bufs: seq<seq<byte>>)
    requires DispatchAll(s, bufs).Go?
    ensures DispatchAll(s, bufs) == Feed(s, Flatten(bufs))
    decreases |bufs|
  {
    if bufs != [] {
      FeedConcat(s, bufs[0], Flatten(bufs[1..]));
      CutsDoNotMatter(Dispatch(s, bufs[0]).s, bufs[1..]);
    }
  }

  lemma {:induction false} GuardedIsFeed(s: State, a: seq<byte>)
    requires Guarded(s, a).Go?
    ensures Feed(s, a) == Guarded(s, a)
    decreases |a|
  {
    if a != [] { GuardedIsFeed(Step(s, a[0]).s, a[1..]); }
  }

  lemma {:induction false} GuardedImpliesEveryCut(s: State, bufs: seq<seq<byte>>)
    requires Guarded(s, Flatten(bufs)).Go?
    ensures DispatchAll(s, bufs) == Guarded(s, Flatten(bufs))
    decreases |bufs|
  {
    if bufs != [] {
      GuardedConcat(s, bufs[0], Flatten(bufs[1..]));
      GuardedIsFeed(s, bufs[0]);
      GuardedImpliesEveryCut(Guarded(s, bufs[0]).s, bufs[1..]);
    }
  }

  /** One byte per buffer, then an empty buffer. */
  function ByteWise(a: seq<byte>): (bufs: seq<seq<byte>>) {
    if a == [] then [[]] else [[a[0]]] + ByteWise(a[1..])
  }

  lemma {:induction false} ByteWiseIsGuarded(s: State, a: seq<byte>)
    ensures Flatten(ByteWise(a)) == a
    ensures DispatchAll(s, ByteWise(a)) == Guarded(s, a)
    decreases |a|
  {
    var bufs := ByteWise(a);
    if a == [] {
      assert bufs[1..] == [];
    } else {
      assert bufs[0] == [a[0]] && bufs[1..] == ByteWise(a[1..]);
      assert Feed(s, [a[0]]) == Step(s, a[0]) by {
        assert [a[0]][1..] == [];
      }
      if Step(s, a[0]).Go? {
        ByteWiseIsGuarded(Step(s, a[0]).s, a[1..]);
      } else {
        ByteWiseIsGuarded(s, a[1..]);
      }
    }
  }

  // ---------------------------------------------------------------------------------
  // Callbacks against expectations

  predicate KeyAgrees(k: KeyBuffer, e: Option<seq<byte>>) {
    e.Some? ==> k == Text(e.value)
  }

  predicate Agrees(c: Callback, e: Expected) {
    match e
    case IntHit(k, n) => c.IntHit? && KeyAgrees(c.key, k) && c.n == n
    case StrHit(k, s) => c.StrHit? && KeyAgrees(c.key, k) && c.s == s
    case DictEnter(k) => c.DictEnter? && KeyAgrees(c.key, k)
    case DictLeave(k) => c.DictLeave? && KeyAgrees(c.key, k)
    case ListEnter(k) => c.ListEnter? && KeyAgrees(c.key, k)
    case ListLeave(k) => c.ListLeave? && KeyAgrees(c.key, k)
    case ListNext => c.ListNext?
    case DictNext => c.DictNext?
  }

  /** `out` has the expected callbacks from index `at` on (and possibly more after them). */
  predicate Meets(out: seq<Callback>, at: nat, exp: seq<Expected>) {
    at + |exp| <= |out| && forall i :: 0 <= i < |exp| ==> Agrees(out[at + i], exp[i])
  }

  predicate Exactly(out: seq<Callback>, exp: seq<Expected>) {
    |out| == |exp| && Meets(out, 0, exp)
  }

  lemma MeetsConcat(out: seq<Callback>, at: nat, a: seq<Expected>, b: seq<Expected>)
    ensures Meets(out, at, a + b) <==> Meets(out, at, a) && Meets(out, at + |a|, b)
  {
    if Meets(out, at, a + b) {
      forall i | 0 <= i < |b| ensures Agrees(out[at + |a| + i], b[i]) {
        assert (a + b)[|a| + i] == b[i];
        assert Agrees(out[at + (|a| + i)], (a + b)[|a| + i]);
      }
      forall i | 0 <= i < |a| ensures Agrees(out[at + i], a[i]) {
        assert (a + b)[i] == a[i];
      }
    }
    if Meets(out, at, a) && Meets(out, at + |a|, b) {
      forall i | 0 <= i < |a + b| ensures Agrees(out[at + i], (a + b)[i]) {
        if i < |a| {
          assert Agrees(out[at + i], a[i]);
        } else {
          assert Agrees(out[at + |a| + (i - |a|)], b[i - |a|]);
        }
      }
    }
  }

  lemma MeetsPrefix(out: seq<Callback>, more: seq<Callback>, at: nat, exp: seq<Expected>)
    requires out <= more && Meets(out, at, exp)
    ensures Meets(more, at, exp)
  {
    forall i | 0 <= i < |exp| ensures Agrees(more[at + i], exp[i]) {
      assert Agrees(out[at + i], exp[i]);
    }
  }

  predicate Appends(s: State, o: Outcome) {
    o.Go? ==> s.out <= o.s.out && o.s.nframes == s.nframes
  }

  lemma PopAppends(s: State)
    ensures Appends(s, Go(Pop(s)))
  {
  }

  lemma BeginAppends(s: State, c: byte)
    ensures Appends(s, Begin(s, c))
  {
  }

  lemma StepAppends(s: State, c: byte)
    ensures Appends(s, Step(s, c))
  {
    match s.Top().tok
    case LIST =>
      PopAppends(s);
      if s.d < s.nframes { BeginAppends(Push(s), c); }
    case DICT_VAL => BeginAppends(s, c);
    case NONE => BeginAppends(s, c);
    case INT => PopAppends(Emit(s, IntHit(s.Top().key, s.Top().intval)));
    case STR_LEN => PopAppends(Emit(s, StrHit(s.Top().key, [])));
    case STR =>
      var f := s.Top();
      var f1 := f.(strval := Overwrite(f.strval, f.pos, c), pos := f.pos + 1);
      PopAppends(Emit(SetTop(s, f1), StrHit(f1.key, f1.strval)));
    case DICT =>
      PopAppends(s);
      if s.d < s.nframes { PopAppends(PushKeyLen(s)); }
    case DICT_KEYLEN => PopAppends(s);
    case DICT_KEY =>
  }

  lemma {:induction false} GuardedAppends(s: State, a: seq<byte>)
    requires Guarded(s, a).Go?
    ensures s.out <= Guarded(s, a).s.out && Guarded(s, a).s.nframes == s.nframes
    decreases |a|
  {
    if a != [] {
      StepAppends(s, a[0]);
      GuardedAppends(Step(s, a[0]).s, a[1..]);
    }
  }

  // ---------------------------------------------------------------------------------
  // Supported values, from any state that is ready for one

  /** The top frame awaits a value: it is untouched, or carries the key of a dictionary entry. */
  predicate Ready(s: State) {
    && s.Top().tok in {NONE, DICT_VAL}
    && s.Top().len == 0 && s.Top().intval == 0
  }

  /** The callback that closing the top frame adds for its parent. */
  function AfterPop(s: State): seq<Expected> {
    if s.d == 0 then []
    else match s.stk[s.d - 1].tok
      case LIST => [ListNext]
      case DICT => [DictNext]
      case _ => []
  }

  /** From `s` to `t` the machine consumed one whole value: the frame is closed, the frames
      below are as they were, and the new callbacks are `exp` and the parent's. */
  predicate Closed(s: State, t: State, exp: seq<Expected>) {
    && t.nframes == s.nframes
    && t.d == (if s.d == 0 then 0 else s.d - 1)
    && t.stk[..s.d] == s.stk[..s.d]
    && s.out <= t.out
    && |t.out| == |s.out| + |exp + AfterPop(s)|
    && Meets(t.out, |s.out|, exp + AfterPop(s))
  }

  /** Only the top frame, not the callbacks, differs between `s` and `t`. */
  predicate SameBelow(s: State, t: State) {
    t.nframes == s.nframes && t.d == s.d && t.stk[..s.d] == s.stk[..s.d] && t.out == s.out
  }

  lemma {:induction false} FeedLenDigits(s: State, n: nat)
    requires s.Top().tok in {STR_LEN, DICT_KEYLEN} && s.Top().len == 0
    requires s.d < s.nframes
    ensures Guarded(s, Digits(n)) ==
            if n <= INT_MAX then Go(SetTop(s, s.Top().(len := n))) else Abort
    decreases n
  {
    if n < 10 {
      assert [CHAR_0 + n][1..] == [];
    } else {
      var last := [CHAR_0 + n % 10];
      FeedLenDigits(s, n / 10);
      GuardedConcat(s, Digits(n / 10), last);
      assert last[1..] == [];
      if n / 10 <= INT_MAX {
        var t := SetTop(s, s.Top().(len := n / 10));
        assert Step(t, last[0]) == LenDigit(t, last[0]);
        assert t.stk[t.d := t.Top().(len := n)] == s.stk[s.d := s.Top().(len := n)];
      }
    }
  }

  lemma {:induction false} FeedIntDigits(s: State, n: nat)
    requires s.Top().tok == INT && s.Top().intval == 0
    requires s.d < s.nframes
    ensures Guarded(s, Digits(n)) ==
            if n <= INT_MAX then Go(SetTop(s, s.Top().(intval := n))) else Abort
    decreases n
  {
    if n < 10 {
      IntLastDigit(s, 0, n);
    } else {
      FeedIntDigits(s, n / 10);
      GuardedConcat(s, Digits(n / 10), [CHAR_0 + n % 10]);
      hide Guarded;
      if n / 10 <= INT_MAX { IntLastDigit(s, n / 10, n % 10); }
    }
  }

  lemma IntLastDigit(s: State, q: nat, r: nat)
    requires s.Top().tok == INT && s.d < s.nframes && q <= INT_MAX && r < 10
    ensures Guarded(SetTop(s, s.Top().(intval := q)), [CHAR_0 + r]) ==
            if 10 * q + r <= INT_MAX then Go(SetTop(s, s.Top().(intval := 10 * q + r))) else Abort
    ensures s.Top().intval == q ==> SetTop(s, s.Top().(intval := q)) == s
  {
    var t := SetTop(s, s.Top().(intval := q));
    var last: seq<byte> := [CHAR_0 + r];
    assert last[1..] == [];
    assert Step(t, last[0]) == IntDigit(t, last[0]);
    assert t.stk[t.d := t.Top().(intval := 10 * q + r)] == s.stk[s.d := s.Top().(intval := 10 * q + r)];
    if s.Top().intval == q { assert s.stk[s.d := s.Top()] == s.stk; }
  }

  function Chain(o: Outcome, rest: seq<byte>): Outcome {
    match o case Go(t) => Guarded(t, rest) case other => other
  }

  lemma GuardedByte(s: State, c: byte, rest: seq<byte>)
    requires s.d < s.nframes
    ensures Guarded(s, [c] + rest) == Chain(Step(s, c), rest)
  {
    assert ([c] + rest)[0] == c && ([c] + rest)[1..] == rest;
  }

  lemma ClosedFrom(s: State, s1: State, t: State, exp: seq<Expected>)
    requires SameBelow(s, s1) && Closed(s1, t, exp)
    ensures Closed(s, t, exp)
  {
    if s.d > 0 {
      assert s.stk[s.d - 1] == s.stk[..s.d][s.d - 1] == s1.stk[..s.d][s.d - 1];
    }
  }

  /** Closing a scalar frame. */
  lemma PopCloses(s: State, c: Callback, e: Expected)
    requires Below(s) && s.Top().tok in {INT, STR, STR_LEN}
    requires Agrees(c, e)
    ensures Closed(s, Pop(Emit(s, c)), [e])
  {
    var t := Pop(Emit(s, c));
    var exp := [e] + AfterPop(s);
    if s.d > 0 { assert s.stk[s.d - 1].tok in {LIST, DICT}; }
    assert |t.out| == |s.out| + |exp|;
    forall i | 0 <= i < |exp| ensures Agrees(t.out[|s.out| + i], exp[i]) {
    }
  }

  /** What it means for the machine to read `bytes` as a value reported as `exp`. */
  predicate Reads(s: State, bytes: seq<byte>, exp: seq<Expected>) {
    Guarded(s, bytes).Go? && Closed(s, Guarded(s, bytes).s, exp)
  }

  function IntRead(s: State, n: nat): State {
    SetTop(s, s.Top().(tok := INT, pos := 0, intval := n))
  }

  lemma FeedInt(s: State, n: nat)
    requires Ready(s) && s.d < s.nframes && n <= INT_MAX
    ensures Guarded(s, Encode(Int(n))) == Go(Pop(Emit(IntRead(s, n), IntHit(s.Top().key, n))))
  {
    hide Guarded, Step, Pop;
    var s1 := SetTop(s, s.Top().(tok := INT, pos := 0));
    var s2 := IntRead(s, n);
    assert Encode(Int(n)) == [CHAR_I] + (Digits(n) + [CHAR_E]);
    IntSteps(s, n);
    GuardedByte(s, CHAR_I, Digits(n) + [CHAR_E]);
    FeedIntDigits(s1, n);
    assert SetTop(s1, s1.Top().(intval := n)) == s2;
    GuardedConcat(s1, Digits(n), [CHAR_E]);
    assert [CHAR_E] + [] == [CHAR_E];
    GuardedByte(s2, CHAR_E, []);
  }

  /** The first and the last byte of a number. */
  lemma IntSteps(s: State, n: nat)
    requires Ready(s) && s.d < s.nframes
    ensures Step(s, CHAR_I) == Go(SetTop(s, s.Top().(tok := INT, pos := 0)))
    ensures var t := Pop(Emit(IntRead(s, n), IntHit(s.Top().key, n)));
      Step(IntRead(s, n), CHAR_E) == Go(t) && Guarded(t, []) == Go(t)
  {
    PopAppends(Emit(IntRead(s, n), IntHit(s.Top().key, n)));
  }

  lemma ReadInt(s: State, n: nat, key: Option<seq<byte>>)
    requires Ready(s) && Below(s) && s.d < s.nframes && KeyAgrees(s.Top().key, key)
    requires n <= INT_MAX
    ensures Reads(s, Encode(Int(n)), [IntHit(key, n)])
  {
    var s1 := IntRead(s, n);
    FeedInt(s, n);
    PopCloses(s1, IntHit(s.Top().key, n), IntHit(key, n));
    assert SameBelow(s, s1);
    ClosedFrom(s, s1, Pop(Emit(s1, IntHit(s.Top().key, n))), [IntHit(key, n)]);
  }

  lemma {:induction false} ReadStrBody(s: State, body: seq<byte>, key: Option<seq<byte>>)
    requires Below(s) && s.d < s.nframes && KeyAgrees(s.Top().key, key)
    requires s.Top().tok == STR && body != [] && s.Top().len < SizeLimit(s.d)
    requires s.Top().pos <= |s.Top().strval| && s.Top().len == s.Top().pos + |body|
    ensures Reads(s, body, [StrHit(key, s.Top().strval[..s.Top().pos] + body)])
    decreases |body|
  {
    var f := s.Top();
    var f1 := f.(strval := Overwrite(f.strval, f.pos, body[0]), pos := f.pos + 1);
    var s1 := SetTop(s, f1);
    var exp: seq<Expected> := [StrHit(key, f.strval[..f.pos] + body)];
    assert body == [body[0]] + body[1..];
    GuardedByte(s, body[0], body[1..]);
    assert SameBelow(s, s1);
    if |body| == 1 {
      assert f1.strval == f.strval[..f.pos] + body;
      PopCloses(s1, StrHit(f1.key, f1.strval), StrHit(key, f1.strval));
      ClosedFrom(s, s1, Pop(Emit(s1, StrHit(f1.key, f1.strval))), exp);
    } else {
      ReadStrBody(s1, body[1..], key);
      assert f1.strval[..f1.pos] + body[1..] == f.strval[..f.pos] + body;
      ClosedFrom(s, s1, Guarded(s1, body[1..]).s, exp);
    }
  }

  /** A digit that begins a value acts like a digit of a string length just opened. */
  lemma BeginDigits(s: State, n: nat, rest: seq<byte>)
    requires Ready(s) && s.d < s.nframes
    ensures Guarded(s, Digits(n) + rest) ==
            Guarded(SetTop(s, s.Top().(tok := STR_LEN, pos := 0)), Digits(n) + rest)
  {
    var c := (Digits(n) + rest)[0];
    assert c == Digits(n)[0] && IsDigit(c);
    var s1 := SetTop(s, s.Top().(tok := STR_LEN, pos := 0));
    assert Step(s, c) == LenDigit(s1, c) == Step(s1, c);
  }

  lemma ReadStr(s: State, str: seq<byte>, key: Option<seq<byte>>)
    requires Ready(s) && Below(s) && s.d < s.nframes && KeyAgrees(s.Top().key, key)
    requires |str| < SizeLimit(s.d)
    ensures Reads(s, Encode(Str(str)), [StrHit(key, str)])
  {
    hide Guarded, Step, Pop, Closed;
    var n := |str|;
    var s1 := SetTop(s, s.Top().(tok := STR_LEN, pos := 0));
    var s2 := SetTop(s1, s1.Top().(len := n));
    assert Encode(Str(str)) == Digits(n) + ([CHAR_COLON] + str);
    BeginDigits(s, n, [CHAR_COLON] + str);
    FeedLenDigits(s1, n);
    GuardedConcat(s1, Digits(n), [CHAR_COLON] + str);
    assert SameBelow(s, s2);
    ReadColon(s2, str, key);
    ClosedFrom(s, s2, Guarded(s2, [CHAR_COLON] + str).s, [StrHit(key, str)]);
  }

  /** The colon and the bytes of a string. */
  lemma ReadColon(s: State, str: seq<byte>, key: Option<seq<byte>>)
    requires Below(s) && s.d < s.nframes && KeyAgrees(s.Top().key, key)
    requires s.Top().tok == STR_LEN && s.Top().len == |str| < SizeLimit(s.d)
    ensures Reads(s, [CHAR_COLON] + str, [StrHit(key, str)])
  {
    ColonSteps(s);
    hide Guarded, Step, Pop, Closed;
    GuardedByte(s, CHAR_COLON, str);
    if str == [] {
      PopCloses(s, StrHit(s.Top().key, []), StrHit(key, str));
    } else {
      var t := SetTop(s, s.Top().(tok := STR, pos := 0));
      ReadStrBody(t, str, key);
      assert t.Top().strval[..0] + str == str;
      assert SameBelow(s, t);
      ClosedFrom(s, t, Guarded(t, str).s, [StrHit(key, str)]);
    }
  }

  lemma ColonSteps(s: State)
    requires s.Top().tok == STR_LEN && s.d < s.nframes
    ensures s.Top().len == 0 ==>
      var t := Pop(Emit(s, StrHit(s.Top().key, [])));
      Step(s, CHAR_COLON) == Go(t) && Guarded(t, []) == Go(t)
    ensures s.Top().len != 0 ==> Step(s, CHAR_COLON) == Go(SetTop(s, s.Top().(tok := STR, pos := 0)))
  {
    PopAppends(Emit(s, StrHit(s.Top().key, [])));
  }

  function Keyed(s: State, key: seq<byte>): State {
    SetTop(s, s.Top().(tok := DICT_VAL, pos := 0, len := 0, key := Text(key)))
  }

  lemma {:induction false} FeedKeyBody(s: State, body: seq<byte>)
    requires s.d < s.nframes && s.Top().tok == DICT_KEY && body != [] && s.Top().len < SizeLimit(s.d)
    requires s.Top().pos <= |Written(s.Top().key)| && s.Top().len == s.Top().pos + |body|
    ensures Guarded(s, body) == Go(Keyed(s, Written(s.Top().key)[..s.Top().pos] + body))
    decreases |body|
  {
    var f := s.Top();
    var f1 := f.(key := Text(Overwrite(Written(f.key), f.pos, body[0])), pos := f.pos + 1);
    var s1 := SetTop(s, f1);
    assert body == [body[0]] + body[1..];
    GuardedByte(s, body[0], body[1..]);
    if |body| == 1 {
      assert Written(f1.key) == Written(f.key)[..f.pos] + body;
    } else {
      FeedKeyBody(s1, body[1..]);
      assert Written(f1.key)[..f1.pos] + body[1..] == Written(f.key)[..f.pos] + body;
      assert Keyed(s1, Written(f.key)[..f.pos] + body).stk == Keyed(s, Written(f.key)[..f.pos] + body).stk;
    }
  }

  lemma ReadKey(s: State, key: seq<byte>)
    requires s.d < s.nframes && s.Top().tok == DICT_KEYLEN && s.Top().len == 0
    requires 0 < |key| < SizeLimit(s.d)
    ensures Guarded(s, EncodeKey(key)) == Go(Keyed(s, key))
  {
    var s1 := SetTop(s, s.Top().(len := |key|));
    var s2 := SetTop(s1, s1.Top().(tok := DICT_KEY, pos := 0));
    assert EncodeKey(key) == Digits(|key|) + ([CHAR_COLON] + key);
    FeedLenDigits(s, |key|);
    GuardedConcat(s, Digits(|key|), [CHAR_COLON] + key);
    GuardedByte(s1, CHAR_COLON, key);
    FeedKeyBody(s2, key);
    assert Written(s2.Top().key)[..0] + key == key;
    assert Keyed(s2, key).stk == Keyed(s, key).stk;
  }

  /** From `s` to `t` the machine consumed members of the container on top. */
  predicate Continues(s: State, t: State, exp: seq<Expected>) {
    && t.nframes == s.nframes && t.d == s.d
    && t.stk[..s.d + 1] == s.stk[..s.d + 1]
    && s.out <= t.out
    && |t.out| == |s.out| + |exp|
    && Meets(t.out, |s.out|, exp)
  }

  lemma ContinuesTrans(s: State, t: State, u: State, a: seq<Expected>, b: seq<Expected>)
    requires Continues(s, t, a) && Continues(t, u, b)
    ensures Continues(s, u, a + b)
  {
    MeetsPrefix(t.out, u.out, |s.out|, a);
    MeetsConcat(u.out, |s.out|, a, b);
  }

  /** A member's frame lies directly above the container's. */
  lemma MemberContinues(s: State, m: State, t: State, exp: seq<Expected>)
    requires m.nframes == s.nframes && m.d == s.d + 1 && m.out == s.out
    requires m.stk[..s.d + 1] == s.stk[..s.d + 1]
    requires Closed(m, t, exp)
    ensures Continues(s, t, exp + AfterPop(m))
  {
  }

  lemma ListBegins(s: State, bytes: seq<byte>)
    requires s.Top().tok == LIST && s.d + 1 < s.nframes
    requires bytes != [] && StartsValue(bytes[0])
    ensures Guarded(s, bytes) == Guarded(Push(s), bytes)
  {
    assert Step(s, bytes[0]) == Begin(Push(s), bytes[0]) == Step(Push(s), bytes[0]);
  }

  lemma DictBegins(s: State, bytes: seq<byte>)
    requires s.Top().tok == DICT && s.d + 1 < s.nframes
    requires bytes != [] && IsDigit(bytes[0])
    ensures Guarded(s, bytes) == Guarded(PushKeyLen(s), bytes)
  {
    assert Step(s, bytes[0]) == StepKeyLen(PushKeyLen(s), bytes[0]) == Step(PushKeyLen(s), bytes[0]);
  }

  /** The state after the opening byte of a container. */
  function Opened(s: State, tok: Token, c: Callback): State {
    Emit(SetTop(s, s.Top().(tok := tok, pos := 0)), c)
  }

  lemma PopContainer(s: State, leave: Expected)
    requires Below(s) && s.Top().tok in {LIST, DICT}
    requires Agrees(if s.Top().tok == LIST then ListLeave(s.Top().key) else DictLeave(s.Top().key), leave)
    ensures Closed(s, Pop(s), [leave])
  {
    var t := Pop(s);
    var exp := [leave] + AfterPop(s);
    if s.d > 0 { assert s.stk[s.d - 1].tok in {LIST, DICT}; }
    assert |t.out| == |s.out| + |exp|;
    forall i | 0 <= i < |exp| ensures Agrees(t.out[|s.out| + i], exp[i]) {
    }
  }

  lemma ContainerCloses(s: State, s1: State, s2: State, t: State, enter: Expected, exp: seq<Expected>, leave: Expected)
    requires s1.nframes == s.nframes && s1.d == s.d && s1.stk[..s.d] == s.stk[..s.d]
    requires s.out <= s1.out && |s1.out| == |s.out| + 1 && Agrees(s1.out[|s.out|], enter)
    requires Continues(s1, s2, exp) && Closed(s2, t, [leave])
    ensures Closed(s, t, [enter] + exp + [leave])
  {
    assert s2.stk[..s.d] == s.stk[..s.d] by {
      assert s2.stk[..s.d] == s2.stk[..s.d + 1][..s.d];
      assert s1.stk[..s.d] == s1.stk[..s.d + 1][..s.d];
    }
    if s.d > 0 {
      assert s2.stk[s.d - 1] == s2.stk[..s.d][s.d - 1] == s.stk[..s.d][s.d - 1];
    }
    var tail := [leave] + AfterPop(s);
    assert [enter] + exp + [leave] + AfterPop(s) == [enter] + (exp + tail);
    MeetsPrefix(s2.out, t.out, |s1.out|, exp);
    assert t.out[|s.out|] == s1.out[|s.out|];
    MeetsConcat(t.out, |s1.out|, exp, tail);
    MeetsConcat(t.out, |s.out|, [enter], exp + tail);
  }

  /** The closing byte of a container whose members have been read. */
  lemma EndContainer(s1: State, s2: State, bytes: seq<byte>, exp: seq<Expected>, leave: Expected)
    requires Below(s1) && s1.d < s1.nframes && s1.Top().tok in {LIST, DICT}
    requires Agrees(if s1.Top().tok == LIST then ListLeave(s1.Top().key) else DictLeave(s1.Top().key), leave)
    requires Guarded(s1, bytes) == Go(s2) && Continues(s1, s2, exp)
    ensures Guarded(s1, bytes + [CHAR_E]) == Go(Pop(s2))
    ensures Closed(s2, Pop(s2), [leave])
  {
    ContinuesKeeps(s1, s2, exp);
    PopContainer(s2, leave);
    GuardedConcat(s1, bytes, [CHAR_E]);
    assert [CHAR_E] + [] == [CHAR_E];
    GuardedByte(s2, CHAR_E, []);
  }

  lemma ListOpens(s: State, bytes: seq<byte>)
    requires Ready(s) && s.d < s.nframes
    ensures Guarded(s, [CHAR_L] + bytes) == Guarded(Opened(s, LIST, ListEnter(s.Top().key)), bytes)
  {
    ListStarts(s);
    hide Step, Guarded, Opened;
    GuardedByte(s, CHAR_L, bytes);
  }

  lemma ListStarts(s: State)
    requires Ready(s)
    ensures Step(s, CHAR_L) == Go(Opened(s, LIST, ListEnter(s.Top().key)))
  {
  }

  lemma ReadList(s: State, items: Items, key: Option<seq<byte>>)
    requires Ready(s) && Below(s) && s.d < s.nframes && KeyAgrees(s.Top().key, key)
    requires var s1 := Opened(s, LIST, ListEnter(s.Top().key));
             && Guarded(s1, EncodeItems(items)).Go?
             && Continues(s1, Guarded(s1, EncodeItems(items)).s, TraverseItems(items))
    ensures Reads(s, Encode(List(items)), Traverse(List(items), key))
  {
    var s1 := Opened(s, LIST, ListEnter(s.Top().key));
    var bytes := EncodeItems(items);
    var s2 := Guarded(s1, bytes).s;
    assert Encode(List(items)) == [CHAR_L] + (bytes + [CHAR_E]);
    ListOpens(s, bytes + [CHAR_E]);
    hide Guarded, Pop, Continues;
    EndContainer(s1, s2, bytes, TraverseItems(items), ListLeave(key));
    ContainerCloses(s, s1, s2, Pop(s2), ListEnter(key), TraverseItems(items), ListLeave(key));
  }

  lemma DictOpens(s: State, bytes: seq<byte>)
    requires Ready(s) && s.d + 1 < s.nframes && bytes != [] && IsDigit(bytes[0])
    ensures Guarded(s, [CHAR_D] + bytes) == Guarded(Opened(s, DICT, DictEnter(s.Top().key)), bytes)
  {
    DictStarts(s);
    DictBegins(Opened(s, DICT, DictEnter(s.Top().key)), bytes);
    hide Step, Guarded, Opened;
    GuardedByte(s, CHAR_D, bytes);
  }

  lemma DictStarts(s: State)
    requires Ready(s) && s.d < s.nframes
    ensures Step(s, CHAR_D) == Go(PushKeyLen(Opened(s, DICT, DictEnter(s.Top().key))))
  {
  }

  lemma ReadDict(s: State, entries: Entries, key: Option<seq<byte>>)
    requires Ready(s) && Below(s) && s.d + 1 < s.nframes && KeyAgrees(s.Top().key, key)
    requires entries.Entry?
    requires var s1 := Opened(s, DICT, DictEnter(s.Top().key));
             && Guarded(s1, EncodeEntries(entries)).Go?
             && Continues(s1, Guarded(s1, EncodeEntries(entries)).s, TraverseEntries(entries))
    ensures Reads(s, Encode(Dict(entries)), Traverse(Dict(entries), key))
  {
    var s1 := Opened(s, DICT, DictEnter(s.Top().key));
    var bytes := EncodeEntries(entries);
    var s2 := Guarded(s1, bytes).s;
    assert Encode(Dict(entries)) == [CHAR_D] + (bytes + [CHAR_E]);
    DictOpens(s, bytes + [CHAR_E]);
    hide Guarded, Pop, Continues;
    EndContainer(s1, s2, bytes, TraverseEntries(entries), DictLeave(key));
    ContainerCloses(s, s1, s2, Pop(s2), DictEnter(key), TraverseEntries(entries), DictLeave(key));
  }

  lemma {:induction false} ReadValue(s: State, v: Value, key: Option<seq<byte>>)
    requires Ready(s) && Below(s) && KeyAgrees(s.Top().key, key)
    requires Supported(v, SizeLimit(s.d)) && s.d + Depth(v) < s.nframes
    ensures Reads(s, Encode(v), Traverse(v, key))
    decreases v
  {
    match v
    case Int(n) => ReadInt(s, n, key);
    case Str(str) => ReadStr(s, str, key);
    case List(items) =>
      ReadItems(Opened(s, LIST, ListEnter(s.Top().key)), items);
      ReadList(s, items, key);
    case Dict(entries) =>
      ReadEntries(Opened(s, DICT, DictEnter(s.Top().key)), entries);
      ReadDict(s, entries, key);
  }

  lemma NothingRead(s: State)
    requires s.d < s.nframes
    ensures Guarded(s, []) == Go(s) && Continues(s, s, [])
  {
  }

  /** The frame of a list item. */
  lemma ItemFrame(s: State)
    requires Below(s) && s.Top().tok == LIST && s.d + 1 < s.nframes
    ensures var m := Push(s);
      && Ready(m) && Below(m) && KeyAgrees(m.Top().key, None) && AfterPop(m) == [ListNext]
      && m.nframes == s.nframes && m.d == s.d + 1 && m.out == s.out && m.stk[..s.d + 1] == s.stk[..s.d + 1]
      && SizeLimit(m.d) == INNER_LIMIT
  {
  }

  lemma ItemRead(s: State, head: Value, more: seq<byte>, exp: seq<Expected>)
    requires Below(s) && s.Top().tok == LIST && s.d + 1 < s.nframes
    requires Reads(Push(s), Encode(head), exp)
    ensures var t := Guarded(Push(s), Encode(head)).s;
      && Continues(s, t, exp + [ListNext])
      && Guarded(s, Encode(head) + more) == Guarded(t, more)
  {
    var m := Push(s);
    ItemFrame(s);
    MemberContinues(s, m, Guarded(m, Encode(head)).s, exp);
    ListBegins(s, Encode(head) + more);
    hide Guarded, Encode, Push;
    GuardedConcat(m, Encode(head), more);
  }

  lemma {:induction false} ReadItems(s: State, items: Items)
    requires Below(s) && s.Top().tok == LIST && s.d < s.nframes
    requires SupportedItems(items) && s.d + ItemsDepth(items) < s.nframes
    ensures Guarded(s, EncodeItems(items)).Go?
    ensures Continues(s, Guarded(s, EncodeItems(items)).s, TraverseItems(items))
    decreases items
  {
    hide *;
    match items
    case NoItem =>
      NoItemUnfolds();
      NothingRead(s);
    case Item(head, tail) =>
      var m, exp := Push(s), Traverse(head, None);
      ItemUnfolds(head, tail);
      ItemFrame(s);
      ReadValue(m, head, None);
      ItemRead(s, head, EncodeItems(tail), exp);
      var t := Guarded(m, Encode(head)).s;
      ContinuesKeeps(s, t, exp + [ListNext]);
      ContinuesDepth(s, t, exp + [ListNext]);
      ReadItems(t, tail);
      ContinuesTrans(s, t, Guarded(t, EncodeItems(tail)).s, exp + [ListNext], TraverseItems(tail));
  }

  lemma ContinuesKeeps(s: State, t: State, exp: seq<Expected>)
    requires Below(s) && Continues(s, t, exp)
    ensures Below(t) && t.Top() == s.Top()
  {
    assert t.Top() == t.stk[..s.d + 1][s.d] == s.stk[..s.d + 1][s.d];
    forall i | 0 <= i < t.d ensures t.stk[i].tok in {LIST, DICT} {
      assert t.stk[i] == t.stk[..s.d + 1][i] == s.stk[..s.d + 1][i];
    }
  }

  /** The frame of an entry's value, once its key was read. */
  lemma EntryFrame(s: State, key: seq<byte>)
    requires Below(s) && s.Top().tok == DICT && s.d + 1 < s.nframes
    ensures var m := Keyed(PushKeyLen(s), key);
      && Ready(m) && Below(m) && KeyAgrees(m.Top().key, Some(key)) && AfterPop(m) == [DictNext]
      && m.nframes == s.nframes && m.d == s.d + 1 && m.out == s.out && m.stk[..s.d + 1] == s.stk[..s.d + 1]
      && SizeLimit(m.d) == INNER_LIMIT
  {
  }

  lemma EntryRead(s: State, key: seq<byte>, val: Value, more: seq<byte>, exp: seq<Expected>)
    requires Below(s) && s.Top().tok == DICT && s.d + 1 < s.nframes && 0 < |key| < INNER_LIMIT
    requires Reads(Keyed(PushKeyLen(s), key), Encode(val), exp)
    ensures var t := Guarded(Keyed(PushKeyLen(s), key), Encode(val)).s;
      && Continues(s, t, exp + [DictNext])
      && Guarded(s, EncodeKey(key) + (Encode(val) + more)) == Guarded(t, more)
  {
    var k := PushKeyLen(s);
    var m := Keyed(k, key);
    EntryFrame(s, key);
    ReadKey(k, key);
    MemberContinues(s, m, Guarded(m, Encode(val)).s, exp);
    DictBegins(s, EncodeKey(key) + (Encode(val) + more));
    hide Guarded, Encode, EncodeKey;
    GuardedConcat(k, EncodeKey(key), Encode(val) + more);
    GuardedConcat(m, Encode(val), more);
  }

  lemma {:induction false} ReadEntries(s: State, entries: Entries)
    requires Below(s) && s.Top().tok == DICT && s.d < s.nframes
    requires SupportedEntries(entries) && s.d + EntriesDepth(entries) < s.nframes
    ensures Guarded(s, EncodeEntries(entries)).Go?
    ensures Continues(s, Guarded(s, EncodeEntries(entries)).s, TraverseEntries(entries))
    decreases entries
  {
    hide *;
    match entries
    case NoEntry =>
      NoEntryUnfolds();
      NothingRead(s);
    case Entry(key, val, rest) =>
      var m, exp := Keyed(PushKeyLen(s), key), Traverse(val, Some(key));
      EntryUnfolds(key, val, rest);
      EntryFrame(s, key);
      ReadValue(m, val, Some(key));
      EntryRead(s, key, val, EncodeEntries(rest), exp);
      var t := Guarded(m, Encode(val)).s;
      ContinuesKeeps(s, t, exp + [DictNext]);
      ContinuesDepth(s, t, exp + [DictNext]);
      ReadEntries(t, rest);
      ContinuesTrans(s, t, Guarded(t, EncodeEntries(rest)).s, exp + [DictNext], TraverseEntries(rest));
  }

  lemma ContinuesDepth(s: State, t: State, exp: seq<Expected>)
    requires Continues(s, t, exp)
    ensures t.d == s.d && t.nframes == s.nframes && |t.out| == |s.out| + |exp|
  {
  }
}
