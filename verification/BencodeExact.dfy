/** The exact domain of the bencode parser, and inputs outside it. */
module BencodeExact {
  import opened Common
  import opened BencodeSyntax
  import opened BencodeMachine
  import opened BencodeProof

  /** A run over `bytes` succeeds and its callbacks start with `exp`. */
  predicate Observes(s: State, bytes: seq<byte>, exp: seq<Expected>) {
    Guarded(s, bytes).Go? && Meets(Guarded(s, bytes).s.out, |s.out|, exp)
  }

  lemma IntOutside(s: State, n: int, rest: seq<byte>)
    requires Ready(s) && !(0 <= n <= INT_MAX)
    ensures !Guarded(s, Encode(Int(n)) + rest).Go?
  {
    var s1 := SetTop(s, s.Top().(tok := INT, pos := 0));
    if s.d < s.nframes {
      if n < 0 {
        var more := Digits(-n) + [CHAR_E] + rest;
        assert Encode(Int(n)) + rest == [CHAR_I] + ([CHAR_MINUS] + more);
        GuardedByte(s, CHAR_I, [CHAR_MINUS] + more);
        GuardedByte(s1, CHAR_MINUS, more);
      } else {
        assert Encode(Int(n)) + rest == [CHAR_I] + (Digits(n) + ([CHAR_E] + rest));
        GuardedByte(s, CHAR_I, Digits(n) + ([CHAR_E] + rest));
        FeedIntDigits(s1, n);
        GuardedConcat(s1, Digits(n), [CHAR_E] + rest);
      }
    }
  }

  /** A string whose length passes what its buffer can grow to is never completed. */
  lemma StrOutside(s: State, str: seq<byte>, rest: seq<byte>)
    requires Ready(s) && SizeLimit(s.d) <= |str|
    ensures !Guarded(s, Encode(Str(str)) + rest).Go?
  {
    var s1 := SetTop(s, s.Top().(tok := STR_LEN, pos := 0));
    if s.d < s.nframes {
      hide Guarded, Step;
      var more := [CHAR_COLON] + (str + rest);
      assert Encode(Str(str)) + rest == Digits(|str|) + more;
      BeginDigits(s, |str|, more);
      FeedLenDigits(s1, |str|);
      GuardedConcat(s1, Digits(|str|), more);
      if |str| <= INT_MAX { LongStrAborts(SetTop(s1, s1.Top().(len := |str|)), str, rest); }
    }
  }

  lemma LongStrAborts(s: State, str: seq<byte>, rest: seq<byte>)
    requires s.d < s.nframes && s.Top().tok == STR_LEN && s.Top().len == |str| && SizeLimit(s.d) <= |str|
    ensures !Guarded(s, [CHAR_COLON] + (str + rest)).Go?
  {
    var s1 := SetTop(s, s.Top().(tok := STR, pos := 0));
    assert Step(s, CHAR_COLON) == Go(s1);
    GuardedByte(s, CHAR_COLON, str + rest);
    LongBodyAborts(s1, str, rest);
  }

  /** A string or key body that reaches the largest buffer size. */
  lemma {:induction false} LongBodyAborts(s: State, body: seq<byte>, rest: seq<byte>)
    requires s.Top().tok in {STR, DICT_KEY} && s.Top().pos < SizeLimit(s.d) <= s.Top().len
    requires s.Top().len == s.Top().pos + |body|
    ensures !Guarded(s, body + rest).Go?
    decreases |body|
  {
    assert body + rest == [body[0]] + (body[1..] + rest);
    if s.d < s.nframes {
      GuardedByte(s, body[0], body[1..] + rest);
      if s.Top().pos + 1 < SizeLimit(s.d) {
        LongBodyAborts(Step(s, body[0]).s, body[1..], rest);
      }
    }
  }

  /** A key of length 0 is never completed: no callback follows. */
  lemma {:induction false} EmptyKeyNeverEnds(s: State, a: seq<byte>)
    requires s.Top().tok == DICT_KEY && s.Top().len <= s.Top().pos
    requires Guarded(s, a).Go?
    ensures Guarded(s, a).s.out == s.out
    decreases |a|
  {
    if a != [] { EmptyKeyNeverEnds(Step(s, a[0]).s, a[1..]); }
  }

  lemma ObservedKey(s: State, key: seq<byte>, more: seq<byte>)
    requires s.Top().tok == DICT_KEYLEN && s.Top().len == 0
    requires Guarded(s, EncodeKey(key) + more).Go?
    requires s.out != Guarded(s, EncodeKey(key) + more).s.out
    ensures 0 < |key| < SizeLimit(s.d)
  {
    assert EncodeKey(key) + more == Digits(|key|) + ([CHAR_COLON] + (key + more));
    FeedLenDigits(s, |key|);
    GuardedConcat(s, Digits(|key|), [CHAR_COLON] + (key + more));
    var s1 := SetTop(s, s.Top().(len := |key|));
    var s2 := SetTop(s1, s1.Top().(tok := DICT_KEY, pos := 0));
    GuardedByte(s1, CHAR_COLON, key + more);
    if |key| == 0 {
      EmptyKeyNeverEnds(s2, key + more);
    } else if SizeLimit(s.d) <= |key| {
      LongBodyAborts(s2, key, more);
    }
  }

  lemma RoomInList(s: State, bytes: seq<byte>)
    requires s.Top().tok == LIST && bytes != [] && StartsValue(bytes[0])
    requires Guarded(s, bytes).Go?
    ensures s.d + 1 < s.nframes
  {
    assert Step(s, bytes[0]) == Begin(Push(s), bytes[0]);
    assert Begin(Push(s), bytes[0]).s.d >= s.d + 1 && Begin(Push(s), bytes[0]).s.nframes == s.nframes;
  }

  /** The state after `de`: the end mark closed the frame of a key. */
  function AfterEmptyDict(s: State): State
    requires s.d < s.nframes
  {
    Pop(PushKeyLen(Opened(s, DICT, DictEnter(s.Top().key))))
  }

  lemma EmptyDictRuns(s: State, rest: seq<byte>)
    requires Ready(s) && Guarded(s, [CHAR_D] + ([CHAR_E] + rest)).Go?
    ensures s.d < s.nframes && Guarded(s, [CHAR_D] + ([CHAR_E] + rest)) == Guarded(AfterEmptyDict(s), rest)
  {
    GuardedByte(s, CHAR_D, [CHAR_E] + rest);
    GuardedByte(PushKeyLen(Opened(s, DICT, DictEnter(s.Top().key))), CHAR_E, rest);
  }

  lemma EmptyDictTells(s: State)
    requires Ready(s) && s.d < s.nframes
    ensures AfterEmptyDict(s).out == s.out + [DictEnter(s.Top().key), DictNext]
  {
  }

  /** `de` is read as an entry that never came: the dictionary stays open. */
  lemma EmptyDictStaysOpen(s: State, key: Option<seq<byte>>, rest: seq<byte>)
    requires Ready(s) && Below(s)
    ensures !Observes(s, Encode(Dict(NoEntry)) + rest, Traverse(Dict(NoEntry), key))
  {
    var bytes := Encode(Dict(NoEntry)) + rest;
    assert bytes == [CHAR_D] + ([CHAR_E] + rest);
    assert Traverse(Dict(NoEntry), key)[1] == DictLeave(key) && |Traverse(Dict(NoEntry), key)| == 2;
    hide Guarded, AfterEmptyDict, Encode, Traverse;
    if Guarded(s, bytes).Go? {
      EmptyDictRuns(s, rest);
      EmptyDictTells(s);
      GuardedAppends(AfterEmptyDict(s), rest);
      assert Guarded(s, bytes).s.out[|s.out| + 1] == DictNext;
    }
  }

  lemma {:induction false} ObservedValue(s: State, v: Value, key: Option<seq<byte>>, rest: seq<byte>)
    requires Ready(s) && Below(s) && KeyAgrees(s.Top().key, key)
    requires Observes(s, Encode(v) + rest, Traverse(v, key))
    ensures Supported(v, SizeLimit(s.d)) && s.d + Depth(v) < s.nframes
    decreases v
  {
    match v
    case Int(n) =>
      if !(0 <= n <= INT_MAX) { IntOutside(s, n, rest); }
    case Str(str) =>
      if SizeLimit(s.d) <= |str| { StrOutside(s, str, rest); }
    case List(items) =>
      var s1 := ObservedList(s, items, key, rest);
      ObservedItems(s1, items, [CHAR_E] + rest);
    case Dict(entries) =>
      if entries.NoEntry? {
        EmptyDictStaysOpen(s, key, rest);
      } else {
        var s1 := ObservedDict(s, entries, key, rest);
        ObservedEntries(s1, entries, [CHAR_E] + rest);
      }
  }

  lemma ObservedMiddle(s: State, s1: State, f: State, enter: Expected, exp: seq<Expected>, leave: Expected)
    requires |s1.out| == |s.out| + 1
    requires Meets(f.out, |s.out|, [enter] + exp + [leave])
    ensures Meets(f.out, |s1.out|, exp)
  {
    assert [enter] + exp + [leave] == [enter] + (exp + [leave]);
    MeetsConcat(f.out, |s.out|, [enter], exp + [leave]);
    MeetsConcat(f.out, |s1.out|, exp, [leave]);
  }

  lemma ObservedList(s: State, items: Items, key: Option<seq<byte>>, rest: seq<byte>) returns (s1: State)
    requires Ready(s)
    requires Observes(s, Encode(List(items)) + rest, Traverse(List(items), key))
    ensures s1 == Opened(s, LIST, ListEnter(s.Top().key))
    ensures Observes(s1, EncodeItems(items) + ([CHAR_E] + rest), TraverseItems(items))
  {
    hide Guarded, Meets;
    s1 := Opened(s, LIST, ListEnter(s.Top().key));
    var bytes := EncodeItems(items) + ([CHAR_E] + rest);
    ListWritten(items, key, rest);
    hide Encode, Traverse;
    GuardedRoom(s, Encode(List(items)) + rest);
    ListOpens(s, bytes);
    ObservedMiddle(s, s1, Guarded(s, [CHAR_L] + bytes).s, ListEnter(key), TraverseItems(items), ListLeave(key));
  }

  lemma ListWritten(items: Items, key: Option<seq<byte>>, rest: seq<byte>)
    ensures Encode(List(items)) + rest == [CHAR_L] + (EncodeItems(items) + ([CHAR_E] + rest))
    ensures Traverse(List(items), key) == [ListEnter(key)] + TraverseItems(items) + [ListLeave(key)]
  {
  }

  lemma GuardedRoom(s: State, bytes: seq<byte>)
    requires Guarded(s, bytes).Go?
    ensures s.d < s.nframes
  {
  }

  lemma ObservedDict(s: State, entries: Entries, key: Option<seq<byte>>, rest: seq<byte>) returns (s1: State)
    requires Ready(s) && entries.Entry?
    requires Observes(s, Encode(Dict(entries)) + rest, Traverse(Dict(entries), key))
    ensures s1 == Opened(s, DICT, DictEnter(s.Top().key)) && s1.d + 1 < s1.nframes
    ensures Observes(s1, EncodeEntries(entries) + ([CHAR_E] + rest), TraverseEntries(entries))
  {
    s1 := Opened(s, DICT, DictEnter(s.Top().key));
    var bytes := EncodeEntries(entries) + ([CHAR_E] + rest);
    assert Encode(Dict(entries)) + rest == [CHAR_D] + bytes;
    GuardedByte(s, CHAR_D, bytes);
    DictBegins(s1, bytes);
    ObservedMiddle(s, s1, Guarded(s, [CHAR_D] + bytes).s, DictEnter(key), TraverseEntries(entries), DictLeave(key));
  }

  lemma ObservedFirst(s: State, bytes: seq<byte>, a: seq<Expected>, b: seq<Expected>, c: seq<Expected>)
    requires Observes(s, bytes, a + b + c)
    ensures Observes(s, bytes, a)
  {
    hide Guarded, Meets;
    var out := Guarded(s, bytes).s.out;
    MeetsConcat(out, |s.out|, a + b, c);
    MeetsConcat(out, |s.out|, a, b);
  }

  lemma ObservedItemFirst(s: State, head: Value, rest: seq<byte>, exp: seq<Expected>, others: seq<Expected>)
    requires Below(s) && s.Top().tok == LIST
    requires Observes(s, Encode(head) + rest, exp + [ListNext] + others)
    ensures s.d + 1 < s.nframes && Ready(Push(s)) && Below(Push(s)) && KeyAgrees(Push(s).Top().key, None)
    ensures Observes(Push(s), Encode(head) + rest, exp + [ListNext] + others)
    ensures Observes(Push(s), Encode(head) + rest, exp)
  {
    RoomInList(s, Encode(head) + rest);
    ListBegins(s, Encode(head) + rest);
    ObservedFirst(Push(s), Encode(head) + rest, exp, [ListNext], others);
  }

  lemma ObservedItemRest(s: State, head: Value, rest: seq<byte>, exp: seq<Expected>, others: seq<Expected>)
    requires Below(s) && s.Top().tok == LIST && s.d + 1 < s.nframes
    requires Observes(s, Encode(head) + rest, exp + [ListNext] + others)
    requires Reads(Push(s), Encode(head), exp)
    ensures var t := Guarded(Push(s), Encode(head)).s;
      Observes(t, rest, others) && t.nframes == s.nframes && t.d == s.d && t.Top() == s.Top() && Below(t)
  {
    var t := Guarded(Push(s), Encode(head)).s;
    hide *;
    ItemRead(s, head, rest, exp);
    ContinuesKeeps(s, t, exp + [ListNext]);
    ContinuesDepth(s, t, exp + [ListNext]);
    ObservedLater(s, t, Encode(head) + rest, rest, exp + [ListNext], others);
  }

  lemma {:induction false} ObservedItems(s: State, items: Items, more: seq<byte>)
    requires Below(s) && s.Top().tok == LIST
    requires Observes(s, EncodeItems(items) + more, TraverseItems(items))
    ensures SupportedItems(items) && s.d + ItemsDepth(items) < s.nframes
    decreases items
  {
    hide *;
    match items
    case NoItem =>
      NoItemUnfolds();
      ObservedRoom(s, EncodeItems(NoItem) + more, TraverseItems(NoItem));
    case Item(head, tail) =>
      var rest := EncodeItems(tail) + more;
      var exp := Traverse(head, None);
      ItemUnfolds(head, tail);
      assert EncodeItems(items) + more == Encode(head) + rest;
      ObservedItemFirst(s, head, rest, exp, TraverseItems(tail));
      ItemFrame(s);
      ObservedValue(Push(s), head, None, rest);
      ReadValue(Push(s), head, None);
      ObservedItemRest(s, head, rest, exp, TraverseItems(tail));
      ObservedItems(Guarded(Push(s), Encode(head)).s, tail, more);
  }

  lemma ObservedRoom(s: State, bytes: seq<byte>, exp: seq<Expected>)
    requires Observes(s, bytes, exp)
    ensures s.d < s.nframes
  {
  }

  lemma ObservedEntryFirst(s: State, key: seq<byte>, bytes: seq<byte>, exp: seq<Expected>, others: seq<Expected>)
    requires Below(s) && s.Top().tok == DICT && s.d + 1 < s.nframes
    requires Observes(s, EncodeKey(key) + bytes, exp + [DictNext] + others)
    ensures 0 < |key| < INNER_LIMIT && Observes(Keyed(PushKeyLen(s), key), bytes, exp)
  {
    DictBegins(s, EncodeKey(key) + bytes);
    var m := ObservedEntry(s, key, bytes, exp + [DictNext] + others);
    ObservedFirst(m, bytes, exp, [DictNext], others);
  }

  lemma ObservedEntryRest(s: State, key: seq<byte>, val: Value, rest: seq<byte>, exp: seq<Expected>,
                          others: seq<Expected>)
    requires Below(s) && s.Top().tok == DICT && s.d + 1 < s.nframes && 0 < |key| < INNER_LIMIT
    requires Observes(s, EncodeKey(key) + (Encode(val) + rest), exp + [DictNext] + others)
    requires Reads(Keyed(PushKeyLen(s), key), Encode(val), exp)
    ensures var t := Guarded(Keyed(PushKeyLen(s), key), Encode(val)).s;
      Observes(t, rest, others) && t.nframes == s.nframes && t.d == s.d && t.Top() == s.Top() && Below(t)
  {
    var t := Guarded(Keyed(PushKeyLen(s), key), Encode(val)).s;
    hide *;
    EntryRead(s, key, val, rest, exp);
    ContinuesKeeps(s, t, exp + [DictNext]);
    ContinuesDepth(s, t, exp + [DictNext]);
    ObservedLater(s, t, EncodeKey(key) + (Encode(val) + rest), rest, exp + [DictNext], others);
  }

  /** Where the same bytes lead on from another state, the later callbacks are observed from there. */
  lemma ObservedLater(s: State, t: State, bytes: seq<byte>, rest: seq<byte>, exp: seq<Expected>, others: seq<Expected>)
    requires Observes(s, bytes, exp + others)
    requires Guarded(s, bytes) == Guarded(t, rest) && |t.out| == |s.out| + |exp|
    ensures Observes(t, rest, others)
  {
    hide Guarded, Meets;
    MeetsConcat(Guarded(t, rest).s.out, |s.out|, exp, others);
  }

  lemma {:induction false} ObservedEntries(s: State, entries: Entries, more: seq<byte>)
    requires Below(s) && s.Top().tok == DICT && s.d + 1 < s.nframes
    requires Observes(s, EncodeEntries(entries) + more, TraverseEntries(entries))
    ensures SupportedEntries(entries) && s.d + EntriesDepth(entries) < s.nframes
    decreases entries
  {
    hide *;
    match entries
    case NoEntry => NoEntryUnfolds();
    case Entry(key, val, tail) =>
      var rest := EncodeEntries(tail) + more;
      var exp := Traverse(val, Some(key));
      var m := Keyed(PushKeyLen(s), key);
      EntryUnfolds(key, val, tail);
      assert EncodeEntries(entries) + more == EncodeKey(key) + (Encode(val) + rest);
      ObservedEntryFirst(s, key, Encode(val) + rest, exp, TraverseEntries(tail));
      EntryFrame(s, key);
      ObservedValue(m, val, Some(key), rest);
      ReadValue(m, val, Some(key));
      ObservedEntryRest(s, key, val, rest, exp, TraverseEntries(tail));
      ObservedEntries(Guarded(m, Encode(val)).s, tail, more);
  }

  lemma ObservedEntry(s: State, key: seq<byte>, rest: seq<byte>, exp: seq<Expected>) returns (m: State)
    requires Below(s) && s.Top().tok == DICT && s.d + 1 < s.nframes
    requires exp != [] && Observes(PushKeyLen(s), EncodeKey(key) + rest, exp)
    ensures 0 < |key| < INNER_LIMIT
    ensures m == Keyed(PushKeyLen(s), key) && Observes(m, rest, exp)
  {
    var k := PushKeyLen(s);
    m := Keyed(k, key);
    ObservedKey(k, key, rest);
    ReadKey(k, key);
    GuardedConcat(k, EncodeKey(key), rest);
  }

  // ---------------------------------------------------------------------------------

  /** Every call returned 1 and the callbacks are exactly those of a traversal of `v`. */
  predicate Parsed(o: Outcome, v: Value) {
    o.Go? && Exactly(o.s.out, Traverse(v, None))
  }

  lemma SupportedParsed(v: Value, n: nat, bufs: seq<seq<byte>>)
    requires Supported(v, OUTER_LIMIT) && Depth(v) < n
    requires Flatten(bufs) == Encode(v)
    ensures Parsed(DispatchAll(Init(n), bufs), v)
  {
    ReadValue(Init(n), v, None);
    GuardedImpliesEveryCut(Init(n), bufs);
    assert Traverse(v, None) + [] == Traverse(v, None);
  }

  lemma ParsedByteWise(v: Value, n: nat)
    requires Parsed(DispatchAll(Init(n), ByteWise(Encode(v))), v)
    ensures Supported(v, OUTER_LIMIT) && Depth(v) < n
  {
    ByteWiseIsGuarded(Init(n), Encode(v));
    assert Encode(v) + [] == Encode(v);
    ObservedValue(Init(n), v, None, []);
  }

  ghost predicate ParsedUnderEveryCut(v: Value, n: nat) {
    forall bufs :: Flatten(bufs) == Encode(v) ==> Parsed(DispatchAll(Init(n), bufs), v)
  }

  /** The streaming theorem: a parser made for `n` levels reports a value correctly under every
      cut of its encoding exactly when the value is supported and nested less than `n` deep. */
  lemma StreamingIsExact(v: Value, n: nat)
    ensures ParsedUnderEveryCut(v, n) <==> Supported(v, OUTER_LIMIT) && Depth(v) < n
  {
    if Supported(v, OUTER_LIMIT) && Depth(v) < n {
      forall bufs | Flatten(bufs) == Encode(v) ensures Parsed(DispatchAll(Init(n), bufs), v) {
        SupportedParsed(v, n, bufs);
      }
    }
    if ParsedUnderEveryCut(v, n) {
      ByteWiseIsGuarded(Init(n), Encode(v));
      ParsedByteWise(v, n);
    }
  }

  // ---------------------------------------------------------------------------------
  // Outside the domain

  /** The parser never reports an empty dictionary correctly, whatever its capacity. */
  lemma EmptyDictNeverParsed(n: nat)
    ensures !ParsedUnderEveryCut(Dict(NoEntry), n)
  {
    StreamingIsExact(Dict(NoEntry), n);
  }

  /** The interface announces a null key for list entries. In fact the key of a list item is
      never null: it is the buffer its frame kept from an earlier dictionary entry, if any. */
  lemma ListItemKeyIsStale(s: State, n: nat)
    requires Below(s) && s.Top().tok == LIST && s.d + 1 < s.nframes
    requires n <= INT_MAX
    ensures Guarded(s, Encode(Int(n))).Go?
    ensures var out := Guarded(s, Encode(Int(n))).s.out;
            |s.out| < |out| && out[|s.out|].IntHit? && out[|s.out|].n == n && out[|s.out|].key != Null
    ensures var out := Guarded(s, Encode(Int(n))).s.out;
            s.stk[s.d + 1].key.Text? ==> out[|s.out|].key == s.stk[s.d + 1].key
  {
    ItemFrame(s);
    hide Guarded, Step, Pop, Encode;
    ListBegins(s, Encode(Int(n)));
    FeedInt(Push(s), n);
    PopAppends(Emit(IntRead(Push(s), n), IntHit(Push(s).Top().key, n)));
  }
}
