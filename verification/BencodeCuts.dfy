/** Nesting as deep as the parser has frames: whether such a value is reported depends on the cuts. */
module BencodeCuts {
  import opened Common
  import opened BencodeSyntax
  import opened BencodeMachine
  import opened BencodeProof
  import opened BencodeExact

  // ---------------------------------------------------------------------------------
  // Nesting depth by position

  function Flat(d: nat, n: nat): seq<nat> {
    seq(n, _ => d)
  }

  /** The depth before every byte of the encoding but the first, where the value itself has depth `d`. */
  function Inner(v: Value, d: nat): (ds: seq<nat>)
    ensures |ds| == |Encode(v)| - 1
  {
    match v
    case Int(_) => Flat(d, |Encode(v)| - 1)
    case Str(_) => Flat(d, |Encode(v)| - 1)
    case List(items) => InnerItems(items, d) + [d]
    case Dict(entries) => InnerEntries(entries, d, d + 1) + [d]
  }

  /** The first byte of an item opens its frame. */
  function InnerItems(items: Items, d: nat): (ds: seq<nat>)
    ensures |ds| == |EncodeItems(items)|
  {
    match items
    case NoItem => []
    case Item(head, tail) => [d] + Inner(head, d + 1) + InnerItems(tail, d)
  }

  /** The frame of the first entry is opened with the dictionary, that of any other by its first byte. */
  function InnerEntries(entries: Entries, d: nat, first: nat): (ds: seq<nat>)
    ensures |ds| == |EncodeEntries(entries)|
  {
    match entries
    case NoEntry => []
    case Entry(key, val, rest) =>
      [first] + Flat(d + 1, |EncodeKey(key)|) + Inner(val, d + 1) + InnerEntries(rest, d, d)
  }

  /** The depth before every byte of the encoding, and at its end. */
  function Depths(v: Value): (ds: seq<nat>)
    ensures |ds| == |Encode(v)| + 1
  {
    [0] + Inner(v, 0) + [0]
  }

  lemma {:induction false} InnerBound(v: Value, d: nat)
    ensures forall x :: x in Inner(v, d) ==> x <= d + Depth(v)
    decreases v
  {
    match v
    case Int(_) =>
    case Str(_) =>
    case List(items) => InnerItemsBound(items, d);
    case Dict(entries) => InnerEntriesBound(entries, d, d + 1);
  }

  lemma {:induction false} InnerItemsBound(items: Items, d: nat)
    ensures forall x :: x in InnerItems(items, d) ==> x <= d + ItemsDepth(items)
    decreases items
  {
    match items
    case NoItem =>
    case Item(head, tail) =>
      InnerBound(head, d + 1);
      InnerItemsBound(tail, d);
  }

  lemma {:induction false} InnerEntriesBound(entries: Entries, d: nat, first: nat)
    requires first <= d + 1
    ensures forall x :: x in InnerEntries(entries, d, first) ==> x <= d + EntriesDepth(entries)
    decreases entries
  {
    match entries
    case NoEntry =>
    case Entry(key, val, rest) =>
      InnerBound(val, d + 1);
      InnerEntriesBound(rest, d, d);
  }

  /** No position is deeper than the value. */
  lemma DepthsBound(v: Value, p: nat)
    requires p <= |Encode(v)|
    ensures Depths(v)[p] <= Depth(v)
  {
    InnerBound(v, 0);
    var ds := Inner(v, 0);
    if 0 < p < |Encode(v)| { assert Depths(v)[p] == ds[p - 1] && ds[p - 1] in ds; }
  }

  // ---------------------------------------------------------------------------------
  // The depth of the machine

  /** The depth before every byte of a run, up to the first byte that is not accepted. */
  function DepthsFrom(s: State, bytes: seq<byte>): seq<nat>
    decreases |bytes|
  {
    if bytes == [] then []
    else
      [s.d] + match Step(s, bytes[0])
        case Go(t) => DepthsFrom(t, bytes[1..])
        case _ => []
  }

  lemma DepthsByte(s: State, c: byte, t: State, rest: seq<byte>)
    requires Step(s, c) == Go(t)
    ensures DepthsFrom(s, [c] + rest) == [s.d] + DepthsFrom(t, rest)
  {
    assert ([c] + rest)[0] == c && ([c] + rest)[1..] == rest;
  }

  lemma {:induction false} DepthsConcat(s: State, a: seq<byte>, b: seq<byte>)
    requires Feed(s, a).Go?
    ensures DepthsFrom(s, a + b) == DepthsFrom(s, a) + DepthsFrom(Feed(s, a).s, b)
    ensures |DepthsFrom(s, a)| == |a|
    decreases |a|
  {
    hide Step;
    if a == [] {
      assert a + b == b;
    } else {
      var t := Step(s, a[0]).s;
      assert a + b == [a[0]] + (a[1..] + b) && a == [a[0]] + a[1..];
      DepthsConcat(t, a[1..], b);
      DepthsByte(s, a[0], t, a[1..]);
      DepthsByte(s, a[0], t, a[1..] + b);
    }
  }

  lemma GuardedDepths(s: State, a: seq<byte>, t: State, b: seq<byte>)
    requires Guarded(s, a) == Go(t)
    ensures DepthsFrom(s, a + b) == DepthsFrom(s, a) + DepthsFrom(t, b)
  {
    GuardedIsFeed(s, a);
    DepthsConcat(s, a, b);
  }

  lemma {:induction false} DigitDepths(s: State, bytes: seq<byte>)
    requires s.Top().tok in {INT, STR_LEN, DICT_KEYLEN} && Guarded(s, bytes).Go?
    requires forall i :: 0 <= i < |bytes| ==> IsDigit(bytes[i])
    ensures DepthsFrom(s, bytes) == Flat(s.d, |bytes|)
    decreases |bytes|
  {
    if bytes != [] {
      var t := Step(s, bytes[0]).s;
      DigitDepths(t, bytes[1..]);
      assert [s.d] + Flat(t.d, |bytes| - 1) == Flat(s.d, |bytes|);
    }
  }

  lemma {:induction false} BodyDepths(s: State, body: seq<byte>)
    requires s.Top().tok in {STR, DICT_KEY} && Guarded(s, body).Go?
    requires body != [] ==> s.Top().len == s.Top().pos + |body|
    ensures DepthsFrom(s, body) == Flat(s.d, |body|)
    decreases |body|
  {
    if |body| == 1 {
      assert body[1..] == [];
    } else if body != [] {
      var t := Step(s, body[0]).s;
      BodyDepths(t, body[1..]);
      assert [s.d] + Flat(t.d, |body| - 1) == Flat(s.d, |body|);
    }
  }

  lemma FlatSum(d: nat, a: nat, b: nat)
    ensures Flat(d, a) + Flat(d, b) == Flat(d, a + b)
  {
  }

  lemma IntDepths(s: State, n: nat)
    requires Ready(s) && s.d < s.nframes && n <= INT_MAX
    ensures DepthsFrom(s, Encode(Int(n))) == [s.d] + Inner(Int(n), s.d)
  {
    var s1 := SetTop(s, s.Top().(tok := INT, pos := 0));
    var s2 := IntRead(s, n);
    assert Step(s, CHAR_I) == Go(s1);
    assert Encode(Int(n)) == [CHAR_I] + (Digits(n) + [CHAR_E]);
    FeedIntDigits(s1, n);
    assert SetTop(s1, s1.Top().(intval := n)) == s2;
    DepthsByte(s, CHAR_I, s1, Digits(n) + [CHAR_E]);
    GuardedDepths(s1, Digits(n), s2, [CHAR_E]);
    DigitDepths(s1, Digits(n));
    hide Step, Guarded;
    LastDepth(s2, CHAR_E);
    FlatSum(s.d, |Digits(n)|, 1);
  }

  lemma LastDepth(s: State, c: byte)
    ensures DepthsFrom(s, [c]) == [s.d] == Flat(s.d, 1)
  {
  }

  lemma KeyDepths(s: State, key: seq<byte>)
    requires s.d < s.nframes && s.Top().tok == DICT_KEYLEN && s.Top().len == 0
    requires 0 < |key| < SizeLimit(s.d)
    ensures DepthsFrom(s, EncodeKey(key)) == Flat(s.d, |EncodeKey(key)|)
  {
    var s1 := SetTop(s, s.Top().(len := |key|));
    var s2 := SetTop(s1, s1.Top().(tok := DICT_KEY, pos := 0));
    assert EncodeKey(key) == Digits(|key|) + ([CHAR_COLON] + key);
    FeedLenDigits(s, |key|);
    GuardedDepths(s, Digits(|key|), s1, [CHAR_COLON] + key);
    DigitDepths(s, Digits(|key|));
    assert Step(s1, CHAR_COLON) == Go(s2);
    DepthsByte(s1, CHAR_COLON, s2, key);
    FeedKeyBody(s2, key);
    BodyDepths(s2, key);
    hide Step, Guarded;
    FlatSum(s.d, 1, |key|);
    FlatSum(s.d, |Digits(|key|)|, 1 + |key|);
  }

  lemma StrDepths(s: State, str: seq<byte>, key: Option<seq<byte>>)
    requires Ready(s) && Below(s) && s.d < s.nframes && KeyAgrees(s.Top().key, key)
    requires |str| < SizeLimit(s.d)
    ensures DepthsFrom(s, Encode(Str(str))) == [s.d] + Inner(Str(str), s.d)
  {
    var s1 := SetTop(s, s.Top().(tok := STR_LEN, pos := 0));
    var s2 := SetTop(s1, s1.Top().(len := |str|));
    var bytes := Encode(Str(str));
    assert bytes == Digits(|str|) + ([CHAR_COLON] + str);
    FeedLenDigits(s1, |str|);
    DigitDepths(s1, Digits(|str|));
    SameFirstStep(s, s1, bytes);
    GuardedDepths(s1, Digits(|str|), s2, [CHAR_COLON] + str);
    hide Guarded;
    ColonDepths(s2, str, key);
    FlatSum(s.d, |Digits(|str|)|, 1 + |str|);
    FlatSum(s.d, 1, |bytes| - 1);
  }

  lemma SameFirstStep(s: State, s1: State, bytes: seq<byte>)
    requires bytes != [] && IsDigit(bytes[0]) && Ready(s) && s1 == SetTop(s, s.Top().(tok := STR_LEN, pos := 0))
    ensures DepthsFrom(s, bytes) == DepthsFrom(s1, bytes)
  {
    assert Step(s, bytes[0]) == LenDigit(s1, bytes[0]) == Step(s1, bytes[0]);
  }

  lemma ColonDepths(s: State, str: seq<byte>, key: Option<seq<byte>>)
    requires Below(s) && s.d < s.nframes && KeyAgrees(s.Top().key, key)
    requires s.Top().tok == STR_LEN && s.Top().len == |str| < SizeLimit(s.d)
    ensures DepthsFrom(s, [CHAR_COLON] + str) == Flat(s.d, 1 + |str|)
  {
    if str == [] {
      assert [CHAR_COLON] + str == [CHAR_COLON];
      LastDepth(s, CHAR_COLON);
    } else {
      var t := SetTop(s, s.Top().(tok := STR, pos := 0));
      assert Step(s, CHAR_COLON) == Go(t);
      DepthsByte(s, CHAR_COLON, t, str);
      ReadStrBody(t, str, key);
      BodyDepths(t, str);
      FlatSum(s.d, 1, |str|);
    }
  }

  // ---------------------------------------------------------------------------------
  // The depth of the machine inside a value

  /** The depths of a run whose first byte is not at the depth `d`, but at `first`. */
  function From(first: nat, ds: seq<nat>): seq<nat> {
    if ds == [] then [] else [first] + ds[1..]
  }

  lemma ListFirst(s: State, bytes: seq<byte>)
    requires s.Top().tok == LIST && s.d < s.nframes && bytes != [] && StartsValue(bytes[0])
    ensures DepthsFrom(s, bytes) == From(s.d, DepthsFrom(Push(s), bytes))
  {
    assert Step(s, bytes[0]) == Begin(Push(s), bytes[0]) == Step(Push(s), bytes[0]);
  }

  lemma DictFirst(s: State, bytes: seq<byte>)
    requires s.Top().tok == DICT && s.d < s.nframes && bytes != [] && IsDigit(bytes[0])
    ensures DepthsFrom(s, bytes) == From(s.d, DepthsFrom(PushKeyLen(s), bytes))
    ensures DepthsFrom(PushKeyLen(s), bytes) == From(s.d + 1, DepthsFrom(s, bytes))
  {
    assert Step(s, bytes[0]) == StepKeyLen(PushKeyLen(s), bytes[0]) == Step(PushKeyLen(s), bytes[0]);
  }

  /** From a frame ready for a value, the machine is at every byte as deep as the position says. */
  lemma {:induction false} ValueDepths(s: State, v: Value, key: Option<seq<byte>>)
    requires Ready(s) && Below(s) && KeyAgrees(s.Top().key, key)
    requires Supported(v, SizeLimit(s.d)) && s.d + Depth(v) < s.nframes
    ensures DepthsFrom(s, Encode(v)) == [s.d] + Inner(v, s.d)
    decreases v
  {
    match v
    case Int(n) => IntDepths(s, n);
    case Str(str) => StrDepths(s, str, key);
    case List(items) =>
      var s1 := Opened(s, LIST, ListEnter(s.Top().key));
      ItemsDepths(s1, items);
      ReadItems(s1, items);
      ListDepths(s, items);
    case Dict(entries) =>
      var s1 := Opened(s, DICT, DictEnter(s.Top().key));
      EntriesDepths(s1, entries);
      ReadEntries(s1, entries);
      DictDepths(s, entries);
  }

  lemma ListDepths(s: State, items: Items)
    requires Ready(s) && s.d < s.nframes
    requires var s1 := Opened(s, LIST, ListEnter(s.Top().key));
      && Guarded(s1, EncodeItems(items)).Go? && Guarded(s1, EncodeItems(items)).s.d == s.d
      && DepthsFrom(s1, EncodeItems(items)) == InnerItems(items, s.d)
    ensures DepthsFrom(s, Encode(List(items))) == [s.d] + Inner(List(items), s.d)
  {
    var s1 := Opened(s, LIST, ListEnter(s.Top().key));
    var bytes := EncodeItems(items);
    assert Encode(List(items)) == [CHAR_L] + (bytes + [CHAR_E]);
    ListStarts(s);
    hide Step, Guarded, Opened;
    DepthsByte(s, CHAR_L, s1, bytes + [CHAR_E]);
    GuardedDepths(s1, bytes, Guarded(s1, bytes).s, [CHAR_E]);
    LastDepth(Guarded(s1, bytes).s, CHAR_E);
  }

  lemma DictDepths(s: State, entries: Entries)
    requires Ready(s) && s.d < s.nframes && entries.Entry?
    requires var s1 := Opened(s, DICT, DictEnter(s.Top().key));
      && Guarded(s1, EncodeEntries(entries)).Go? && Guarded(s1, EncodeEntries(entries)).s.d == s.d
      && DepthsFrom(s1, EncodeEntries(entries)) == InnerEntries(entries, s.d, s.d)
    ensures DepthsFrom(s, Encode(Dict(entries))) == [s.d] + Inner(Dict(entries), s.d)
  {
    hide *;
    var s1 := Opened(s, DICT, DictEnter(s.Top().key));
    var bytes := EncodeEntries(entries);
    DictShape(entries, s.d);
    DictStarts(s);
    OpenedDict(s);
    DictFirst(s1, bytes + [CHAR_E]);
    DepthsByte(s, CHAR_D, PushKeyLen(s1), bytes + [CHAR_E]);
    GuardedDepths(s1, bytes, Guarded(s1, bytes).s, [CHAR_E]);
    LastDepth(Guarded(s1, bytes).s, CHAR_E);
    FirstEntry(entries, s.d);
    FromConcat(s.d + 1, InnerEntries(entries, s.d, s.d), [s.d]);
  }

  lemma OpenedDict(s: State)
    ensures var s1 := Opened(s, DICT, DictEnter(s.Top().key));
      s1.d == s.d && s1.nframes == s.nframes && s1.Top().tok == DICT
  {
  }

  lemma DictShape(entries: Entries, d: nat)
    ensures Encode(Dict(entries)) == [CHAR_D] + (EncodeEntries(entries) + [CHAR_E])
    ensures Inner(Dict(entries), d) == InnerEntries(entries, d, d + 1) + [d]
  {
    hide EncodeEntries, InnerEntries;
  }

  lemma FirstEntry(entries: Entries, d: nat)
    requires entries.Entry?
    ensures InnerEntries(entries, d, d) != []
    ensures InnerEntries(entries, d, d + 1) == From(d + 1, InnerEntries(entries, d, d))
  {
  }

  lemma FromConcat(first: nat, a: seq<nat>, b: seq<nat>)
    requires a != []
    ensures From(first, a + b) == From(first, a) + b
  {
  }

  lemma {:induction false} ItemsDepths(s: State, items: Items)
    requires Below(s) && s.Top().tok == LIST && s.d < s.nframes
    requires SupportedItems(items) && s.d + ItemsDepth(items) < s.nframes
    ensures DepthsFrom(s, EncodeItems(items)) == InnerItems(items, s.d)
    decreases items
  {
    hide *;
    match items
    case NoItem => NoDepths(s);
    case Item(head, tail) =>
      var m, exp := Push(s), Traverse(head, None);
      ItemUnfolds(head, tail);
      ItemFrame(s);
      ReadValue(m, head, None);
      ValueDepths(m, head, None);
      ItemRead(s, head, EncodeItems(tail), exp);
      var t := Guarded(m, Encode(head)).s;
      ContinuesKeeps(s, t, exp + [ListNext]);
      ContinuesDepth(s, t, exp + [ListNext]);
      ItemsDepths(t, tail);
      ItemDepths(s, head, tail);
  }

  lemma NoDepths(s: State)
    ensures DepthsFrom(s, EncodeItems(NoItem)) == InnerItems(NoItem, s.d)
    ensures DepthsFrom(s, EncodeEntries(NoEntry)) == InnerEntries(NoEntry, s.d, s.d)
  {
  }

  lemma ItemDepths(s: State, head: Value, tail: Items)
    requires s.Top().tok == LIST && s.d + 1 < s.nframes && Guarded(Push(s), Encode(head)).Go?
    requires DepthsFrom(Push(s), Encode(head)) == [s.d + 1] + Inner(head, s.d + 1)
    requires DepthsFrom(Guarded(Push(s), Encode(head)).s, EncodeItems(tail)) == InnerItems(tail, s.d)
    ensures DepthsFrom(s, EncodeItems(Item(head, tail))) == InnerItems(Item(head, tail), s.d)
  {
    hide *;
    ListFirst(s, Encode(head));
    ListBegins(s, Encode(head));
    ItemUnfolds(head, tail);
    InnerItemUnfolds(head, tail, s.d);
    GuardedDepths(s, Encode(head), Guarded(Push(s), Encode(head)).s, EncodeItems(tail));
    FromHead(s.d, s.d + 1, Inner(head, s.d + 1));
  }

  lemma InnerItemUnfolds(head: Value, tail: Items, d: nat)
    ensures InnerItems(Item(head, tail), d) == [d] + Inner(head, d + 1) + InnerItems(tail, d)
  {
  }

  lemma FromHead(first: nat, d: nat, ds: seq<nat>)
    ensures From(first, [d] + ds) == [first] + ds
  {
  }

  lemma {:induction false} EntriesDepths(s: State, entries: Entries)
    requires Below(s) && s.Top().tok == DICT && s.d < s.nframes
    requires SupportedEntries(entries) && s.d + EntriesDepth(entries) < s.nframes
    ensures DepthsFrom(s, EncodeEntries(entries)) == InnerEntries(entries, s.d, s.d)
    decreases entries
  {
    hide *;
    match entries
    case NoEntry => NoDepths(s);
    case Entry(key, val, rest) =>
      var m, exp := Keyed(PushKeyLen(s), key), Traverse(val, Some(key));
      EntryUnfolds(key, val, rest);
      EntryFrame(s, key);
      ReadValue(m, val, Some(key));
      ValueDepths(m, val, Some(key));
      EntryRead(s, key, val, EncodeEntries(rest), exp);
      var t := Guarded(m, Encode(val)).s;
      ContinuesKeeps(s, t, exp + [DictNext]);
      ContinuesDepth(s, t, exp + [DictNext]);
      EntriesDepths(t, rest);
      EntryDepths(s, key, val, rest);
  }

  lemma EntryDepths(s: State, key: seq<byte>, val: Value, rest: Entries)
    requires s.Top().tok == DICT && s.d + 1 < s.nframes && 0 < |key| < INNER_LIMIT
    requires var m := Keyed(PushKeyLen(s), key);
      && Guarded(m, Encode(val)).Go?
      && DepthsFrom(m, Encode(val)) == [s.d + 1] + Inner(val, s.d + 1)
      && DepthsFrom(Guarded(m, Encode(val)).s, EncodeEntries(rest)) == InnerEntries(rest, s.d, s.d)
    ensures DepthsFrom(s, EncodeEntries(Entry(key, val, rest))) == InnerEntries(Entry(key, val, rest), s.d, s.d)
  {
    hide *;
    EntryRun(s, key, val, EncodeEntries(rest));
    EntryUnfolds(key, val, rest);
    InnerEntryUnfolds(key, val, rest, s.d);
    EntryShape(s.d, |EncodeKey(key)|, Inner(val, s.d + 1), InnerEntries(rest, s.d, s.d));
  }

  lemma InnerEntryUnfolds(key: seq<byte>, val: Value, rest: Entries, d: nat)
    ensures InnerEntries(Entry(key, val, rest), d, d)
         == [d] + Flat(d + 1, |EncodeKey(key)|) + Inner(val, d + 1) + InnerEntries(rest, d, d)
    ensures |EncodeKey(key)| > 0
  {
  }

  lemma EntryRun(s: State, key: seq<byte>, val: Value, more: seq<byte>)
    requires s.Top().tok == DICT && s.d + 1 < s.nframes && 0 < |key| < INNER_LIMIT
    requires Guarded(Keyed(PushKeyLen(s), key), Encode(val)).Go?
    ensures var m := Keyed(PushKeyLen(s), key);
      DepthsFrom(s, EncodeKey(key) + (Encode(val) + more)) ==
      From(s.d, Flat(s.d + 1, |EncodeKey(key)|)
                + (DepthsFrom(m, Encode(val)) + DepthsFrom(Guarded(m, Encode(val)).s, more)))
  {
    var k := PushKeyLen(s);
    var m := Keyed(k, key);
    DictFirst(s, EncodeKey(key) + (Encode(val) + more));
    KeyDepths(k, key);
    ReadKey(k, key);
    assert k.d == s.d + 1;
    hide *;
    GuardedDepths(k, EncodeKey(key), m, Encode(val) + more);
    GuardedDepths(m, Encode(val), Guarded(m, Encode(val)).s, more);
  }

  lemma EntryShape(d: nat, n: nat, a: seq<nat>, b: seq<nat>)
    requires n > 0
    ensures From(d, Flat(d + 1, n) + ([d + 1] + a + b)) == [d] + Flat(d + 1, n) + a + b
  {
    assert Flat(d + 1, n)[1..] + [d + 1] == Flat(d + 1, n);
  }

  // ---------------------------------------------------------------------------------
  // One frame more

  /** The same state of a parser with one more frame. */
  function Widen(s: State): State {
    s.(nframes := s.nframes + 1, stk := s.stk + [ZERO_FRAME])
  }

  lemma WidenParts(s: State, f: Frame, e: Callback)
    ensures SetTop(Widen(s), f) == Widen(SetTop(s, f)) && Emit(Widen(s), e) == Widen(Emit(s, e))
    ensures Widen(s).Top() == s.Top() && Widen(s).d == s.d
    ensures s.d < s.nframes ==> Push(Widen(s)) == Widen(Push(s))
  {
    assert Widen(s).stk[s.d := f] == s.stk[s.d := f] + [ZERO_FRAME];
    if s.d < s.nframes {
      var g := Pushed(s.stk[s.d + 1]);
      assert Widen(s).stk[s.d + 1 := g] == s.stk[s.d + 1 := g] + [ZERO_FRAME];
    }
  }

  lemma WidenPop(s: State)
    ensures Pop(Widen(s)) == Widen(Pop(s))
  {
  }

  lemma WidenPushKeyLen(s: State)
    requires s.d < s.nframes
    ensures PushKeyLen(Widen(s)) == Widen(PushKeyLen(s))
  {
    var p := Push(s);
    WidenParts(s, s.Top(), ListNext);
    WidenParts(p, p.Top().(tok := DICT_KEYLEN, pos := 0), ListNext);
  }

  function WidenOutcome(o: Outcome): Outcome {
    match o
    case Go(s) => Go(Widen(s))
    case Reject(s) => Reject(Widen(s))
    case Abort => Abort
  }

  lemma WidenLenDigit(s: State, c: byte)
    requires IsDigit(c)
    ensures LenDigit(Widen(s), c) == WidenOutcome(LenDigit(s, c))
    ensures IntDigit(Widen(s), c) == WidenOutcome(IntDigit(s, c))
  {
    WidenParts(s, s.Top().(len := (c - CHAR_0) + s.Top().len * 10), ListNext);
    WidenParts(s, s.Top().(intval := (c - CHAR_0) + s.Top().intval * 10), ListNext);
  }

  /** The wider parser does the same, or the narrower one has no frame left where the wider one goes deeper. */
  predicate Widens(s: State, o: Outcome, wide: Outcome) {
    wide == WidenOutcome(o) || (o == Abort && (wide.Go? ==> s.nframes < wide.s.d))
  }

  lemma WidenBegin(s: State, c: byte)
    ensures Widens(s, Begin(s, c), Begin(Widen(s), c))
  {
    var f := s.Top();
    WidenParts(s, f.(tok := INT, pos := 0), ListNext);
    if c == CHAR_D {
      var s1 := SetTop(s, f.(tok := DICT, pos := 0));
      WidenParts(s, f.(tok := DICT, pos := 0), ListNext);
      WidenParts(s1, f, DictEnter(f.key));
      if s.d < s.nframes { WidenPushKeyLen(Emit(s1, DictEnter(f.key))); }
    } else if c == CHAR_L {
      WidenParts(s, f.(tok := LIST, pos := 0), ListNext);
      WidenParts(SetTop(s, f.(tok := LIST, pos := 0)), f, ListEnter(f.key));
    } else if IsDigit(c) && c != CHAR_I {
      WidenParts(s, f.(tok := STR_LEN, pos := 0), ListNext);
      WidenLenDigit(SetTop(s, f.(tok := STR_LEN, pos := 0)), c);
    }
  }

  lemma WidenStepKeyLen(s: State, c: byte)
    ensures StepKeyLen(Widen(s), c) == WidenOutcome(StepKeyLen(s, c))
  {
    hide Pop;
    WidenParts(s, s.Top().(tok := DICT_KEY, pos := 0), ListNext);
    if IsDigit(c) { WidenLenDigit(s, c); }
    WidenPop(s);
  }

  lemma WidenStepStrLen(s: State, c: byte)
    ensures StepStrLen(Widen(s), c) == WidenOutcome(StepStrLen(s, c))
  {
    hide Pop;
    WidenParts(s, s.Top().(tok := STR, pos := 0), StrHit(s.Top().key, []));
    if IsDigit(c) { WidenLenDigit(s, c); }
    WidenPop(Emit(s, StrHit(s.Top().key, [])));
  }

  lemma WidenStepInt(s: State, c: byte)
    ensures StepInt(Widen(s), c) == WidenOutcome(StepInt(s, c))
  {
    hide Pop;
    WidenParts(s, s.Top(), IntHit(s.Top().key, s.Top().intval));
    if IsDigit(c) { WidenLenDigit(s, c); }
    WidenPop(Emit(s, IntHit(s.Top().key, s.Top().intval)));
  }

  lemma WidenStepStr(s: State, c: byte)
    ensures StepStr(Widen(s), c) == WidenOutcome(StepStr(s, c))
  {
    hide Pop;
    var f := s.Top();
    var f1 := f.(strval := Overwrite(f.strval, f.pos, c), pos := f.pos + 1);
    var s1 := SetTop(s, f1);
    WidenParts(s, f1, ListNext);
    WidenParts(s1, f1, StrHit(f1.key, f1.strval));
    WidenPop(Emit(s1, StrHit(f1.key, f1.strval)));
  }

  lemma WidenStepKey(s: State, c: byte)
    ensures StepKey(Widen(s), c) == WidenOutcome(StepKey(s, c))
  {
    var f := s.Top();
    var f1 := f.(key := Text(Overwrite(Written(f.key), f.pos, c)), pos := f.pos + 1);
    WidenParts(s, if f1.pos == f1.len then f1.(tok := DICT_VAL, pos := 0, len := 0) else f1, ListNext);
  }

  lemma WidenList(s: State, c: byte)
    requires s.Top().tok == LIST
    ensures Widens(s, Step(s, c), Step(Widen(s), c))
  {
    hide Pop;
    WidenPop(s);
    WidenParts(s, s.Top(), ListNext);
    if s.d < s.nframes {
      WidenBegin(Push(s), c);
    }
  }

  lemma WidenDict(s: State, c: byte)
    requires s.Top().tok == DICT
    ensures Widens(s, Step(s, c), Step(Widen(s), c))
  {
    hide Pop;
    WidenPop(s);
    WidenParts(s, s.Top(), ListNext);
    if s.d < s.nframes {
      WidenPushKeyLen(s);
      WidenStepKeyLen(PushKeyLen(s), c);
    }
  }

  lemma WidenStep(s: State, c: byte)
    ensures Widens(s, Step(s, c), Step(Widen(s), c))
  {
    WidenParts(s, s.Top(), ListNext);
    match s.Top().tok
    case LIST => WidenList(s, c);
    case DICT => WidenDict(s, c);
    case NONE => WidenBegin(s, c);
    case DICT_VAL => WidenBegin(s, c);
    case INT => WidenStepInt(s, c);
    case STR_LEN => WidenStepStrLen(s, c);
    case STR => WidenStepStr(s, c);
    case DICT_KEYLEN => WidenStepKeyLen(s, c);
    case DICT_KEY => WidenStepKey(s, c);
  }

  /** Whatever a parser reads, one with one more frame reads byte by byte. */
  lemma {:induction false} WidenFeed(s: State, bytes: seq<byte>)
    requires Feed(s, bytes).Go?
    ensures Guarded(Widen(s), bytes) == Go(Widen(Feed(s, bytes).s))
    ensures DepthsFrom(Widen(s), bytes) == DepthsFrom(s, bytes)
    decreases |bytes|
  {
    hide Step;
    if bytes != [] {
      WidenStep(s, bytes[0]);
      WidenFeed(Step(s, bytes[0]).s, bytes[1..]);
    }
  }

  /** What it reads without ever going deeper than the narrower one can, that one reads too. */
  lemma {:induction false} NarrowFeed(s: State, bytes: seq<byte>)
    requires Feed(Widen(s), bytes).Go? && Feed(Widen(s), bytes).s.d <= s.nframes
    requires forall x :: x in DepthsFrom(Widen(s), bytes) ==> x <= s.nframes
    ensures Feed(s, bytes).Go?
    decreases |bytes|
  {
    hide Step;
    if bytes != [] {
      WidenStep(s, bytes[0]);
      var t := Step(Widen(s), bytes[0]).s;
      var ds := DepthsFrom(t, bytes[1..]);
      assert DepthsFrom(Widen(s), bytes) == [s.d] + ds && Feed(Widen(s), bytes) == Feed(t, bytes[1..]);
      assert t.d <= s.nframes by {
        if bytes[1..] != [] { assert ds[0] == t.d && ds[0] in [s.d] + ds; }
      }
      assert forall x :: x in ds ==> x in [s.d] + ds;
      StepAppends(s, bytes[0]);
      NarrowFeed(Step(s, bytes[0]).s, bytes[1..]);
    }
  }

  // ---------------------------------------------------------------------------------
  // The theorem

  /** Where buffer `i` starts. */
  function Start(bufs: seq<seq<byte>>, i: nat): nat
    requires i <= |bufs|
  {
    |Flatten(bufs[..i])|
  }

  lemma StartNext(bufs: seq<seq<byte>>, i: nat)
    requires 0 < i <= |bufs|
    ensures Start(bufs, i) == |bufs[0]| + Start(bufs[1..], i - 1)
  {
    assert bufs[..i][0] == bufs[0] && bufs[..i][1..] == bufs[1..][..i - 1];
  }

  lemma {:induction false} StartInside(bufs: seq<seq<byte>>, i: nat)
    requires i <= |bufs|
    ensures Start(bufs, i) <= |Flatten(bufs)|
  {
    if i > 0 {
      StartNext(bufs, i);
      StartInside(bufs[1..], i - 1);
    }
  }

  /** No buffer starts where the value is nested as deep as there are frames. */
  predicate StartsBelow(v: Value, n: nat, bufs: seq<seq<byte>>)
    requires Flatten(bufs) == Encode(v)
  {
    forall i :: 0 <= i < |bufs| ==> (StartInside(bufs, i); Depths(v)[Start(bufs, i)] < n)
  }

  /** An input that is read as a whole is read in buffers exactly if each starts below the last frame. */
  lemma {:induction false} DispatchedWhen(s: State, bufs: seq<seq<byte>>, ds: seq<nat>)
    requires Feed(s, Flatten(bufs)).Go?
    requires ds == DepthsFrom(s, Flatten(bufs)) + [Feed(s, Flatten(bufs)).s.d]
    ensures |ds| == |Flatten(bufs)| + 1
    ensures DispatchAll(s, bufs).Go? <==>
            forall i :: 0 <= i < |bufs| ==> Start(bufs, i) < |ds| && ds[Start(bufs, i)] < s.nframes
    decreases |bufs|
  {
    hide Step;
    if bufs == [] {
      FirstDepth(s, []);
    } else {
      var a, more := bufs[0], Flatten(bufs[1..]);
      FeedConcat(s, a, more);
      DepthsConcat(s, a, more);
      FirstDepth(s, Flatten(bufs));
      var t := Feed(s, a).s;
      var rest := DepthsFrom(t, more) + [Feed(t, more).s.d];
      assert ds == DepthsFrom(s, a) + rest;
      FeedKeepsFrames(s, a);
      DispatchedWhen(t, bufs[1..], rest);
      assert Start(bufs, 0) == 0;
      StartsSplit(s, bufs, ds, rest);
    }
  }

  lemma StartsSplit(s: State, bufs: seq<seq<byte>>, ds: seq<nat>, rest: seq<nat>)
    requires bufs != [] && |rest| <= |ds| && |ds| - |rest| == |bufs[0]| && ds[|bufs[0]|..] == rest
    ensures (forall i :: 0 <= i < |bufs| ==> Start(bufs, i) < |ds| && ds[Start(bufs, i)] < s.nframes) <==>
      && 0 < |ds| && ds[0] < s.nframes
      && (forall i :: 0 <= i < |bufs[1..]| ==> Start(bufs[1..], i) < |rest| && rest[Start(bufs[1..], i)] < s.nframes)
  {
    var tail := bufs[1..];
    assert Start(bufs, 0) == 0;
    forall i | 0 <= i < |tail| ensures Start(bufs, i + 1) == |bufs[0]| + Start(tail, i) {
      StartNext(bufs, i + 1);
    }
    forall i | 0 < i < |bufs| ensures Start(bufs, i) == |bufs[0]| + Start(tail, i - 1) {
      StartNext(bufs, i);
    }
  }

  lemma FirstDepth(s: State, bytes: seq<byte>)
    requires Feed(s, bytes).Go?
    ensures (DepthsFrom(s, bytes) + [Feed(s, bytes).s.d])[0] == s.d
  {
  }

  lemma {:induction false} FeedKeepsFrames(s: State, bytes: seq<byte>)
    requires Feed(s, bytes).Go?
    ensures Feed(s, bytes).s.nframes == s.nframes
    decreases |bytes|
  {
    if bytes != [] {
      StepAppends(s, bytes[0]);
      FeedKeepsFrames(Step(s, bytes[0]).s, bytes[1..]);
    }
  }

  lemma WidenInit(n: nat)
    ensures Widen(Init(n)) == Init(n + 1)
  {
  }

  /** A supported value that is not nested deeper than there are frames, read in one go. */
  lemma DeepRead(v: Value, n: nat)
    requires Supported(v, OUTER_LIMIT) && Depth(v) <= n
    ensures Feed(Init(n), Encode(v)).Go?
    ensures Exactly(Feed(Init(n), Encode(v)).s.out, Traverse(v, None))
    ensures DepthsFrom(Init(n), Encode(v)) + [Feed(Init(n), Encode(v)).s.d] == Depths(v)
  {
    WidenInit(n);
    ReadValue(Init(n + 1), v, None);
    ValueDepths(Init(n + 1), v, None);
    GuardedIsFeed(Init(n + 1), Encode(v));
    InnerBound(v, 0);
    assert Traverse(v, None) + [] == Traverse(v, None);
    hide Step, Guarded, Init, Encode, Traverse, Inner, Depth, DepthsFrom, Feed;
    NarrowFeed(Init(n), Encode(v));
    WidenFeed(Init(n), Encode(v));
  }

  /** Nothing else is reported by a parser with so many frames, however the input is cut. */
  lemma DeepObserved(v: Value, n: nat)
    requires Feed(Init(n), Encode(v)).Go? && Exactly(Feed(Init(n), Encode(v)).s.out, Traverse(v, None))
    ensures Supported(v, OUTER_LIMIT) && Depth(v) <= n
  {
    WidenInit(n);
    WidenFeed(Init(n), Encode(v));
    assert Encode(v) + [] == Encode(v);
    ObservedValue(Init(n + 1), v, None, []);
  }

  /**
   * For every cut: a parser made for `n` levels reports a value correctly exactly when the value is supported, nested
   * at most `n` deep, and no buffer starts where it is nested `n` deep.
   */
  lemma CutIsExact(v: Value, n: nat, bufs: seq<seq<byte>>)
    requires Flatten(bufs) == Encode(v)
    ensures Parsed(DispatchAll(Init(n), bufs), v) <==>
            Supported(v, OUTER_LIMIT) && Depth(v) <= n && StartsBelow(v, n, bufs)
  {
    hide Step, DispatchAll, Feed, Depths, Supported, Depth, Traverse, Exactly, Encode;
    if Parsed(DispatchAll(Init(n), bufs), v) {
      CutsDoNotMatter(Init(n), bufs);
      DeepObserved(v, n);
    }
    if Supported(v, OUTER_LIMIT) && Depth(v) <= n {
      DeepRead(v, n);
      DispatchedWhen(Init(n), bufs, Depths(v));
      forall i | 0 <= i < |bufs| ensures Start(bufs, i) <= |Encode(v)| {
        StartInside(bufs, i);
      }
      if DispatchAll(Init(n), bufs).Go? { CutsDoNotMatter(Init(n), bufs); }
    }
  }

  /** A list of one number and a single level: read in one buffer, refused byte by byte. */
  lemma CutsMatterAtCapacity()
    ensures var v := List(Item(Int(7), NoItem));
      Parsed(DispatchAll(Init(1), [Encode(v)]), v) && !Parsed(DispatchAll(Init(1), ByteWise(Encode(v))), v)
  {
    var v := List(Item(Int(7), NoItem));
    assert Depth(v) == 1 && Supported(v, OUTER_LIMIT);
    assert Flatten([Encode(v)]) == Encode(v) by {
      assert [Encode(v)][1..] == [];
    }
    CutIsExact(v, 1, [Encode(v)]);
    assert [Encode(v)][..0] == [];
    if Parsed(DispatchAll(Init(1), ByteWise(Encode(v))), v) { ParsedByteWise(v, 1); }
  }
}
