/** What the bencode parser makes of any bytes at all, by recursive descent and without a stack. */
module BencodeReader {
  import opened Common
  import opened BencodeSyntax
  import opened BencodeMachine
  import opened BencodeProof

  /** The first `n` bytes are whole, the input ends too early, a byte is refused, or the process stops. */
  datatype Verdict = Done(n: nat) | More | Bad | Crash

  /** The verdict on bytes that are preceded by `k` accepted ones. */
  function After(k: nat, v: Verdict): Verdict {
    match v
    case Done(n) => Done(k + n)
    case other => other
  }

  function DigitOf(c: byte): nat
    requires IsDigit(c)
  {
    c - 48
  }

  /** The rest of a number of which `n` has been read. */
  function Number(b: seq<byte>, n: nat): (v: Verdict)
    ensures v.Done? ==> 0 < v.n <= |b|
    decreases |b|
  {
    if b == [] then More
    else if b[0] == CHAR_E then Done(1)
    else if !IsDigit(b[0]) || INT_MAX < 10 * n + DigitOf(b[0]) then Crash
    else After(1, Number(b[1..], 10 * n + DigitOf(b[0])))
  }

  /** The rest of a string or key of that length of which `pos` bytes have been read. */
  function Body(b: seq<byte>, len: nat, pos: nat, limit: nat): Verdict {
    if pos < len < limit then if |b| < len - pos then More else Done(len - pos)
    else if |b| + pos < limit then More
    else Crash
  }

  /** The rest of a string whose length is `n` so far. */
  function Text(b: seq<byte>, n: nat, limit: nat): (v: Verdict)
    ensures v.Done? ==> 0 < v.n <= |b|
    decreases |b|
  {
    if b == [] then More
    else if b[0] == CHAR_COLON then if n == 0 then Done(1) else After(1, Body(b[1..], n, 0, limit))
    else if !IsDigit(b[0]) || INT_MAX < 10 * n + DigitOf(b[0]) then Crash
    else After(1, Text(b[1..], 10 * n + DigitOf(b[0]), limit))
  }

  /** A value for which `room` frames are left above its own. */
  function Reading(b: seq<byte>, room: nat, limit: nat): (v: Verdict)
    ensures v.Done? ==> 0 < v.n <= |b|
    decreases |b|, 0
  {
    if b == [] then More
    else if b[0] == CHAR_I then After(1, Number(b[1..], 0))
    else if b[0] == CHAR_L then After(1, ReadingItems(b[1..], room))
    else if b[0] == CHAR_D then if room == 0 then Crash else After(1, ReadingKey(b[1..], room, 0))
    else if IsDigit(b[0]) then Text(b, 0, limit)
    else Bad
  }

  /** The rest of a list. */
  function ReadingItems(b: seq<byte>, room: nat): (v: Verdict)
    ensures v.Done? ==> 0 < v.n <= |b|
    decreases |b|, 1
  {
    if b == [] then More
    else if b[0] == CHAR_E then Done(1)
    else if !StartsValue(b[0]) then Bad
    else if room == 0 then Crash
    else
      match Reading(b, room - 1, INNER_LIMIT)
      case Done(n) => After(n, ReadingItems(b[n..], room))
      case other => other
  }

  /** The rest of a dictionary. */
  function ReadingEntries(b: seq<byte>, room: nat): (v: Verdict)
    ensures v.Done? ==> 0 < v.n <= |b|
    decreases |b|, 1
  {
    if b == [] then More
    else if b[0] == CHAR_E then Done(1)
    else if room == 0 then Crash
    else ReadingKey(b, room, 0)
  }

  /** The rest of a dictionary from the length of a key on, which is `n` so far. */
  function ReadingKey(b: seq<byte>, room: nat, n: nat): (v: Verdict)
    requires 0 < room
    ensures v.Done? ==> 0 < v.n <= |b|
    decreases |b|, 0
  {
    if b == [] then More
    else if b[0] == CHAR_E then After(1, ReadingEntries(b[1..], room))
    else if b[0] == CHAR_COLON then
      match Body(b[1..], n, 0, INNER_LIMIT)
      case Done(k) =>
        (match Reading(b[1 + k..], room - 1, INNER_LIMIT)
         case Done(j) => After(1 + k + j, ReadingEntries(b[1 + k + j..], room))
         case other => other)
      case other => other
    else if !IsDigit(b[0]) then Bad
    else if INT_MAX < 10 * n + DigitOf(b[0]) then Crash
    else After(1, ReadingKey(b[1..], room, 10 * n + DigitOf(b[0])))
  }

  // ---------------------------------------------------------------------------------
  // The machine obeys the verdict

  /** The frame of depth `d` was closed, and nothing below it changed. */
  predicate ClosesTo(s: State, d: nat, t: State)
    requires d <= s.d
  {
    t.nframes == s.nframes && t.d == (if d == 0 then 0 else d - 1) && t.stk[..d] == s.stk[..d]
  }

  /** Fed the bytes, the machine ends as the verdict says; a whole value closes the frame of depth `d`. */
  predicate Obeys(s: State, d: nat, b: seq<byte>, v: Verdict)
    requires d <= s.d
  {
    match v
    case Done(n) => n <= |b| && Feed(s, b[..n]).Go? && ClosesTo(s, d, Feed(s, b[..n]).s)
    case More => Feed(s, b).Go?
    case Bad => Feed(s, b).Reject?
    case Crash => Feed(s, b) == Abort
  }

  /** Bytes that lead to a state which obeys the verdict on the rest. */
  lemma ObeysAfter(s: State, t: State, d: nat, b: seq<byte>, k: nat, v: Verdict)
    requires d <= s.d && d <= t.d && k <= |b| && Feed(s, b[..k]) == Go(t)
    requires t.nframes == s.nframes && t.stk[..d] == s.stk[..d]
    requires Obeys(t, d, b[k..], v)
    ensures Obeys(s, d, b, After(k, v))
  {
    hide Step, Feed;
    if v.Done? {
      assert b[..k + v.n] == b[..k] + b[k..][..v.n];
      FeedConcat(s, b[..k], b[k..][..v.n]);
    } else {
      assert b == b[..k] + b[k..];
      FeedConcat(s, b[..k], b[k..]);
    }
  }

  /** The same for a single byte. */
  lemma ObeysByte(s: State, t: State, d: nat, b: seq<byte>, v: Verdict)
    requires d <= s.d && d <= t.d && b != [] && Step(s, b[0]) == Go(t)
    requires t.nframes == s.nframes && t.stk[..d] == s.stk[..d]
    requires Obeys(t, d, b[1..], v)
    ensures Obeys(s, d, b, After(1, v))
  {
    FeedByte(s, b);
    hide Step, Feed;
    ObeysAfter(s, t, d, b, 1, v);
  }

  lemma FeedByte(s: State, b: seq<byte>)
    requires b != []
    ensures Feed(s, b[..1]) == Step(s, b[0])
    ensures !Step(s, b[0]).Go? ==> Feed(s, b) == Step(s, b[0])
  {
    hide Step;
    assert b[..1] == [b[0]] && [b[0]][1..] == [];
  }

  lemma NothingFed(s: State)
    ensures Feed(s, []) == Go(s)
  {
  }

  /** The byte with which a frame is closed. */
  lemma ObeysLast(s: State, d: nat, b: seq<byte>)
    requires d <= s.d && b != [] && Step(s, b[0]).Go? && ClosesTo(s, d, Step(s, b[0]).s)
    ensures Obeys(s, d, b, Done(1))
  {
    FeedByte(s, b);
  }

  lemma PopClosesTo(s: State, e: Callback)
    ensures ClosesTo(s, s.d, Pop(Emit(s, e))) && ClosesTo(s, s.d, Pop(s))
  {
  }

  lemma {:induction false} NumberObeyed(s: State, b: seq<byte>, n: nat)
    requires s.Top().tok == INT && s.Top().intval == n
    ensures Obeys(s, s.d, b, Number(b, n))
    decreases |b|
  {
    if b == [] {
      NothingFed(s);
    } else if b[0] == CHAR_E {
      PopClosesTo(s, IntHit(s.Top().key, s.Top().intval));
      ObeysLast(s, s.d, b);
    } else if !IsDigit(b[0]) || INT_MAX < 10 * n + DigitOf(b[0]) {
      FeedByte(s, b);
    } else {
      var t := SetTop(s, s.Top().(intval := 10 * n + DigitOf(b[0])));
      NumberObeyed(t, b[1..], 10 * n + DigitOf(b[0]));
      ObeysByte(s, t, s.d, b, Number(b[1..], 10 * n + DigitOf(b[0])));
    }
  }

  lemma {:induction false} BodyObeyed(s: State, b: seq<byte>)
    requires s.Top().tok == STR && s.Top().pos < s.Top().len && s.Top().pos < SizeLimit(s.d)
    ensures Obeys(s, s.d, b, Body(b, s.Top().len, s.Top().pos, SizeLimit(s.d)))
    decreases |b|
  {
    var f := s.Top();
    if b == [] {
      NothingFed(s);
    } else {
      var f1 := f.(strval := Overwrite(f.strval, f.pos, b[0]), pos := f.pos + 1);
      var t := SetTop(s, f1);
      if SizeLimit(s.d) <= f.pos + 1 {
        FeedByte(s, b);
      } else if f1.pos == f1.len {
        PopClosesTo(t, StrHit(f1.key, f1.strval));
        ObeysLast(s, s.d, b);
      } else {
        BodyObeyed(t, b[1..]);
        ObeysByte(s, t, s.d, b, Body(b[1..], f1.len, f1.pos, SizeLimit(s.d)));
      }
    }
  }

  lemma {:induction false} TextObeyed(s: State, b: seq<byte>, n: nat)
    requires s.Top().tok == STR_LEN && s.Top().len == n
    ensures Obeys(s, s.d, b, Text(b, n, SizeLimit(s.d)))
    decreases |b|
  {
    if b == [] {
      NothingFed(s);
    } else if b[0] == CHAR_COLON {
      if n == 0 {
        PopClosesTo(s, StrHit(s.Top().key, []));
        ObeysLast(s, s.d, b);
      } else {
        var t := SetTop(s, s.Top().(tok := STR, pos := 0));
        BodyObeyed(t, b[1..]);
        ObeysByte(s, t, s.d, b, Body(b[1..], n, 0, SizeLimit(s.d)));
      }
    } else if !IsDigit(b[0]) || INT_MAX < 10 * n + DigitOf(b[0]) {
      FeedByte(s, b);
    } else {
      var t := SetTop(s, s.Top().(len := 10 * n + DigitOf(b[0])));
      TextObeyed(t, b[1..], 10 * n + DigitOf(b[0]));
      ObeysByte(s, t, s.d, b, Text(b[1..], 10 * n + DigitOf(b[0]), SizeLimit(s.d)));
    }
  }

  /** The state after a key. */
  predicate KeyRead(s: State, m: State) {
    Ready(m) && m.d == s.d && m.nframes == s.nframes && m.stk[..s.d] == s.stk[..s.d]
  }

  lemma {:induction false} KeyBodyObeyed(s: State, b: seq<byte>)
    requires s.Top().tok == DICT_KEY && s.Top().intval == 0 && s.Top().pos < SizeLimit(s.d)
    ensures match Body(b, s.Top().len, s.Top().pos, SizeLimit(s.d))
            case Done(k) => k <= |b| && Feed(s, b[..k]).Go? && KeyRead(s, Feed(s, b[..k]).s)
            case More => Feed(s, b).Go?
            case _ => Feed(s, b) == Abort
    decreases |b|
  {
    var f := s.Top();
    if b == [] {
      NothingFed(s);
    } else {
      FeedByte(s, b);
      var f1 := f.(key := KeyBuffer.Text(Overwrite(Written(f.key), f.pos, b[0])), pos := f.pos + 1);
      var t := SetTop(s, f1);
      if f.pos + 1 < SizeLimit(s.d) && f1.pos != f1.len {
        assert Step(s, b[0]) == Go(t);
        KeyBodyObeyed(t, b[1..]);
        KeyBodyStep(s, t, b);
      }
    }
  }

  lemma KeyBodyStep(s: State, t: State, b: seq<byte>)
    requires b != [] && Step(s, b[0]) == Go(t)
    ensures Feed(s, b) == Feed(t, b[1..])
    ensures forall k :: 0 < k <= |b| ==> Feed(s, b[..k]) == Feed(t, b[1..][..k - 1])
  {
    hide Step;
    forall k | 0 < k <= |b| ensures Feed(s, b[..k]) == Feed(t, b[1..][..k - 1]) {
      assert b[..k][0] == b[0] && b[..k][1..] == b[1..][..k - 1];
    }
  }

  // ---------------------------------------------------------------------------------
  // Values

  lemma {:induction false} ReadingObeyed(s: State, b: seq<byte>)
    requires Ready(s)
    ensures Obeys(s, s.d, b, Reading(b, s.nframes - s.d, SizeLimit(s.d)))
    decreases |b|, 0
  {
    hide Step, Feed, Obeys, Number, Text;
    var f := s.Top();
    if b == [] {
      NothingRead(s);
    } else {
      StartOutcomes(s, b[0]);
      if b[0] == CHAR_I {
        var t := SetTop(s, f.(tok := INT, pos := 0));
        NumberObeyed(t, b[1..], 0);
        ObeysByte(s, t, s.d, b, Number(b[1..], 0));
      } else if b[0] == CHAR_L {
        var t := Opened(s, LIST, ListEnter(f.key));
        ItemsObeyed(t, b[1..]);
        ObeysByte(s, t, s.d, b, ReadingItems(b[1..], s.nframes - s.d));
      } else if b[0] == CHAR_D {
        if s.d < s.nframes {
          var t := PushKeyLen(Opened(s, DICT, DictEnter(f.key)));
          KeyObeyed(t, b[1..], 0);
          ObeysByte(s, t, s.d, b, ReadingKey(b[1..], s.nframes - s.d, 0));
        } else {
          StoppedAtOnce(s, s.d, b);
        }
      } else if IsDigit(b[0]) {
        TextStarts(s, b);
      } else {
        StoppedAtOnce(s, s.d, b);
      }
    }
  }

  lemma NothingRead(s: State)
    ensures Obeys(s, s.d, [], More)
    ensures 0 < s.d ==> Obeys(s, s.d - 1, [], More)
  {
  }

  lemma StoppedAtOnce(s: State, d: nat, b: seq<byte>)
    requires b != [] && d <= s.d
    ensures Step(s, b[0]).Reject? ==> Obeys(s, d, b, Bad)
    ensures Step(s, b[0]) == Abort ==> Obeys(s, d, b, Crash)
  {
    FeedByte(s, b);
  }

  /** The first byte of a value. */
  lemma StartOutcomes(s: State, c: byte)
    requires Ready(s)
    ensures c == CHAR_I ==>
      var t := SetTop(s, s.Top().(tok := INT, pos := 0));
      Step(s, c) == Go(t) && t.Top().tok == INT && t.Top().intval == 0 && t.d == s.d && t.stk[..s.d] == s.stk[..s.d]
    ensures c == CHAR_L ==>
      var t := Opened(s, LIST, ListEnter(s.Top().key));
      Step(s, c) == Go(t) && t.Top().tok == LIST && t.d == s.d && t.stk[..s.d] == s.stk[..s.d]
    ensures c == CHAR_D && s.d < s.nframes ==>
      var t := PushKeyLen(Opened(s, DICT, DictEnter(s.Top().key)));
      Step(s, c) == Go(t) && AtKey(t, 0) && t.d == s.d + 1 && t.nframes == s.nframes && t.stk[..s.d] == s.stk[..s.d]
    ensures c == CHAR_D && s.nframes <= s.d ==> Step(s, c) == Abort
    ensures !StartsValue(c) ==> Step(s, c) == Reject(s)
  {
  }

  lemma TextStarts(s: State, b: seq<byte>)
    requires Ready(s) && b != [] && IsDigit(b[0])
    ensures Obeys(s, s.d, b, Text(b, 0, SizeLimit(s.d)))
  {
    var t := SetTop(s, s.Top().(tok := STR_LEN, pos := 0));
    assert Step(s, b[0]) == LenDigit(t, b[0]) == Step(t, b[0]);
    TextObeyed(t, b, 0);
    SameStart(s, t, s.d, b, Text(b, 0, SizeLimit(s.d)));
  }

  /** Two states that do the same with the first byte obey the same verdicts. */
  lemma SameStart(s: State, t: State, d: nat, b: seq<byte>, v: Verdict)
    requires b != [] && Step(s, b[0]) == Step(t, b[0]) && d <= s.d && d <= t.d
    requires t.nframes == s.nframes && t.stk[..d] == s.stk[..d] && (v.Done? ==> 0 < v.n)
    requires Obeys(t, d, b, v)
    ensures Obeys(s, d, b, v)
  {
    hide Step;
    if v.Done? { assert b[..v.n][0] == b[0]; }
  }

  /** A key length is being read in the frame above a dictionary. */
  predicate AtKey(s: State, n: nat) {
    && s.Top().tok == DICT_KEYLEN && s.Top().len == n && s.Top().intval == 0
    && 0 < s.d && s.stk[s.d - 1].tok == DICT
  }

  lemma {:induction false} ItemsObeyed(s: State, b: seq<byte>)
    requires s.Top().tok == LIST
    ensures Obeys(s, s.d, b, ReadingItems(b, s.nframes - s.d))
    decreases |b|, 1
  {
    hide Step, Feed, Obeys;
    if b == [] {
      NothingRead(s);
    } else {
      ListOutcomes(s, b[0]);
      if b[0] == CHAR_E {
        ObeysLast(s, s.d, b);
      } else if !StartsValue(b[0]) || s.nframes <= s.d {
        StoppedAtOnce(s, s.d, b);
      } else {
        var m := Push(s);
        var v := Reading(b, s.nframes - m.d, INNER_LIMIT);
        ReadingObeyed(m, b);
        if v.Done? {
          var t := MemberRead(s, m, b, v.n);
          ItemsObeyed(t, b[v.n..]);
          ObeysAfter(s, t, s.d, b, v.n, ReadingItems(b[v.n..], s.nframes - s.d));
        } else {
          MemberOpen(s, m, b, v);
        }
      }
    }
  }

  lemma ListOutcomes(s: State, c: byte)
    requires s.Top().tok == LIST
    ensures c == CHAR_E ==> Step(s, c).Go? && ClosesTo(s, s.d, Step(s, c).s)
    ensures c != CHAR_E && !StartsValue(c) ==> Step(s, c) == Reject(s)
    ensures StartsValue(c) && s.nframes <= s.d ==> Step(s, c) == Abort
    ensures StartsValue(c) && s.d < s.nframes ==>
      var m := Push(s);
      && Step(s, c) == Step(m, c) && Ready(m) && m.d == s.d + 1 && m.nframes == s.nframes
      && m.stk[..s.d + 1] == s.stk[..s.d + 1]
  {
    PopClosesTo(s, ListNext);
  }

  /** A member that is whole leads back to its container. */
  lemma MemberRead(s: State, m: State, b: seq<byte>, n: nat) returns (t: State)
    requires b != [] && Step(s, b[0]) == Step(m, b[0]) && 0 < n
    requires m.d == s.d + 1 && m.nframes == s.nframes && m.stk[..s.d + 1] == s.stk[..s.d + 1]
    requires Obeys(m, m.d, b, Done(n))
    ensures n <= |b| && Feed(s, b[..n]) == Go(t)
    ensures t.d == s.d && t.nframes == s.nframes && t.stk[..s.d] == s.stk[..s.d] && t.Top() == s.Top()
  {
    hide Step;
    assert b[..n][0] == b[0];
    t := Feed(m, b[..n]).s;
    assert t.Top() == t.stk[..s.d + 1][s.d] == m.stk[..s.d + 1][s.d] == s.stk[..s.d + 1][s.d];
    assert t.stk[..s.d] == t.stk[..s.d + 1][..s.d] && s.stk[..s.d] == s.stk[..s.d + 1][..s.d];
  }

  lemma MemberOpen(s: State, m: State, b: seq<byte>, v: Verdict)
    requires b != [] && Step(s, b[0]) == Step(m, b[0]) && !v.Done?
    requires Obeys(m, m.d, b, v)
    ensures Obeys(s, s.d, b, v)
  {
    hide Step;
  }

  lemma {:induction false} EntriesObeyed(s: State, b: seq<byte>)
    requires s.Top().tok == DICT
    ensures Obeys(s, s.d, b, ReadingEntries(b, s.nframes - s.d))
    decreases |b|, 2
  {
    hide Step, Feed, Obeys;
    if b == [] {
      NothingRead(s);
    } else {
      DictOutcomes(s, b[0]);
      if b[0] == CHAR_E {
        ObeysLast(s, s.d, b);
      } else if s.nframes <= s.d {
        StoppedAtOnce(s, s.d, b);
      } else {
        KeyObeyed(PushKeyLen(s), b, 0);
        SameStart(s, PushKeyLen(s), s.d, b, ReadingKey(b, s.nframes - s.d, 0));
      }
    }
  }

  lemma DictOutcomes(s: State, c: byte)
    requires s.Top().tok == DICT
    ensures c == CHAR_E ==> Step(s, c).Go? && ClosesTo(s, s.d, Step(s, c).s)
    ensures c != CHAR_E && s.nframes <= s.d ==> Step(s, c) == Abort
    ensures c != CHAR_E && s.d < s.nframes ==>
      var k := PushKeyLen(s);
      && Step(s, c) == Step(k, c) && AtKey(k, 0) && k.d == s.d + 1 && k.nframes == s.nframes
      && k.stk[..s.d] == s.stk[..s.d]
  {
    PopClosesTo(s, ListNext);
  }

  lemma {:induction false} KeyObeyed(s: State, b: seq<byte>, n: nat)
    requires AtKey(s, n)
    ensures Obeys(s, s.d - 1, b, ReadingKey(b, s.nframes - (s.d - 1), n))
    decreases |b|, 1
  {
    hide Step, Feed, Obeys;
    var d, room := s.d - 1, s.nframes - (s.d - 1);
    if b == [] {
      NothingRead(s);
    } else {
      KeyOutcomes(s, b[0], n);
      if b[0] == CHAR_E {
        EntriesObeyed(Pop(s), b[1..]);
        ObeysByte(s, Pop(s), d, b, ReadingEntries(b[1..], room));
      } else if b[0] == CHAR_COLON {
        PairObeyed(s, b, n);
      } else if !IsDigit(b[0]) || INT_MAX < 10 * n + DigitOf(b[0]) {
        StoppedAtOnce(s, d, b);
      } else {
        var n' := 10 * n + DigitOf(b[0]);
        var t := SetTop(s, s.Top().(len := n'));
        KeyObeyed(t, b[1..], n');
        ObeysByte(s, t, d, b, ReadingKey(b[1..], room, n'));
      }
    }
  }

  lemma KeyOutcomes(s: State, c: byte, n: nat)
    requires AtKey(s, n)
    ensures c == CHAR_E ==>
      var t := Pop(s);
      && Step(s, c) == Go(t) && t.Top().tok == DICT && t.d == s.d - 1 && t.nframes == s.nframes
      && t.stk[..s.d - 1] == s.stk[..s.d - 1]
    ensures c == CHAR_COLON ==> Step(s, c) == Go(SetTop(s, s.Top().(tok := DICT_KEY, pos := 0)))
    ensures c !in {CHAR_E, CHAR_COLON} && !IsDigit(c) ==> Step(s, c) == Reject(s)
    ensures IsDigit(c) && INT_MAX < 10 * n + DigitOf(c) ==> Step(s, c) == Abort
    ensures IsDigit(c) && 10 * n + DigitOf(c) <= INT_MAX ==>
      var t := SetTop(s, s.Top().(len := 10 * n + DigitOf(c)));
      && Step(s, c) == Go(t) && AtKey(t, 10 * n + DigitOf(c)) && t.d == s.d && t.nframes == s.nframes
      && t.stk[..s.d - 1] == s.stk[..s.d - 1]
  {
  }

  /** A key and what follows it. */
  lemma PairObeyed(s: State, b: seq<byte>, n: nat)
    requires AtKey(s, n) && b != [] && b[0] == CHAR_COLON
    requires Step(s, b[0]) == Go(SetTop(s, s.Top().(tok := DICT_KEY, pos := 0)))
    ensures Obeys(s, s.d - 1, b, ReadingKey(b, s.nframes - (s.d - 1), n))
    decreases |b|, 0
  {
    hide Step, Feed, Obeys, Body, Reading, ReadingEntries, ReadingKey;
    var d, room, rest := s.d - 1, s.nframes - (s.d - 1), b[1..];
    PairVerdict(b, room, n);
    var t := SetTop(s, s.Top().(tok := DICT_KEY, pos := 0));
    KeyBodyObeyed(t, rest);
    KeyBodyStep(s, t, b);
    var v := Body(rest, n, 0, INNER_LIMIT);
    if !v.Done? {
      EndsHere(s, d, b, v);
    } else {
      var k := 1 + v.n;
      var m := Feed(t, rest[..v.n]).s;
      assert b[..k][1..] == rest[..v.n];
      var w := Reading(b[k..], room - 1, INNER_LIMIT);
      ReadingObeyed(m, b[k..]);
      assert m.stk[..d] == m.stk[..s.d][..d] && s.stk[..d] == s.stk[..s.d][..d];
      if w.Done? {
        var u := ValueRead(s, m, b, k, w.n);
        EntriesObeyed(u, b[k + w.n..]);
        ObeysAfter(s, u, d, b, k + w.n, ReadingEntries(b[k + w.n..], room));
      } else {
        SameEnd(m, m.d, d, b[k..], w);
        ObeysAfter(s, m, d, b, k, w);
      }
    }
  }

  lemma PairVerdict(b: seq<byte>, room: nat, n: nat)
    requires 0 < room && b != [] && b[0] == CHAR_COLON
    ensures var v := Body(b[1..], n, 0, INNER_LIMIT);
      && !v.Bad? && (v.Done? ==> 1 + v.n <= |b|)
      && (!v.Done? ==> ReadingKey(b, room, n) == v)
      && (v.Done? ==>
            var w := Reading(b[1 + v.n..], room - 1, INNER_LIMIT);
            && (!w.Done? ==> ReadingKey(b, room, n) == w)
            && (w.Done? ==> ReadingKey(b, room, n)
                            == After(1 + v.n + w.n, ReadingEntries(b[1 + v.n + w.n..], room))))
  {
    hide Reading, ReadingEntries;
  }

  lemma EndsHere(s: State, d: nat, b: seq<byte>, v: Verdict)
    requires d <= s.d && !v.Done? && !v.Bad?
    requires if v.More? then Feed(s, b).Go? else Feed(s, b) == Abort
    ensures Obeys(s, d, b, v)
  {
  }

  lemma SameEnd(s: State, d: nat, e: nat, b: seq<byte>, v: Verdict)
    requires d <= s.d && e <= s.d && !v.Done? && Obeys(s, d, b, v)
    ensures Obeys(s, e, b, v)
  {
  }

  /** A value that is whole leads back to the dictionary of its key. */
  lemma ValueRead(s: State, m: State, b: seq<byte>, k: nat, n: nat) returns (u: State)
    requires AtKey(s, s.Top().len) && KeyRead(s, m) && k <= |b| && Feed(s, b[..k]) == Go(m)
    requires Obeys(m, m.d, b[k..], Done(n))
    ensures k + n <= |b| && Feed(s, b[..k + n]) == Go(u)
    ensures u.d == s.d - 1 && u.nframes == s.nframes && u.Top().tok == DICT && u.stk[..u.d] == s.stk[..u.d]
  {
    hide Step;
    u := Feed(m, b[k..][..n]).s;
    assert b[..k + n] == b[..k] + b[k..][..n];
    FeedConcat(s, b[..k], b[k..][..n]);
    assert u.Top() == u.stk[..s.d][s.d - 1] == s.stk[..s.d][s.d - 1];
    assert u.stk[..s.d - 1] == u.stk[..s.d][..s.d - 1] && s.stk[..s.d - 1] == s.stk[..s.d][..s.d - 1];
  }

  // ---------------------------------------------------------------------------------
  // The parser on any input

  /** The status of a call whose bytes have that verdict; nothing is said of bytes after a whole value. */
  predicate Judged(o: Outcome, v: Verdict, size: nat) {
    match v
    case Done(n) => n == size ==> o.Go?
    case More => o.Go?
    case Bad => o.Reject?
    case Crash => o == Abort
  }

  /** A new parser judges every input as recursive descent does, up to the end of the first value. */
  lemma EveryInputJudged(n: nat, b: seq<byte>)
    requires 0 < n
    ensures Judged(Dispatch(Init(n), b), Reading(b, n, OUTER_LIMIT), |b|)
  {
    hide Step, Feed;
    ReadingObeyed(Init(n), b);
    var v := Reading(b, n, OUTER_LIMIT);
    if v.Done? && v.n == |b| { assert b[..v.n] == b; }
  }

  /** A byte that starts no value is refused where a value is expected, whatever follows, and changes nothing. */
  lemma NoValueRefused(s: State, c: byte, rest: seq<byte>)
    requires s.d < s.nframes && !StartsValue(c)
    requires s.Top().tok in {NONE, DICT_VAL} || (s.Top().tok == LIST && c != CHAR_E)
    ensures Dispatch(s, [c] + rest) == Reject(s)
  {
    FeedByte(s, [c] + rest);
  }

  /** The same for a byte that cannot belong to the length of a key. */
  lemma NoKeyRefused(s: State, c: byte, rest: seq<byte>)
    requires s.d < s.nframes && !IsDigit(c) && c != CHAR_COLON && c != CHAR_E
    requires s.Top().tok in {DICT, DICT_KEYLEN}
    ensures Dispatch(s, [c] + rest).Reject?
  {
    FeedByte(s, [c] + rest);
  }

  /** After a number at the outermost level the parser does not start afresh: digits that follow belong to it. */
  lemma SecondNumberAppended(n: nat)
    requires 0 < n
    ensures var o := Dispatch(Init(n), [105, 49, 101, 50, 101]);
      o.Go? && o.s.out == [IntHit(Null, 1), IntHit(Null, 12)]
  {
    var s1 := SetTop(Init(n), Init(n).Top().(tok := INT, pos := 0));
    var s2 := SetTop(s1, s1.Top().(intval := 1));
    var s3 := Emit(s2, IntHit(Null, 1));
    var s4 := SetTop(s3, s3.Top().(intval := 12));
    var s5 := Emit(s4, IntHit(Null, 12));
    assert Step(Init(n), 105) == Go(s1) && Step(s1, 49) == Go(s2);
    assert Step(s2, 101) == Go(Pop(s3)) && Pop(s3) == s3;
    assert Step(s3, 50) == Go(s4) && Step(s4, 101) == Go(Pop(s5)) && Pop(s5) == s5;
    hide Step, Pop;
    var b := [105, 49, 101, 50, 101];
    var c, d, e, f := b[1..], b[1..][1..], b[1..][1..][1..], b[1..][1..][1..][1..];
    assert f[1..] == [];
    assert Feed(Init(n), b) == Feed(s1, c) == Feed(s2, d) == Feed(s3, e) == Feed(s4, f) == Feed(s5, f[1..]);
  }

  /** A blank is refused at once. */
  lemma BlankRefused()
    ensures Dispatch(Init(2), [32]) == Reject(Init(2))
  {
    assert [32] + [] == [32];
    NoValueRefused(Init(2), 32, []);
  }
}
