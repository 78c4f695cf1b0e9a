/** Bencoded values, the bytes that spell them, and the callbacks that a
    recursive traversal of a value would fire. */
module BencodeSyntax {
  import opened Common

  datatype Value =
    | Int(n: int)
    | Str(s: seq<byte>)
    | List(items: Items)
    | Dict(entries: Entries)

  datatype Items = NoItem | Item(head: Value, tail: Items)

  datatype Entries = NoEntry | Entry(key: seq<byte>, val: Value, rest: Entries)

  const CHAR_0: byte := 48
  const CHAR_COLON: byte := 58
  const CHAR_MINUS: byte := 45
  const CHAR_D: byte := 100
  const CHAR_E: byte := 101
  const CHAR_I: byte := 105
  const CHAR_L: byte := 108

  predicate IsDigit(c: byte) {
    CHAR_0 <= c <= CHAR_0 + 9
  }

  function Digits(n: nat): (r: seq<byte>)
    ensures r != [] && forall i :: 0 <= i < |r| ==> IsDigit(r[i])
  {
    if n < 10 then [CHAR_0 + n] else Digits(n / 10) + [CHAR_0 + n % 10]
  }

  predicate StartsValue(c: byte) {
    c == CHAR_I || c == CHAR_D || c == CHAR_L || IsDigit(c)
  }

  function Encode(v: Value): (r: seq<byte>)
    ensures r != [] && StartsValue(r[0])
  {
    match v
    case Int(n) => [CHAR_I] + (if n < 0 then [CHAR_MINUS] + Digits(-n) else Digits(n)) + [CHAR_E]
    case Str(s) => Digits(|s|) + [CHAR_COLON] + s
    case List(items) => [CHAR_L] + EncodeItems(items) + [CHAR_E]
    case Dict(entries) => [CHAR_D] + EncodeEntries(entries) + [CHAR_E]
  }

  function EncodeItems(items: Items): seq<byte> {
    match items
    case NoItem => []
    case Item(head, tail) => Encode(head) + EncodeItems(tail)
  }

  function EncodeEntries(entries: Entries): (r: seq<byte>)
    ensures entries.Entry? ==> r != [] && IsDigit(r[0])
  {
    match entries
    case NoEntry => []
    case Entry(key, val, rest) => EncodeKey(key) + Encode(val) + EncodeEntries(rest)
  }

  function EncodeKey(key: seq<byte>): (r: seq<byte>)
    ensures r != [] && IsDigit(r[0])
  {
    Digits(|key|) + [CHAR_COLON] + key
  }

  /** The spellings of a number, a string, a list and a dictionary: i42e, 4:spam, l4:spami42ee, d3:cow3:mooe. */
  lemma Spellings()
    ensures Encode(Int(42)) == [105, 52, 50, 101]
    ensures Encode(Str([115, 112, 97, 109])) == [52, 58, 115, 112, 97, 109]
    ensures Encode(List(Item(Str([115, 112, 97, 109]), Item(Int(42), NoItem)))) ==
            [108, 52, 58, 115, 112, 97, 109, 105, 52, 50, 101, 101]
    ensures Encode(Dict(Entry([99, 111, 119], Str([109, 111, 111]), NoEntry))) ==
            [100, 51, 58, 99, 111, 119, 51, 58, 109, 111, 111, 101]
  {
    hide Digits, Encode, EncodeItems, EncodeEntries, EncodeKey;
    var spam, moo := Str([115, 112, 97, 109]), Str([109, 111, 111]);
    SpelledScalars();
    ItemUnfolds(Int(42), NoItem);
    ItemUnfolds(spam, Item(Int(42), NoItem));
    NoItemUnfolds();
    EntryUnfolds([99, 111, 119], moo, NoEntry);
    NoEntryUnfolds();
    ContainerSpelled(Item(spam, Item(Int(42), NoItem)), Entry([99, 111, 119], moo, NoEntry));
  }

  lemma SpelledScalars()
    ensures Encode(Int(42)) == [105, 52, 50, 101]
    ensures Encode(Str([115, 112, 97, 109])) == [52, 58, 115, 112, 97, 109]
    ensures Encode(Str([109, 111, 111])) == [51, 58, 109, 111, 111]
    ensures EncodeKey([99, 111, 119]) == [51, 58, 99, 111, 119]
  {
    SmallDigits();
    hide Digits;
  }

  lemma SmallDigits()
    ensures Digits(42) == [52, 50] && Digits(4) == [52] && Digits(3) == [51]
  {
    assert Digits(42) == Digits(4) + [50];
  }

  lemma ContainerSpelled(items: Items, entries: Entries)
    ensures Encode(List(items)) == [CHAR_L] + EncodeItems(items) + [CHAR_E]
    ensures Encode(Dict(entries)) == [CHAR_D] + EncodeEntries(entries) + [CHAR_E]
  {
  }

  /** One callback of the parser. `K` is what is known about its `dict_key` argument. */
  datatype Event<+K> =
    | IntHit(key: K, n: int)
    | StrHit(key: K, s: seq<byte>)
    | DictEnter(key: K)
    | DictLeave(key: K)
    | ListEnter(key: K)
    | ListLeave(key: K)
    | ListNext
    | DictNext

  /** An expected callback: `None` leaves the key open (list items and the top-level value). */
  type Expected = Event<Option<seq<byte>>>

  /** The callbacks of a depth-first traversal of `v`, reported under `key`. */
  function Traverse(v: Value, key: Option<seq<byte>>): (r: seq<Expected>)
    ensures r != []
  {
    match v
    case Int(n) => [IntHit(key, n)]
    case Str(s) => [StrHit(key, s)]
    case List(items) => [ListEnter(key)] + TraverseItems(items) + [ListLeave(key)]
    case Dict(entries) => [DictEnter(key)] + TraverseEntries(entries) + [DictLeave(key)]
  }

  function TraverseItems(items: Items): seq<Expected> {
    match items
    case NoItem => []
    case Item(head, tail) => Traverse(head, None) + [ListNext] + TraverseItems(tail)
  }

  function TraverseEntries(entries: Entries): seq<Expected> {
    match entries
    case NoEntry => []
    case Entry(key, val, rest) => Traverse(val, Some(key)) + [DictNext] + TraverseEntries(rest)
  }

  /** How many stack frames above its own the value needs. */
  function Depth(v: Value): nat {
    match v
    case Int(_) => 0
    case Str(_) => 0
    case List(items) => ItemsDepth(items)
    case Dict(entries) => if entries.NoEntry? then 1 else EntriesDepth(entries)
  }

  function ItemsDepth(items: Items): nat {
    match items
    case NoItem => 0
    case Item(head, tail) => Max(1 + Depth(head), ItemsDepth(tail))
  }

  function EntriesDepth(entries: Entries): nat {
    match entries
    case NoEntry => 0
    case Entry(_, val, rest) => Max(1 + Depth(val), EntriesDepth(rest))
  }

  function Max(a: nat, b: nat): nat {
    if a < b then b else a
  }

  /** The largest size of the string and key buffers of the outermost frame, and of the other frames. */
  const OUTER_LIMIT: nat := 0x7FFF_FFFC
  const INNER_LIMIT: nat := 0x5FFF_FFFC

  /** The values whose encoding the parser understands: no negative or oversized integer, no empty
      dictionary, no empty dictionary key, no string or key that its buffer cannot grow to hold. `limit` is the
      largest size of the buffer for the value itself. */
  predicate Supported(v: Value, limit: nat) {
    match v
    case Int(n) => 0 <= n <= INT_MAX
    case Str(s) => |s| < limit
    case List(items) => SupportedItems(items)
    case Dict(entries) => entries.Entry? && SupportedEntries(entries)
  }

  predicate SupportedItems(items: Items) {
    match items
    case NoItem => true
    case Item(head, tail) => Supported(head, INNER_LIMIT) && SupportedItems(tail)
  }

  predicate SupportedEntries(entries: Entries) {
    match entries
    case NoEntry => true
    case Entry(key, val, rest) =>
      0 < |key| < INNER_LIMIT && Supported(val, INNER_LIMIT) && SupportedEntries(rest)
  }

  // ---------------------------------------------------------------------------------
  // One member at a time

  lemma NoItemUnfolds()
    ensures EncodeItems(NoItem) == [] && TraverseItems(NoItem) == []
    ensures SupportedItems(NoItem) && ItemsDepth(NoItem) == 0
  {
  }

  lemma ItemUnfolds(head: Value, tail: Items)
    ensures EncodeItems(Item(head, tail)) == Encode(head) + EncodeItems(tail)
    ensures TraverseItems(Item(head, tail)) == Traverse(head, None) + [ListNext] + TraverseItems(tail)
    ensures SupportedItems(Item(head, tail)) <==> Supported(head, INNER_LIMIT) && SupportedItems(tail)
    ensures 1 + Depth(head) <= ItemsDepth(Item(head, tail)) && ItemsDepth(tail) <= ItemsDepth(Item(head, tail))
    ensures ItemsDepth(Item(head, tail)) in {1 + Depth(head), ItemsDepth(tail)}
  {
  }

  lemma NoEntryUnfolds()
    ensures EncodeEntries(NoEntry) == [] && TraverseEntries(NoEntry) == []
    ensures SupportedEntries(NoEntry) && EntriesDepth(NoEntry) == 0
  {
  }

  lemma EntryUnfolds(key: seq<byte>, val: Value, rest: Entries)
    ensures EncodeEntries(Entry(key, val, rest)) == EncodeKey(key) + (Encode(val) + EncodeEntries(rest))
    ensures TraverseEntries(Entry(key, val, rest)) == Traverse(val, Some(key)) + [DictNext] + TraverseEntries(rest)
    ensures SupportedEntries(Entry(key, val, rest)) <==>
      0 < |key| < INNER_LIMIT && Supported(val, INNER_LIMIT) && SupportedEntries(rest)
    ensures 1 + Depth(val) <= EntriesDepth(Entry(key, val, rest))
    ensures EntriesDepth(rest) <= EntriesDepth(Entry(key, val, rest))
    ensures EntriesDepth(Entry(key, val, rest)) in {1 + Depth(val), EntriesDepth(rest)}
  {
  }
}
