/** Peer wire messages and their encoding (pwp_connection.c, pwp_bitfield.c). */
module WireFormat {
  import Arithmetic
  import opened Common

  // ---------------------------------------------------------------------------------
  // Integers: the host is little-endian, the wire is big-endian, `fe` flips the bytes

  function ToMemory(n: u32): (m: seq<byte>)
    ensures |m| == 4
  {
    [n % 256, n / 256 % 256, n / 256 / 256 % 256, n / 256 / 256 / 256]
  }

  function FromMemory(m: seq<byte>): u32
    requires |m| == 4
  {
    var (a: int, b: int, c: int, d: int) := (m[0], m[1], m[2], m[3]);
    a + 256 * (b + 256 * (c + 256 * d))
  }

  function Flip(n: u32): u32 {
    var c := ToMemory(n);
    FromMemory([c[3], c[2], c[1], c[0]])
  }

  /** `bitstream_write_uint32(&ptr, fe(n))` */
  function WriteU32(n: u32): (w: seq<byte>)
    ensures |w| == 4
  {
    ToMemory(Flip(n))
  }

  /** `mh_uint32`: four bytes copied into an integer, then flipped. */
  function ReadU32(w: seq<byte>): u32
    requires |w| == 4
  {
    Flip(FromMemory(w))
  }

  lemma SplitOff(a: int, q: int)
    requires 0 <= a < 256
    ensures (a + 256 * q) % 256 == a && (a + 256 * q) / 256 == q
  {
  }

  lemma FlipMemory(m: seq<byte>)
    requires |m| == 4
    ensures ToMemory(FromMemory(m)) == m
  {
    var a, b, c, d: int := m[0], m[1], m[2], m[3];
    SplitOff(a, b + 256 * (c + 256 * d));
    SplitOff(b, c + 256 * d);
    SplitOff(c, d);
  }

  lemma MemoryFlip(n: u32)
    ensures FromMemory(ToMemory(n)) == n
  {
  }

  /** The wire carries the most significant byte first. */
  lemma WriteIsBigEndian(n: u32)
    ensures WriteU32(n) == [n / 256 / 256 / 256, n / 256 / 256 % 256, n / 256 % 256, n % 256]
  {
    var c := ToMemory(n);
    FlipMemory([c[3], c[2], c[1], c[0]]);
  }

  lemma ReadWrite(n: u32)
    ensures ReadU32(WriteU32(n)) == n
  {
    var c := ToMemory(n);
    FlipMemory([c[3], c[2], c[1], c[0]]);
    MemoryFlip(n);
    MemoryFlip(Flip(n));
    assert ToMemory(Flip(n)) == [c[3], c[2], c[1], c[0]];
  }

  // ---------------------------------------------------------------------------------
  // Messages

  const CHOKE: byte := 0
  const UNCHOKE: byte := 1
  const INTERESTED: byte := 2
  const UNINTERESTED: byte := 3
  const HAVE: byte := 4
  const BITFIELD: byte := 5
  const REQUEST: byte := 6
  const PIECE: byte := 7
  const CANCEL: byte := 8

  datatype Block = Block(piece: u32, offset: u32, len: u32) {
    function End(): nat {
      offset + len
    }

    /** The end as the C code computes it. */
    function WrappedEnd(): u32 {
      Wrap(offset + len)
    }
  }

  datatype Message =
    | StateChange(id: byte)
    | Have(piece: u32)
    | Bitfield(have: seq<bool>)
    | Request(blk: Block)
    | Cancel(blk: Block)
    | Piece(piece: u32, offset: u32, data: seq<byte>)

  /** What the send functions are given: the payload sizes fit the length field. */
  predicate Sendable(m: Message) {
    match m
    case StateChange(id) => id <= UNINTERESTED
    case Bitfield(have) => 1 + (|have| + 7) / 8 < 0x1_0000_0000
    case Piece(_, _, data) => 9 + |data| < 0x1_0000_0000
    case _ => true
  }

  function Send(m: Message): seq<byte>
    requires Sendable(m)
  {
    match m
    case StateChange(id) => WriteU32(1) + [id]
    case Have(piece) => WriteU32(5) + [HAVE] + WriteU32(piece)
    case Bitfield(have) => WriteU32(1 + |PackBits(have)|) + [BITFIELD] + PackBits(have)
    case Request(b) => WriteU32(13) + [REQUEST] + WriteU32(b.piece) + WriteU32(b.offset) + WriteU32(b.len)
    case Cancel(b) => WriteU32(13) + [CANCEL] + WriteU32(b.piece) + WriteU32(b.offset) + WriteU32(b.len)
    case Piece(piece, offset, data) =>
      WriteU32(9 + |data|) + [PIECE] + WriteU32(piece) + WriteU32(offset) + data
  }

  /** Every message byte by byte up to its fields. */
  lemma SendLayout(m: Message)
    requires Sendable(m)
    ensures m.StateChange? ==> Send(m) == [0, 0, 0, 1] + [m.id]
    ensures m.Have? ==> Send(m) == [0, 0, 0, 5] + [4] + WriteU32(m.piece)
    ensures m.Bitfield? ==> Send(m) == WriteU32(1 + (|m.have| + 7) / 8) + [5] + PackBits(m.have)
    ensures m.Request? ==>
      Send(m) == [0, 0, 0, 13] + [6] + WriteU32(m.blk.piece) + WriteU32(m.blk.offset) + WriteU32(m.blk.len)
    ensures m.Cancel? ==>
      Send(m) == [0, 0, 0, 13] + [8] + WriteU32(m.blk.piece) + WriteU32(m.blk.offset) + WriteU32(m.blk.len)
    ensures m.Piece? ==>
      Send(m) == WriteU32(9 + |m.data|) + [7] + WriteU32(m.piece) + WriteU32(m.offset) + m.data
  {
    hide WriteU32, PackBits;
    SmallNumbers();
  }

  lemma SmallNumbers()
    ensures WriteU32(1) == [0, 0, 0, 1] && WriteU32(5) == [0, 0, 0, 5] && WriteU32(13) == [0, 0, 0, 13]
  {
    hide WriteU32;
    WriteIsBigEndian(1);
    WriteIsBigEndian(5);
    WriteIsBigEndian(13);
  }

  function SendAll(ms: seq<Message>): seq<byte>
    requires forall i :: 0 <= i < |ms| ==> Sendable(ms[i])
  {
    if ms == [] then [] else Send(ms[0]) + SendAll(ms[1..])
  }

  // ---------------------------------------------------------------------------------
  // Bit fields

  /** The byte whose most significant bits are `bits`, the others being zero. */
  function PackByte(bits: seq<bool>): byte
    requires |bits| <= 8
  {
    if bits == [] then 0 else (if bits[0] then 128 else 0) + PackByte(bits[1..]) / 2
  }

  /** Eight pieces per byte, the last byte padded with zeros. */
  function PackBits(bits: seq<bool>): (r: seq<byte>)
    ensures |r| == (|bits| + 7) / 8
  {
    if bits == [] then []
    else if |bits| <= 8 then [PackByte(bits)]
    else [PackByte(bits[..8])] + PackBits(bits[8..])
  }

  /** `(unsigned char)(val << n)` */
  function ShiftLeft(val: byte, n: nat): byte
    decreases n
  {
    if n == 0 then val else ShiftLeft(val * 2 % 256, n - 1)
  }

  /** `0x1 == ((unsigned char)(val << ii) >> 7)` */
  predicate TestBit(val: byte, ii: nat) {
    ShiftLeft(val, ii) / 128 == 1
  }

  function UnpackByte(val: byte): (r: seq<bool>)
    ensures |r| == 8
  {
    seq(8, ii requires 0 <= ii => TestBit(val, ii))
  }

  function UnpackBits(bytes: seq<byte>): (r: seq<bool>)
    ensures |r| == 8 * |bytes|
  {
    if bytes == [] then [] else UnpackByte(bytes[0]) + UnpackBits(bytes[1..])
  }

  /** The value of the bit at index `k` of a byte, counted from the most significant. */
  function Place(k: nat): nat {
    match k
    case 0 => 128
    case 1 => 64
    case 2 => 32
    case 3 => 16
    case 4 => 8
    case 5 => 4
    case 6 => 2
    case _ => 1
  }

  /** Below the packed bits there are only zeros. */
  lemma {:induction false} PackByteLow(bits: seq<bool>)
    requires 0 < |bits| <= 8
    ensures PackByte(bits) % Place(|bits| - 1) == 0
    decreases |bits|
  {
    if |bits| > 1 {
      PackByteLow(bits[1..]);
      HalfLow(PackByte(bits[1..]), |bits| - 2);
      LowSum(if bits[0] then 128 else 0, PackByte(bits[1..]) / 2, |bits| - 1);
    }
  }

  lemma HalfLow(x: nat, k: nat)
    requires k < 7 && x % Place(k) == 0
    ensures x / 2 % Place(k + 1) == 0 && x == 2 * (x / 2)
  {
    var p, q := Place(k + 1), x / Place(k);
    assert Place(k) == 2 * p;
    hide Place;
    var y := p * q;
    assert x == 2 * y by { assert x == 2 * p * q; }
    Arithmetic.RemainderIs(y, p, q, 0);
  }

  lemma LowSum(x: nat, y: nat, k: nat)
    requires (x == 0 || x == 128) && k < 8 && y % Place(k) == 0
    ensures (x + y) % Place(k) == 0
  {
    if x == 128 {
      var p := Place(k);
      var c, q := 128 / p, y / p;
      assert p * c == 128;
      hide Place;
      assert y == p * q;
      assert p * (c + q) == p * c + p * q;
      Arithmetic.RemainderIs(x + y, p, c + q, 0);
    }
  }

  lemma PackByteRest(bits: seq<bool>)
    requires 0 < |bits| <= 8
    ensures PackByte(bits) / 128 == 1 <==> bits[0]
    ensures PackByte(bits) * 2 % 256 == PackByte(bits[1..])
    ensures PackByte(bits[1..]) == 2 * (PackByte(bits[1..]) / 2)
  {
    if |bits| > 1 {
      PackByteLow(bits[1..]);
      HalfLow(PackByte(bits[1..]), |bits| - 2);
    }
    TopBit(PackByte(bits), if bits[0] then 1 else 0, PackByte(bits[1..]) / 2);
  }

  lemma TopBit(x: nat, top: nat, h: nat)
    requires top < 2 && h < 128 && x == 128 * top + h
    ensures x / 128 == top && x * 2 % 256 == 2 * h
  {
  }

  lemma {:induction false} TestPackedBit(bits: seq<bool>, ii: nat)
    requires |bits| <= 8 && ii < 8
    ensures TestBit(PackByte(bits), ii) <==> ii < |bits| && bits[ii]
    decreases ii
  {
    if bits == [] {
      ShiftZero(ii);
    } else {
      PackByteRest(bits);
      if ii > 0 { TestPackedBit(bits[1..], ii - 1); }
    }
  }

  lemma {:induction false} ShiftZero(ii: nat)
    ensures ShiftLeft(0, ii) == 0
  {
    if ii > 0 { ShiftZero(ii - 1); }
  }

  /** Unpacking gives back the bits, followed by fewer than eight zeros. */
  lemma {:induction false} UnpackPackBits(bits: seq<bool>, i: nat)
    ensures |bits| <= |UnpackBits(PackBits(bits))| < |bits| + 8
    ensures i < |UnpackBits(PackBits(bits))| ==> (UnpackBits(PackBits(bits))[i] <==> i < |bits| && bits[i])
    decreases |bits|
  {
    var packed := PackBits(bits);
    if 0 < |bits| <= 8 {
      if i < 8 { TestPackedBit(bits, i); }
      assert packed[1..] == [];
    } else if 8 < |bits| {
      assert packed[1..] == PackBits(bits[8..]);
      if i < 8 { TestPackedBit(bits[..8], i); }
      UnpackPackBits(bits[8..], if i < 8 then 0 else i - 8);
    }
  }

  // ---------------------------------------------------------------------------------
  // The encoder loop of pwp_send_bitfield

  /** Setting a bit that is still zero, as `bits |= 1 << (7 - k)` does. */
  function SetBit(bits: byte, k: nat, b: bool): byte
    requires k < 8 && bits % (2 * Place(k)) == 0 && bits + Place(k) < 256
  {
    bits + if b then Place(k) else 0
  }

  lemma {:induction false} PackByteSnoc(bits: seq<bool>, b: bool)
    requires |bits| < 8
    ensures PackByte(bits + [b]) == PackByte(bits) + if b then Place(|bits|) else 0
    decreases |bits|
  {
    if bits == [] {
      assert (bits + [b])[1..] == [];
    } else {
      assert (bits + [b])[1..] == bits[1..] + [b];
      PackByteSnoc(bits[1..], b);
      PackByteRest(bits + [b]);
      PackByteRest(bits);
    }
  }
}
