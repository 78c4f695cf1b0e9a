/** Bit fields of any width written into and read from 32-bit words (bitstream.c). */
module Bitstream {
  import opened Arithmetic
  import opened Common

  // ---------------------------------------------------------------------------------
  // Words: 32 bits, the most significant first

  function Zeros(n: nat): (z: seq<bool>)
    ensures |z| == n
  {
    seq(n, _ => false)
  }

  type Word = w: seq<bool> | |w| == 32 witness Zeros(32)

  function Shl(w: Word, k: nat): Word
    requires k < 32
  {
    w[k..] + Zeros(k)
  }

  function Shr(w: Word, k: nat): Word
    requires k < 32
  {
    Zeros(k) + w[..32 - k]
  }

  function Or(v: Word, w: Word): Word {
    seq(32, i requires 0 <= i < 32 => v[i] || w[i])
  }

  // ---------------------------------------------------------------------------------
  // Words as numbers

  function ToBits(v: nat, n: nat): (b: seq<bool>)
    ensures |b| == n
  {
    if n == 0 then [] else ToBits(v / 2, n - 1) + [v % 2 == 1]
  }

  function FromBits(b: seq<bool>): nat {
    if b == [] then 0
    else 2 * FromBits(b[..|b| - 1]) + if b[|b| - 1] then 1 else 0
  }

  lemma HalfRemainder(v: nat, m: nat)
    requires m > 0
    ensures v % (2 * m) == 2 * (v / 2 % m) + v % 2
  {
    var h := v / 2;
    var q, r := h / m, h % m;
    assert h == m * q + r;
    assert v == 2 * h + v % 2;
    RemainderIs(v, 2 * m, q, 2 * r + v % 2);
  }

  /** The bits of a number give back its remainder: bits beyond the width are lost. */
  lemma {:induction false} FromToBits(v: nat, n: nat)
    ensures FromBits(ToBits(v, n)) == v % Pow2(n)
    decreases n
  {
    if n > 0 {
      FromToBits(v / 2, n - 1);
      assert ToBits(v, n)[..n - 1] == ToBits(v / 2, n - 1);
      HalfRemainder(v, Pow2(n - 1));
    }
  }

  lemma {:induction false} LowBitsOf(v: nat, m: nat, n: nat)
    requires n <= m
    ensures ToBits(v, m)[m - n..] == ToBits(v, n)
    decreases n
  {
    if n > 0 { LowBitsOf(v / 2, m - 1, n - 1); }
  }

  lemma {:induction false} LeadingZeros(k: nat, b: seq<bool>)
    ensures FromBits(Zeros(k) + b) == FromBits(b)
    decreases k + |b|
  {
    var z := Zeros(k) + b;
    if b != [] {
      LeadingZeros(k, b[..|b| - 1]);
      assert z[..|z| - 1] == Zeros(k) + b[..|b| - 1];
    } else if k > 0 {
      LeadingZeros(k - 1, []);
      assert z[..|z| - 1] == Zeros(k - 1) + [];
    }
  }

  lemma LastBit(b: seq<bool>)
    requires b != []
    ensures FromBits(b) == 2 * FromBits(b[..|b| - 1]) + if b[|b| - 1] then 1 else 0
  {
  }

  lemma {:induction false} Join(a: seq<bool>, b: seq<bool>)
    ensures FromBits(a + b) == FromBits(a) * Pow2(|b|) + FromBits(b)
    ensures FromBits(b) < Pow2(|b|)
    decreases |b|
  {
    if b == [] {
      assert a + b == a;
    } else {
      var front := b[..|b| - 1];
      Join(a, front);
      LastBit(a + b);
      LastBit(b);
      assert Pow2(|b|) == 2 * Pow2(|front|);
      hide FromBits, Pow2;
      assert (a + b)[..|a + b| - 1] == a + front;
      Twice(FromBits(a), Pow2(|front|));
    }
  }

  /** Shifts are the multiplication modulo 2^32 and the division of C. */
  lemma ShlValue(w: Word, k: nat)
    requires k < 32
    ensures FromBits(Shl(w, k)) == FromBits(w) * Pow2(k) % Pow2(32)
  {
    hide FromBits, Pow2;
    var hi, lo := w[..k], w[k..];
    assert w == hi + lo;
    Join(hi, lo);
    Join(lo, Zeros(k));
    ZerosValue(k);
    PowSum(32 - k, k);
    ShiftedRemainder(FromBits(hi), Pow2(32 - k), FromBits(lo), Pow2(k), Pow2(32));
  }

  lemma ZerosValue(k: nat)
    ensures FromBits(Zeros(k)) == 0
  {
    LeadingZeros(k, []);
    assert Zeros(k) + [] == Zeros(k);
  }

  lemma ShiftedRemainder(x: nat, a: nat, y: nat, b: nat, m: nat)
    requires a * b == m && y < a && b > 0
    ensures (x * a + y) * b % m == y * b
  {
    Distribute(x, a, y, b);
    Below(y, a, b);
    RemainderIs((x * a + y) * b, m, x, y * b);
  }

  lemma Distribute(x: nat, a: nat, y: nat, b: nat)
    ensures (x * a + y) * b == (a * b) * x + y * b
  {
    assert (x * a) * b == (a * b) * x;
  }

  lemma Below(y: nat, a: nat, b: nat)
    requires y < a && b > 0
    ensures y * b < a * b
  {
  }

  lemma ShrValue(w: Word, k: nat)
    requires k < 32
    ensures FromBits(Shr(w, k)) == FromBits(w) / Pow2(k)
  {
    hide FromBits, Pow2;
    var hi, lo := w[..32 - k], w[32 - k..];
    assert w == hi + lo;
    Join(hi, lo);
    LeadingZeros(k, hi);
    RemainderIs(FromBits(w), Pow2(k), FromBits(hi), FromBits(lo));
  }

  // ---------------------------------------------------------------------------------
  // One field

  /** A field of 1 to 32 bits that lies within the words; a width of 0 would shift by 32, which C leaves undefined. */
  predicate InRange(ws: seq<Word>, n: nat, p: nat) {
    1 <= n <= 32 && p + n <= 32 * |ws|
  }

  function At(ws: seq<Word>, i: nat): bool
    requires i < 32 * |ws|
  {
    ws[i / 32][i % 32]
  }

  function Put(ws: seq<Word>, val: Word, n: nat, p: nat): (r: seq<Word>)
    requires InRange(ws, n, p)
    ensures |r| == |ws|
  {
    var k, o := p / 32, p % 32;
    var first := ws[k := Or(ws[k], Shr(Shl(val, 32 - n), o))];
    if 32 < o + n then first[k + 1 := Shl(val, 32 - (o + n) % 32)] else first
  }

  function Get(ws: seq<Word>, n: nat, p: nat): Word
    requires InRange(ws, n, p)
  {
    var k, o := p / 32, p % 32;
    var val := Shr(Shl(ws[k], o), 32 - n);
    if 32 < o + n then Or(val, Shr(ws[k + 1], 32 - (o + n) % 32)) else val
  }

  /** The low bits of a value, as the value that reading them gives. */
  function Low(val: Word, n: nat): Word
    requires n <= 32
  {
    Zeros(32 - n) + val[32 - n..]
  }

  lemma LeftPart(val: Word, n: nat, o: nat, j: nat)
    requires o < 32 && 1 <= n <= 32 && j < 32
    ensures Shr(Shl(val, 32 - n), o)[j] == (o <= j < o + n && val[32 - n + (j - o)])
  {
    if o <= j { assert Shl(val, 32 - n)[j - o] == (j - o < n && val[32 - n + (j - o)]); }
  }

  lemma RightPart(val: Word, m: nat, j: nat)
    requires m < 32 && j < 32
    ensures Shl(val, m)[j] == (m + j < 32 && val[m + j])
  {
  }

  /**
   * The effect of a write on every bit of the stream: the field is combined with what its first
   * word holds, replaces what the next word holds, and clears the rest of that next word.
   */
  lemma PutAt(ws: seq<Word>, val: Word, n: nat, p: nat, i: nat)
    requires InRange(ws, n, p) && i < 32 * |ws|
    ensures At(Put(ws, val, n, p), i) ==
            if p <= i < p + n then (i / 32 == p / 32 && At(ws, i)) || val[32 - n + (i - p)]
            else if p + n <= i && i / 32 > p / 32 && i / 32 == (p + n - 1) / 32 then false
            else At(ws, i)
  {
    hide Shl, Shr;
    var k, o := p / 32, p % 32;
    LeftPart(val, n, o, i % 32);
    if 32 < o + n {
      assert (o + n) % 32 == o + n - 32;
      RightPart(val, 32 - (o + n - 32), i % 32);
    }
  }

  lemma FirstPart(w: Word, o: nat, n: nat, j: nat)
    requires o < 32 && 1 <= n <= 32 && j < 32
    ensures Shr(Shl(w, o), 32 - n)[j] == (32 - n <= j && o + (j - (32 - n)) < 32 && w[o + (j - (32 - n))])
  {
    var d := j - (32 - n);
    if 0 <= d { assert Shl(w, o)[d] == (o + d < 32 && w[o + d]); }
  }

  lemma SecondPart(w: Word, m: nat, j: nat)
    requires m < 32 && j < 32
    ensures Shr(w, m)[j] == (m <= j && w[j - m])
  {
  }

  lemma Place(p: nat, d: nat)
    requires d < 32
    ensures (p + d) / 32 == p / 32 + (if p % 32 + d < 32 then 0 else 1)
    ensures (p + d) % 32 == p % 32 + d - (if p % 32 + d < 32 then 0 else 32)
  {
  }

  /** What is read is exactly the field's bits, right-aligned. */
  lemma GetAt(ws: seq<Word>, n: nat, p: nat, j: nat)
    requires InRange(ws, n, p) && j < 32
    ensures Get(ws, n, p)[j] == (32 - n <= j && At(ws, p + (j - (32 - n))))
  {
    hide Shl, Shr;
    var k, o := p / 32, p % 32;
    FirstPart(ws[k], o, n, j);
    if 32 < o + n {
      assert (o + n) % 32 == o + n - 32;
      SecondPart(ws[k + 1], 32 - (o + n - 32), j);
    }
    if 32 - n <= j { Place(p, j - (32 - n)); }
  }

  /** No bit that the field's first word already holds is missing from the value. */
  predicate Covers(ws: seq<Word>, val: Word, n: nat, p: nat)
    requires InRange(ws, n, p)
  {
    forall i :: p <= i < p + n && i / 32 == p / 32 && At(ws, i) ==> val[32 - n + (i - p)]
  }

  lemma ReadBackBit(ws: seq<Word>, val: Word, n: nat, p: nat, j: nat)
    requires InRange(ws, n, p) && j < 32
    ensures Get(Put(ws, val, n, p), n, p)[j] ==
            (32 - n <= j && (((p + (j - (32 - n))) / 32 == p / 32 && At(ws, p + (j - (32 - n)))) || val[j]))
  {
    hide Put, Get, At;
    GetAt(Put(ws, val, n, p), n, p, j);
    if 32 - n <= j { PutAt(ws, val, n, p, p + (j - (32 - n))); }
  }

  /** A written field is read back if and only if the value covers what was there. */
  lemma ReadBack(ws: seq<Word>, val: Word, n: nat, p: nat)
    requires InRange(ws, n, p)
    ensures Get(Put(ws, val, n, p), n, p) == Low(val, n) <==> Covers(ws, val, n, p)
  {
    hide Put, Get, At;
    var got := Get(Put(ws, val, n, p), n, p);
    forall j | 0 <= j < 32
      ensures got[j] == (32 - n <= j && (((p + (j - (32 - n))) / 32 == p / 32 && At(ws, p + (j - (32 - n)))) || val[j]))
    {
      ReadBackBit(ws, val, n, p, j);
    }
    if got == Low(val, n) {
      forall i | p <= i < p + n && i / 32 == p / 32 && At(ws, i) ensures val[32 - n + (i - p)] {
        assert got[32 - n + (i - p)] == Low(val, n)[32 - n + (i - p)];
      }
    }
    if Covers(ws, val, n, p) {
      forall j | 0 <= j < 32 ensures got[j] == Low(val, n)[j] {
      }
    }
  }

  /** Writing 0 over a set bit does not clear it. */
  lemma SetBitStays(ws: seq<Word>, p: nat)
    requires InRange(ws, 1, p) && At(ws, p)
    ensures Get(Put(ws, Zeros(32), 1, p), 1, p) != Low(Zeros(32), 1)
  {
    ReadBack(ws, Zeros(32), 1, p);
  }

  // ---------------------------------------------------------------------------------
  // A stream of fields

  type FieldWidth = n: int | 1 <= n <= 32 witness 1

  datatype Field = Field(val: u32, width: FieldWidth)

  function Bits(f: Field): Word {
    ToBits(f.val, 32)
  }

  function Width(fs: seq<Field>): nat {
    if fs == [] then 0 else fs[0].width + Width(fs[1..])
  }

  predicate Writable(ws: seq<Word>, fs: seq<Field>, p: nat) {
    p + Width(fs) <= 32 * |ws|
  }

  function PutAll(ws: seq<Word>, fs: seq<Field>, p: nat): (r: seq<Word>)
    requires Writable(ws, fs, p)
    ensures |r| == |ws|
    decreases |fs|
  {
    if fs == [] then ws else PutAll(Put(ws, Bits(fs[0]), fs[0].width, p), fs[1..], p + fs[0].width)
  }

  function GetAll(ws: seq<Word>, fs: seq<Field>, p: nat): seq<Word>
    requires Writable(ws, fs, p)
    decreases |fs|
  {
    if fs == [] then [] else [Get(ws, fs[0].width, p)] + GetAll(ws, fs[1..], p + fs[0].width)
  }

  predicate Clear(ws: seq<Word>, p: nat) {
    forall i :: p <= i < 32 * |ws| ==> !At(ws, i)
  }

  /** Writing at the end of what was written leaves it as it is, and the rest clear. */
  lemma PutExtends(ws: seq<Word>, val: Word, n: nat, p: nat)
    requires InRange(ws, n, p) && Clear(ws, p)
    ensures Clear(Put(ws, val, n, p), p + n)
    ensures forall i :: 0 <= i < p ==> At(Put(ws, val, n, p), i) == At(ws, i)
  {
    hide Put, At;
    forall i | 0 <= i < 32 * |ws|
      ensures i < p ==> At(Put(ws, val, n, p), i) == At(ws, i)
      ensures p + n <= i ==> !At(Put(ws, val, n, p), i)
    {
      PutAt(ws, val, n, p, i);
    }
  }

  lemma {:induction false} PutAllKeeps(ws: seq<Word>, fs: seq<Field>, p: nat, i: nat)
    requires Writable(ws, fs, p) && Clear(ws, p) && i < p
    ensures i < 32 * |ws| && At(PutAll(ws, fs, p), i) == At(ws, i)
    decreases |fs|
  {
    hide Put, At;
    if fs != [] {
      PutExtends(ws, Bits(fs[0]), fs[0].width, p);
      PutAllKeeps(Put(ws, Bits(fs[0]), fs[0].width, p), fs[1..], p + fs[0].width, i);
    }
  }

  lemma FirstField(ws: seq<Word>, fs: seq<Field>, p: nat)
    requires fs != [] && Writable(ws, fs, p) && Clear(ws, p)
    ensures Get(PutAll(ws, fs, p), fs[0].width, p) == Low(Bits(fs[0]), fs[0].width)
  {
    hide Put, Get, At;
    var n: nat := fs[0].width;
    var one := Put(ws, Bits(fs[0]), n, p);
    var all := PutAll(ws, fs, p);
    PutExtends(ws, Bits(fs[0]), n, p);
    forall j | 0 <= j < 32 ensures Get(all, n, p)[j] == Get(one, n, p)[j] {
      GetAt(all, n, p, j);
      GetAt(one, n, p, j);
      if 32 - n <= j { PutAllKeeps(one, fs[1..], p + n, p + (j - (32 - n))); }
    }
    assert Get(all, n, p) == Get(one, n, p);
    ReadBack(ws, Bits(fs[0]), n, p);
  }

  lemma LowValue(f: Field)
    ensures FromBits(Low(Bits(f), f.width)) == f.val % Pow2(f.width)
  {
    LowBitsOf(f.val, 32, f.width);
    LeadingZeros(32 - f.width, ToBits(f.val, f.width));
    FromToBits(f.val, f.width);
  }

  /**
   * Fields of any widths, written one after the other from a clear position, are all read back:
   * each as the low bits of its value.
   */
  lemma {:induction false} RoundTrip(ws: seq<Word>, fs: seq<Field>, p: nat, i: nat)
    requires Writable(ws, fs, p) && Clear(ws, p) && i < |fs|
    ensures |GetAll(PutAll(ws, fs, p), fs, p)| == |fs|
    ensures FromBits(GetAll(PutAll(ws, fs, p), fs, p)[i]) == fs[i].val % Pow2(fs[i].width)
    decreases |fs|
  {
    hide Put, Get, At, FromBits, Bits, Pow2, Low;
    AllRead(PutAll(ws, fs, p), fs, p);
    if i == 0 {
      FirstField(ws, fs, p);
      LowValue(fs[0]);
    } else {
      PutExtends(ws, Bits(fs[0]), fs[0].width, p);
      RoundTrip(Put(ws, Bits(fs[0]), fs[0].width, p), fs[1..], p + fs[0].width, i - 1);
    }
  }

  lemma {:induction false} AllRead(ws: seq<Word>, fs: seq<Field>, p: nat)
    requires Writable(ws, fs, p)
    ensures |GetAll(ws, fs, p)| == |fs|
    decreases |fs|
  {
    hide Get;
    if fs != [] { AllRead(ws, fs[1..], p + fs[0].width); }
  }

  // ---------------------------------------------------------------------------------
  // The stream in memory

  class Stream {
    const words: array<Word>
    var bitPos: nat

    /** `bitstream_init` */
    constructor (size: nat)
      ensures fresh(words) && words.Length == size && bitPos == 0 && Clear(words[..], 0)
    {
      words := new Word[size](_ => Zeros(32));
      bitPos := 0;
    }

    method Write(val: u32, nbits: FieldWidth)
      requires InRange(words[..], nbits, bitPos)
      modifies this, words
      ensures words[..] == Put(old(words[..]), ToBits(val, 32), nbits, old(bitPos))
      ensures bitPos == old(bitPos) + nbits
    {
      hide Shl, Shr, Or, ToBits;
      var bits := ToBits(val, 32);
      var intOffset, bitOffset := (bitPos - bitPos % 32) / 32, bitPos % 32;
      words[intOffset] := Or(words[intOffset], Shr(Shl(bits, 32 - nbits), bitOffset));
      if 32 < bitOffset + nbits {
        var nbits2 := (bitOffset + nbits) % 32;
        words[intOffset + 1] := Shl(bits, 32 - nbits2);
      }
      bitPos := bitPos + nbits;
    }

    method Read(nbits: FieldWidth) returns (val: u32)
      requires InRange(words[..], nbits, bitPos)
      modifies this
      ensures val == FromBits(Get(words[..], nbits, old(bitPos)))
      ensures bitPos == old(bitPos) + nbits
    {
      hide Shl, Shr, Or;
      var intOffset, bitOffset := (bitPos - bitPos % 32) / 32, bitPos % 32;
      var out := words[intOffset];
      out := Shl(out, bitOffset);
      out := Shr(out, 32 - nbits);
      if 32 < bitOffset + nbits {
        var nbits2 := (bitOffset + nbits) % 32;
        out := Or(out, Shr(words[intOffset + 1], 32 - nbits2));
      }
      bitPos := bitPos + nbits;
      Join([], out);
      WordRange();
      val := FromBits(out);
    }
  }
}
