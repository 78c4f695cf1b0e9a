/** The loop of pwp_send_bitfield. */
module WireEncoder {
  import opened Common
  import opened WireFormat

  lemma PackBitsStep(bits: seq<bool>)
    requires |bits| >= 8
    ensures PackBits(bits) == [PackByte(bits[..8])] + PackBits(bits[8..])
  {
    if |bits| == 8 { assert bits[..8] == bits; }
  }

  lemma {:induction false} PackBitsConcat(a: seq<bool>, b: seq<bool>)
    requires |a| % 8 == 0
    ensures PackBits(a + b) == PackBits(a) + PackBits(b)
    decreases |a|
  {
    if a == [] {
      assert a + b == b;
    } else {
      hide PackBits, PackByte;
      PackBitsStep(a);
      PackBitsStep(a + b);
      assert (a + b)[..8] == a[..8] && (a + b)[8..] == a[8..] + b;
      PackBitsConcat(a[8..], b);
    }
  }

  lemma PlaceFree(bits: seq<bool>)
    requires |bits| < 8
    ensures PackByte(bits) % (2 * Place(|bits|)) == 0 && PackByte(bits) + Place(|bits|) < 256
  {
    if bits != [] { PackByteLow(bits); }
    PackByteSnoc(bits, true);
    PlaceDouble(|bits|);
  }

  /** One more piece: the pending byte, and the output when it is written. */
  lemma OneMore(have: seq<bool>, cut: nat, i: nat)
    requires cut <= i < |have| && cut % 8 == 0 && i - cut < 8
    ensures PackByte(have[cut..i]) % (2 * Place(i - cut)) == 0 && PackByte(have[cut..i]) + Place(i - cut) < 256
    ensures SetBit(PackByte(have[cut..i]), i - cut, have[i]) == PackByte(have[cut..i + 1])
    ensures PackBits(have[..i + 1]) == PackBits(have[..cut]) + [PackByte(have[cut..i + 1])]
  {
    PlaceFree(have[cut..i]);
    PackByteSnoc(have[cut..i], have[i]);
    assert have[cut..i] + [have[i]] == have[cut..i + 1];
    PackBitsConcat(have[..cut], have[cut..i + 1]);
    assert have[..cut] + have[cut..i + 1] == have[..i + 1];
  }

  lemma PlaceDouble(k: nat)
    requires k < 8
    ensures k > 0 ==> 2 * Place(k) == Place(k - 1)
  {
  }

  lemma PackNothing()
    ensures PackBits([]) == [] && PackByte([]) == 0
  {
  }

  /** `have[i]` is the answer of `chunky_have(pieces_completed, i, 1)`; the source's output
      buffer holds 1000 bytes. */
  method SendBitfield(have: seq<bool>) returns (data: seq<byte>)
    requires 5 + (|have| + 7) / 8 <= 1000
    ensures data == Send(Bitfield(have))
  {
    hide WriteU32, PackByte, PackBits, Place, SetBit, CutAt;
    var npieces := |have|;
    var size := 4 + 1 + npieces / 8 + if npieces % 8 == 0 then 0 else 1;
    data := WriteU32(size - 4) + [BITFIELD];
    ghost var head := data;
    var bits: byte := 0;
    var i := 0;
    ghost var cut := 0;
    PackNothing();
    assert have[..0] == [] && have[0..0] == [];
    CutStart(npieces);
    while i < npieces
      invariant 0 <= i <= npieces && cut == CutAt(i, npieces)
      invariant data == head + PackBits(have[..cut])
      invariant bits == PackByte(have[cut..i])
    {
      var k := i % 8;
      CutStep(i, npieces);
      OneMore(have, cut, i);
      bits := SetBit(bits, k, have[i]);
      if (i + 1) % 8 == 0 || npieces - 1 == i {
        data := data + [bits];
        bits := 0;
        cut := i + 1;
        assert have[cut..cut] == [];
      }
      i := i + 1;
    }
    CutStart(npieces);
    assert have[..cut] == have;
  }

  /** How many pieces the bytes written so far stand for. */
  function CutAt(i: nat, npieces: nat): (cut: nat)
    ensures i <= npieces ==> cut <= i && i - cut < 8
  {
    if i < npieces then i - i % 8 else npieces
  }

  lemma CutStart(npieces: nat)
    ensures CutAt(0, npieces) == 0 && CutAt(npieces, npieces) == npieces
  {
  }

  lemma CutStep(i: nat, npieces: nat)
    requires i < npieces
    ensures CutAt(i, npieces) % 8 == 0 && i - CutAt(i, npieces) == i % 8
    ensures CutAt(i + 1, npieces) == if (i + 1) % 8 == 0 || npieces - 1 == i then i + 1 else CutAt(i, npieces)
  {
  }
}
