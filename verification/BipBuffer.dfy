/** The bip buffer: a queue of bytes kept in at most two regions of one block (bipbuffer.c). */
module BipBuffer {
  import opened Common

  /** Where the two regions lie; region B starts at 0. */
  datatype Regions = Regions(aStart: int, aEnd: int, bEnd: int, bInuse: bool)

  /**
   * Region B lies before region A, both lie in the block, and an empty region A sits at the
   * start with region B off.
   */
  predicate Shaped(r: Regions, size: nat) {
    && 0 <= r.aStart <= r.aEnd <= size
    && 0 <= r.bEnd && (if r.bInuse then r.bEnd <= r.aStart else r.bEnd == 0)
    && (r.aStart == r.aEnd ==> r.aStart == 0 && !r.bInuse)
  }

  /** Region B is turned on when more room lies before region A than after it. */
  function Switched(r: Regions, size: nat): Regions {
    if size - r.aEnd < r.aStart - r.bEnd then r.(bInuse := true) else r
  }

  /** The regions after that many bytes were added. */
  function Grown(r: Regions, n: nat, size: nat): Regions {
    Switched(if r.bInuse then r.(bEnd := r.bEnd + n) else r.(aEnd := r.aEnd + n), size)
  }

  /** The regions after that many bytes were taken from region A: region B takes its place when it is used up. */
  function Shrunk(r: Regions, n: nat, size: nat): Regions {
    var a := Wrap(r.aStart + n);
    Switched(
      if a != r.aEnd then r.(aStart := a)
      else if r.bInuse then Regions(0, r.bEnd, 0, false)
      else r.(aStart := 0, aEnd := 0),
      size)
  }

  /** The bytes of region A, then those of region B. */
  function QueueOf(all: seq<byte>, r: Regions): seq<byte>
    requires Shaped(r, |all|)
  {
    all[r.aStart..r.aEnd] + all[..r.bEnd]
  }

  function Room(r: Regions, size: nat): int {
    if r.bInuse then r.aStart - r.bEnd else size - r.aEnd
  }

  /** Switching region B on changes neither order nor contents. */
  lemma SwitchedKeeps(all: seq<byte>, r: Regions)
    requires Shaped(r, |all|)
    ensures Shaped(Switched(r, |all|), |all|) && QueueOf(all, Switched(r, |all|)) == QueueOf(all, r)
    ensures Room(r, |all|) <= Room(Switched(r, |all|), |all|)
  {
  }

  /** With region B off, no more room lies before region A than behind it. */
  predicate Balanced(r: Regions, size: nat) {
    !r.bInuse ==> r.aStart <= size - r.aEnd
  }

  /** The switch gives the larger of the two gaps, and afterwards the regions are balanced. */
  lemma SwitchedRoom(r: Regions, size: nat)
    requires !r.bInuse ==> r.bEnd == 0
    ensures Balanced(Switched(r, size), size)
    ensures Room(Switched(r, size), size) ==
            if r.bInuse || size - r.aEnd < r.aStart then r.aStart - r.bEnd else size - r.aEnd
  {
  }

  lemma GrownBalanced(r: Regions, n: nat, size: nat)
    requires Shaped(r, size)
    ensures Balanced(Grown(r, n, size), size)
  {
  }

  lemma ShrunkBalanced(r: Regions, n: nat, size: nat)
    requires Shaped(r, size)
    ensures Balanced(Shrunk(r, n, size), size)
  {
  }

  /** A full block of six, polled for four: the four bytes before region A are free again. */
  lemma SwitchGivesRoom()
    ensures Room(Shrunk(Grown(Regions(0, 0, 0, false), 6, 6), 4, 6), 6) == 4
  {
  }

  /** Bytes written behind the region in use are added to the queue. */
  lemma GrownQueue(all: seq<byte>, r: Regions, bytes: seq<byte>, after: seq<byte>)
    requires Shaped(r, |all|) && |bytes| <= Room(r, |all|)
    requires var at := if r.bInuse then r.bEnd else r.aEnd; after == all[..at] + bytes + all[at + |bytes|..]
    ensures var g := Grown(r, |bytes|, |all|);
      |after| == |all| && Shaped(g, |all|) && QueueOf(after, g) == QueueOf(all, r) + bytes
  {
    var at := if r.bInuse then r.bEnd else r.aEnd;
    var g := if r.bInuse then r.(bEnd := r.bEnd + |bytes|) else r.(aEnd := r.aEnd + |bytes|);
    if r.bInuse {
      assert after[..g.bEnd] == all[..r.bEnd] + bytes;
      assert after[r.aStart..r.aEnd] == all[r.aStart..r.aEnd];
    } else {
      assert after[r.aStart..g.aEnd] == all[r.aStart..r.aEnd] + bytes;
    }
    SwitchedKeeps(after, g);
  }

  /** Taking no more than region A holds takes the front of the queue. */
  lemma ShrunkQueue(all: seq<byte>, r: Regions, n: nat)
    requires Shaped(r, |all|) && |all| < WORD && r.aStart < r.aEnd && n <= r.aEnd - r.aStart
    ensures Shaped(Shrunk(r, n, |all|), |all|)
    ensures QueueOf(all, r) == all[r.aStart..r.aStart + n] + QueueOf(all, Shrunk(r, n, |all|))
  {
    var s := if r.aStart + n < r.aEnd then r.(aStart := r.aStart + n)
             else if r.bInuse then Regions(0, r.bEnd, 0, false)
             else r.(aStart := 0, aEnd := 0);
    assert Wrap(r.aStart + n) == r.aStart + n;
    assert all[r.aStart..r.aEnd] == all[r.aStart..r.aStart + n] + all[r.aStart + n..r.aEnd];
    assert QueueOf(all, s) == all[r.aStart + n..r.aEnd] + all[..r.bEnd];
    SwitchedKeeps(all, s);
  }

  /** Taking more than region A holds leaves the regions out of order, unless the start wraps around. */
  lemma ShrunkTooFar(r: Regions, n: u32, size: nat)
    requires Shaped(r, size) && size < WORD && r.aEnd - r.aStart < n && r.aStart + n < WORD
    ensures !Shaped(Shrunk(r, n, size), size)
  {
  }

  /** Four bytes in a block of ten, polled for six: the poll is not refused, and region A starts behind its end. */
  lemma PollBeyondRegion()
    ensures var r := Grown(Regions(0, 0, 0, false), 4, 10);
      Wrap(r.aStart + 6) <= 10 && !Shaped(Shrunk(r, 6, 10), 10)
  {
  }

  class Buffer {
    const data: array<byte>
    var aStart: int
    var aEnd: int
    var bEnd: int
    var bInuse: bool
    /** Everything ever offered and everything ever polled, in order. */
    ghost var offered: seq<byte>
    ghost var polled: seq<byte>

    ghost function R(): Regions
      reads this
    {
      Regions(aStart, aEnd, bEnd, bInuse)
    }

    ghost predicate Ordered()
      reads this
    {
      Shaped(R(), data.Length) && data.Length < WORD
    }

    ghost function Queue(): seq<byte>
      requires Ordered()
      reads this, data
    {
      QueueOf(data[..], R())
    }

    /** What was polled and what is queued make up what was offered, and region B is on where it gives more room. */
    ghost predicate Valid()
      reads this, data
    {
      Ordered() && Balanced(R(), data.Length) && offered == polled + Queue()
    }

    constructor (size: u32)
      ensures Valid() && fresh(data) && data.Length == size && R() == Regions(0, 0, 0, false)
      ensures Queue() == [] && offered == [] && polled == []
    {
      data := new byte[size];
      aStart, aEnd, bEnd, bInuse := 0, 0, 0, false;
      offered, polled := [], [];
    }

    /** The room of the region in use, as an `int`. */
    function Unused(): (n: int)
      requires Ordered()
      reads this
      ensures n <= data.Length - Used()
      ensures data.Length <= INT_MAX ==> 0 <= n
    {
      AsInt(Room(Regions(aStart, aEnd, bEnd, bInuse), data.Length))
    }

    function Used(): (n: int)
      requires Ordered()
      reads this, data
      ensures n == |Queue()|
    {
      (aEnd - aStart) + bEnd
    }

    predicate IsEmpty()
      requires Ordered()
      reads this, data
      ensures IsEmpty() <==> Queue() == []
    {
      aStart == aEnd
    }

    method CheckForSwitchToB()
      modifies this`bInuse
      ensures R() == Switched(old(R()), data.Length)
    {
      if data.Length - aEnd < aStart - bEnd { bInuse := true; }
    }

    method Copy(at: nat, bytes: seq<byte>)
      requires at + |bytes| <= data.Length
      modifies data
      ensures data[..] == old(data[..])[..at] + bytes + old(data[..])[at + |bytes|..]
    {
      forall i | 0 <= i < |bytes| { data[at + i] := bytes[i]; }
    }

    /** Appends the bytes to the region in use if that has room for all of them, and otherwise does nothing. With
        region B off that is so exactly if they fit into the larger of the two gaps. */
    method Offer(bytes: seq<byte>) returns (n: nat)
      requires Valid()
      modifies this, data
      ensures Valid() && polled == old(polled)
      ensures n == if |bytes| <= old(Unused()) then |bytes| else 0
      ensures data.Length <= INT_MAX && !old(bInuse) ==>
        n == if |bytes| <= old(aStart) || |bytes| <= data.Length - old(aEnd) then |bytes| else 0
      ensures data.Length <= INT_MAX && old(bInuse) ==>
        n == if |bytes| <= old(aStart) - old(bEnd) then |bytes| else 0
      ensures |bytes| <= old(Unused()) ==>
        && Queue() == old(Queue()) + bytes && offered == old(offered) + bytes
        && R() == Grown(old(R()), n, data.Length)
      ensures |bytes| > old(Unused()) ==> Queue() == old(Queue()) && offered == old(offered) && R() == old(R())
    {
      if Unused() < |bytes| { return 0; }
      ghost var all, r := data[..], R();
      Append(bytes);
      GrownQueue(all, r, bytes, data[..]);
      GrownBalanced(r, |bytes|, data.Length);
      hide QueueOf, Shaped, Grown, Room;
      assert polled + (QueueOf(all, r) + bytes) == (polled + QueueOf(all, r)) + bytes;
      offered := offered + bytes;
      return |bytes|;
    }

    method Append(bytes: seq<byte>)
      requires Ordered() && |bytes| <= Room(R(), data.Length)
      modifies this`aEnd, this`bEnd, this`bInuse, data
      ensures R() == Grown(old(R()), |bytes|, data.Length)
      ensures var at := old(if bInuse then bEnd else aEnd);
        data[..] == old(data[..])[..at] + bytes + old(data[..])[at + |bytes|..]
    {
      if bInuse {
        Copy(bEnd, bytes);
        bEnd := bEnd + |bytes|;
      } else {
        Copy(aEnd, bytes);
        aEnd := aEnd + |bytes|;
      }
      CheckForSwitchToB();
    }

    /** Moves past bytes of region A, and on to region B when that was all of them. */
    method Advance(size: u32)
      modifies this`aStart, this`aEnd, this`bEnd, this`bInuse
      ensures R() == Shrunk(old(R()), size, data.Length)
    {
      aStart := Wrap(aStart + size);
      if aStart == aEnd {
        if bInuse {
          aStart, aEnd, bEnd, bInuse := 0, bEnd, 0, false;
        } else {
          aStart, aEnd := 0, 0;
        }
      }
      CheckForSwitchToB();
    }

    /** The bytes that a poll hands out; what lies beyond the block is not modelled. */
    ghost function HandedOut(from: nat, size: nat): (bytes: seq<byte>)
      reads data
      ensures |bytes| == size
      ensures from + size <= data.Length ==> bytes == data[from..from + size]
    {
      seq(size, i requires 0 <= i reads data => if from + i < data.Length then data[from + i] else 0)
    }

    /**
     * Takes bytes from the front; `from` is where they lie in the block. The buffer stays a queue, and what is
     * handed out is its front, if and only if no more is asked for than region A holds: a poll that reaches
     * beyond region A is not refused unless it also reaches beyond the block without wrapping around.
     */
    method Poll(size: u32) returns (from: nat, found: bool)
      requires Valid()
      modifies this
      ensures found <==> old(Queue() != [] && Wrap(aStart + size) <= data.Length)
      ensures !found ==> Valid() && R() == old(R()) && Queue() == old(Queue()) && polled == old(polled)
      ensures found ==> from == old(aStart) && polled == old(polled) + HandedOut(from, size)
      ensures found ==> R() == Shrunk(old(R()), size, data.Length)
      ensures Valid() <==> !found || size <= old(aEnd - aStart)
      ensures found && size <= old(aEnd - aStart) ==>
        size <= |old(Queue())| && HandedOut(from, size) == old(Queue())[..size] && Queue() == old(Queue())[size..]
      ensures offered == old(offered)
    {
      if IsEmpty() { return 0, false; }
      if data.Length < Wrap(aStart + size) { return 0, false; }
      ghost var all, r := data[..], R();
      from, found := aStart, true;
      Advance(size);
      polled := polled + HandedOut(from, size);
      ShrunkBalanced(r, size, data.Length);
      PollOutcome(all, r, size, old(polled), HandedOut(from, size));
    }
  }

  /** What a poll that was not refused does to the order of the regions and to the queue. */
  lemma PollOutcome(all: seq<byte>, r: Regions, n: u32, polled: seq<byte>, handed: seq<byte>)
    requires Shaped(r, |all|) && |all| < WORD && r.aStart < r.aEnd && |handed| == n
    requires r.aStart + n <= |all| ==> handed == all[r.aStart..r.aStart + n]
    ensures var s, q := Shrunk(r, n, |all|), QueueOf(all, r);
      && (n <= r.aEnd - r.aStart ==>
        && Shaped(s, |all|) && n <= |q| && handed == q[..n] && QueueOf(all, s) == q[n..]
        && polled + q == polled + handed + QueueOf(all, s))
      && (r.aEnd - r.aStart < n && Shaped(s, |all|) ==>
        polled + q != polled + handed + QueueOf(all, s))
  {
    if n <= r.aEnd - r.aStart {
      ShrunkQueue(all, r, n);
      hide QueueOf, Shrunk, Shaped;
    } else if r.aStart + n < WORD {
      ShrunkTooFar(r, n, |all|);
    } else {
      assert Wrap(r.aStart + n) == r.aStart + n - WORD;
      assert Shaped(Shrunk(r, n, |all|), |all|) ==> |QueueOf(all, r)| < n;
    }
  }
}
