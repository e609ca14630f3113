/** Where the slave puts rings and packet buffers in its one memory region. */
module Layout {
  import opened Bits
  import opened Ring
  import opened Memory

  /** Bytes of a ring with 2^log2 slots. */
  function RingBytes(log2: nat): (n: nat)
    ensures n >= 144
  {
    RING_HEADER_SIZE + DESC_SIZE * Pow2(log2)
  }

  /** The slave's newRing: S2M rings first, then M2S rings. */
  function RingOffset(pairs: nat, log2: nat, dir: Direction, index: nat): nat {
    (if dir.S2M? then 0 else pairs * RingBytes(log2)) + index * RingBytes(log2)
  }

  /** addRegion's packetBufferOffset, every operation of which is done in 16 bits. */
  function PacketBufferOffset(pairs: u16, log2: nat): u32 {
    U16(U16(pairs + pairs) * U16(RING_HEADER_SIZE + U16(DESC_SIZE * U16(Pow2(log2)))))
  }

  /** addRegion's region size, in 32 bits but for the 16-bit sum of the pairs. */
  function RegionSize(pairs: u16, log2: nat, bufferSize: u32): u64 {
    U32(PacketBufferOffset(pairs, log2) + U32(U32(bufferSize * U32(Pow2(log2))) * U16(pairs + pairs)))
  }

  /** The place of a ring among all: S2M rings are 0 .. pairs-1, M2S rings pairs .. 2*pairs-1. */
  function RingNumber(pairs: nat, dir: Direction, index: nat): nat {
    (if dir.S2M? then 0 else pairs) + index
  }

  lemma RingOffsetIs(pairs: nat, log2: nat, dir: Direction, index: nat)
    ensures RingOffset(pairs, log2, dir, index) == RingNumber(pairs, dir, index) * RingBytes(log2)
  {
  }

  /** A ring takes 128 bytes and 16 for each slot. The S2M rings come first, then the M2S rings, each kind in
      the order of the queues. */
  lemma RingPlaces(pairs: nat, log2: nat, index: nat)
    ensures RingOffset(pairs, log2, S2M, index) == index * (128 + 16 * Pow2(log2))
    ensures RingOffset(pairs, log2, M2S, index) == (pairs + index) * (128 + 16 * Pow2(log2))
  {
    RingOffsetIs(pairs, log2, S2M, index);
    RingOffsetIs(pairs, log2, M2S, index);
  }

  /** The rings tile [0, RingsEnd) exactly: a byte position is below that end if and only
      if it belongs to a ring, and then to one ring only. */
  lemma RingsTile(pairs: nat, log2: nat, p: nat)
    ensures p < RingsEnd(pairs, log2) <==>
            exists d, i :: 0 <= i < pairs && InRing(pairs, log2, d, i, p)
    ensures forall d, i, d', i' :: 0 <= i < pairs && 0 <= i' < pairs ==>
              InRing(pairs, log2, d, i, p) ==> InRing(pairs, log2, d', i', p) ==> d == d' && i == i'
  {
    hide RingBytes, InRing;
    var b, n := RingBytes(log2), p / RingBytes(log2);
    DivBelow(p, b, pairs + pairs);
    forall d: Direction, i: nat ensures InRing(pairs, log2, d, i, p) <==> RingNumber(pairs, d, i) == n {
      InRingIsNumber(pairs, log2, d, i, p);
    }
    if n < 2 * pairs {
      var d := if n < pairs then S2M else M2S;
      var i := if n < pairs then n else n - pairs;
      assert RingNumber(pairs, d, i) == n;
      assert InRing(pairs, log2, d, i, p);
    }
  }

  lemma InRingIsNumber(pairs: nat, log2: nat, d: Direction, i: nat, p: nat)
    ensures InRing(pairs, log2, d, i, p) <==> RingNumber(pairs, d, i) == p / RingBytes(log2)
  {
    var b, r := RingBytes(log2), RingNumber(pairs, d, i);
    RingOffsetIs(pairs, log2, d, i);
    if r * b <= p < r * b + b {
      ModUnique(p, b, r, p - r * b);
    }
    assert p == (p / b) * b + p % b;
  }

  lemma DivBelow(p: nat, b: nat, n: nat)
    requires b > 0
    ensures p < n * b <==> p / b < n
  {
    var q := p / b;
    assert p == q * b + p % b;
    if q < n { MulMono(q + 1, n, b); MulMono(q, q, b); } else { MulMono(n, q, b); }
  }

  predicate InRing(pairs: nat, log2: nat, d: Direction, i: nat, p: nat) {
    RingOffset(pairs, log2, d, i) <= p < RingOffset(pairs, log2, d, i) + RingBytes(log2)
  }

  lemma U16Product(a: int, b: int)
    ensures U16(U16(a) * U16(b)) == U16(a * b)
  {
    var M := 0x1_0000;
    var i, j := a / M, b / M;
    assert a == U16(a) + i * M && b == U16(b) + j * M;
    assert a * b == U16(a) * U16(b) + (i * b + U16(a) * j) * M by {
      assert a * b == U16(a) * b + i * M * b;
      assert U16(a) * b == U16(a) * U16(b) + U16(a) * (j * M);
    }
    ShiftMod(U16(a) * U16(b), i * b + U16(a) * j, M);
  }

  /** The buffers start where the rings end exactly when that end is below 2^16; otherwise they start
      inside the rings. */
  lemma BuffersStartAfterRings(pairs: u16, log2: nat)
    ensures PacketBufferOffset(pairs, log2) == RingsEnd(pairs, log2) <==> RingsEnd(pairs, log2) < 0x1_0000
    ensures RingsEnd(pairs, log2) >= 0x1_0000 ==> PacketBufferOffset(pairs, log2) < RingsEnd(pairs, log2)
    ensures PacketBufferOffset(pairs, log2) == RingsEnd(pairs, log2) % 0x1_0000
  {
    RingBytes16(Pow2(log2));
    U16Product(pairs + pairs, RingBytes(log2));
  }

  /** The end of the last ring. */
  function RingsEnd(pairs: nat, log2: nat): nat {
    (pairs + pairs) * RingBytes(log2)
  }

  lemma RingBytes16(p2: nat)
    ensures U16(RING_HEADER_SIZE + U16(DESC_SIZE * U16(p2))) == U16(RING_HEADER_SIZE + DESC_SIZE * p2)
  {
  }

  /** With one queue pair the bound is log2 <= 10, the default ring size. */
  lemma OnePairBound(log2: nat)
    ensures PacketBufferOffset(1, log2) == RingsEnd(1, log2) <==> log2 <= 10
  {
    BuffersStartAfterRings(1, log2);
    assert Pow2(5) == 32;
    Pow2Sum(5, 5);
    if log2 <= 10 {
      Pow2Monotone(log2, 10);
    } else {
      Pow2Monotone(11, log2);
      assert Pow2(11) == 2 * Pow2(10);
    }
  }

  /** All the buffers of all the rings. */
  function BufferBytes(pairs: nat, log2: nat, bufferSize: nat): nat {
    (bufferSize * Pow2(log2)) * (pairs + pairs)
  }

  /** Nothing wraps: rings end below 2^16 and the region below 2^32. */
  predicate NoOverflow(pairs: u16, log2: nat, bufferSize: u32) {
    && RingsEnd(pairs, log2) < 0x1_0000
    && RingsEnd(pairs, log2) + BufferBytes(pairs, log2, bufferSize) < 0x1_0000_0000
  }

  /** Without overflow the region is exactly the rings followed by one buffer per slot of each ring. */
  lemma RegionIsRingsAndBuffers(pairs: u16, log2: nat, bufferSize: u32)
    requires NoOverflow(pairs, log2, bufferSize) && bufferSize > 0
    ensures RegionSize(pairs, log2, bufferSize) == RingsEnd(pairs, log2) + BufferBytes(pairs, log2, bufferSize)
  {
    BuffersStartAfterRings(pairs, log2);
    if pairs > 0 {
      var p2, b := Pow2(log2), RingBytes(log2);
      AtLeastFactors(pairs + pairs, b);
      AtLeastFactors(bufferSize, p2);
      AtLeastFactors(bufferSize * p2, pairs + pairs);
      NoTruncation(PacketBufferOffset(pairs, log2), bufferSize, p2, pairs + pairs);
    }
  }

  /** In any case, overflow or not, the size is the sum of the 16-bit end of the rings and one buffer for each
      slot of as many rings as the 16-bit double of the pairs says, in 32 bits. */
  lemma RegionSizeIs(pairs: u16, log2: nat, bufferSize: u32)
    ensures RegionSize(pairs, log2, bufferSize)
         == (((pairs + pairs) * (128 + 16 * Pow2(log2))) % 0x1_0000
             + (bufferSize * Pow2(log2)) * ((pairs + pairs) % 0x1_0000)) % 0x1_0000_0000
  {
    BuffersStartAfterRings(pairs, log2);
    U32Product(bufferSize, Pow2(log2), U16(pairs + pairs));
    AddDouble(PacketBufferOffset(pairs, log2), (bufferSize * Pow2(log2)) * U16(pairs + pairs));
  }

  lemma AddDouble(a: int, x: int)
    ensures U32(a + U32(x)) == U32(a + x)
  {
  }

  lemma U32Product(a: int, b: int, c: int)
    ensures U32(U32(a * U32(b)) * c) == U32((a * b) * c)
  {
    TruncatedFactor(a, b);
    TruncatedFactor(c, a * b);
    MulCommutes(U32(a * b), c);
    MulCommutes(a * b, c);
  }

  lemma MulCommutes(a: int, b: int)
    ensures a * b == b * a
  {
  }

  lemma TruncatedFactor(a: int, b: int)
    ensures U32(a * U32(b)) == U32(a * b)
  {
    var M := 0x1_0000_0000;
    assert b == U32(b) + (b / M) * M;
    assert a * b == a * U32(b) + (a * (b / M)) * M by {
      MulAssoc(a, b / M, M);
    }
    ShiftMod(a * U32(b), a * (b / M), M);
  }

  lemma NoTruncation(start: nat, bufferSize: nat, p2: nat, n: nat)
    requires p2 < 0x1_0000 && n < 0x1_0000 && bufferSize * p2 < 0x1_0000_0000
    requires start + (bufferSize * p2) * n < 0x1_0000_0000
    ensures U32(start + U32(U32(bufferSize * U32(p2)) * U16(n))) == start + (bufferSize * p2) * n
  {
    assert U32(p2) == p2 && U16(n) == n;
    assert U32(bufferSize * p2) == bufferSize * p2;
    MulMono(0, bufferSize * p2, n);
    assert U32((bufferSize * p2) * n) == (bufferSize * p2) * n;
  }

  lemma AtLeastFactors(a: nat, b: nat)
    requires a >= 1 && b >= 1
    ensures a * b >= a && a * b >= b
  {
    MulAtLeast(a, b);
    MulAtLeast(b, a);
  }

  /** Every packet buffer lies inside the region and above every ring. */
  lemma BuffersInside(pairs: u16, log2: nat, bufferSize: u32, s: nat)
    requires NoOverflow(pairs, log2, bufferSize) && bufferSize > 0 && s < (pairs + pairs) * Pow2(log2)
    ensures var off := PacketBufferOffset(pairs, log2) + s * bufferSize;
            RingsEnd(pairs, log2) <= off && off + bufferSize <= RegionSize(pairs, log2, bufferSize)
  {
    BuffersStartAfterRings(pairs, log2);
    RegionIsRingsAndBuffers(pairs, log2, bufferSize);
    BuffersBefore(s, pairs + pairs, Pow2(log2), bufferSize);
  }

  lemma BuffersBefore(s: nat, n: nat, p2: nat, bufferSize: nat)
    requires s < n * p2
    ensures 0 <= s * bufferSize && s * bufferSize + bufferSize <= (bufferSize * p2) * n
  {
    MulMono(s + 1, n * p2, bufferSize);
    MulMono(s, s, bufferSize);
    MulAssoc(bufferSize, p2, n);
    assert bufferSize * (p2 * n) == (n * p2) * bufferSize;
  }

  // ------------------------------------------------------------ where initializeQueues goes wrong

  /** The descriptor position that initializeQueues stores slot j of queue qid at: putDescBuf adds the
      ring's own offset to a slot number that already counts the earlier queues. */
  function StoredAt(pairs: nat, log2: nat, dir: Direction, qid: nat, j: nat): nat {
    DescPos(RingOffset(pairs, log2, dir, qid), qid * Pow2(log2) + j)
  }

  /** It is the position of slot j exactly for queue 0; for every other queue it lies beyond the ring. */
  lemma DescriptorsArePlacedRightForQueueZero(pairs: nat, log2: nat, dir: Direction, qid: nat, j: nat)
    requires j < Pow2(log2)
    ensures StoredAt(pairs, log2, dir, qid, j) == DescPos(RingOffset(pairs, log2, dir, qid), j) <==> qid == 0
    ensures qid > 0 ==> StoredAt(pairs, log2, dir, qid, j) >= RingOffset(pairs, log2, dir, qid) + RingBytes(log2)
  {
    if qid > 0 {
      MulAtLeast(qid, Pow2(log2));
    }
  }
}
