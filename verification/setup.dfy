/** initializeQueues on the bytes of the slave's fresh region, and the state it leaves to the peers. */
module Setup {
  import opened Bits
  import opened Ring
  import opened RingSystem
  import opened Memory
  import opened Layout
  import Queues

  /** A ring header as putRing stores it: cookie, flags 1 (no interrupts), both indices zero. */
  predicate HeaderOk(m: seq<u8>, off: nat) {
    && off + RING_HEADER_SIZE <= |m|
    && Un32(m, off) == COOKIE
    && Un16(m, off + RING_FLAGS_OFFSET) == 1
    && Un16(m, off + RING_HEAD_OFFSET) == 0
    && Un16(m, off + RING_TAIL_OFFSET) == 0
  }

  /** The descriptor that initializeQueues makes for the slot-th buffer. */
  function FreshDesc(bufferStart: nat, bufferSize: u32, slot: nat): Desc {
    Desc(0, 0, bufferSize, SlotOffset(bufferStart, bufferSize, slot), 0)
  }

  /** packetBufferOffset + uint32(slot) * PacketBufferSize, in 32 bits */
  function SlotOffset(bufferStart: nat, bufferSize: u32, slot: nat): u32 {
    U32(bufferStart + U32(slot * bufferSize))
  }

  /** The `size` descriptors from slot `first` on, counted from the ring at `off`. */
  ghost predicate DescsOk(m: seq<u8>, off: nat, first: nat, size: nat, bufferStart: nat, bufferSize: u32) {
    && DescPos(off, first + size) <= |m|
    && forall s :: first <= s < first + size ==> DescAt(m, DescPos(off, s)) == FreshDesc(bufferStart, bufferSize, s)
  }

  /** How many of the descriptors from slot `first` on lie wholly in a region of this length, if all of them
      start in it. */
  function Whole(length: nat, off: nat, first: nat, size: nat): nat {
    if size > 0 && DescPos(off, first + size) > length then size - 1 else size
  }

  method PutRing(data: array<u8>, off: nat)
    requires off <= data.Length
    modifies data
    ensures off + RING_HEADER_SIZE <= data.Length ==> HeaderOk(data[..], off)
    ensures OnlyChanged(old(data[..]), data[..], off, off + RING_HEADER_SIZE)
  {
    var rb := new u8[RING_HEADER_SIZE](_ => 0);
    Queues.PutUint32(rb, 0, COOKIE);
    Le32At(rb[..], 0, COOKIE);
    Queues.PutUint16(rb, RING_FLAGS_OFFSET, 1);
    Le16At(rb[..], RING_FLAGS_OFFSET, 1);
    assert HeaderOk(rb[..], 0);
    var n := Queues.CopyIn(data, off, data.Length - off, rb[..]);
    if off + RING_HEADER_SIZE <= data.Length {
      assert rb[..][..n] == rb[..];
      HeaderBytes(rb[..], data[..], off);
    }
  }

  /** The header, byte by byte. */
  lemma HeaderFormat(m: seq<u8>, off: nat)
    requires off + 128 <= |m|
    ensures HeaderOk(m, off) <==>
            && Number(m, off, 4) == 0x3E31F20 && Number(m, off + 4, 2) == 1
            && Number(m, off + 6, 2) == 0 && Number(m, off + 64, 2) == 0
  {
    hide Number, Un16, Un32;
    DoubleWordIs(m, off);
    WordIs(m, off + 4);
    WordIs(m, off + 6);
    WordIs(m, off + 64);
  }

  lemma HeaderBytes(rb: seq<u8>, m: seq<u8>, off: nat)
    requires |rb| == RING_HEADER_SIZE && off + RING_HEADER_SIZE <= |m| && m[off..off + RING_HEADER_SIZE] == rb
    requires HeaderOk(rb, 0)
    ensures HeaderOk(m, off)
  {
    var w := m[off..off + RING_HEADER_SIZE];
    assert w[0] == m[off] && w[1] == m[off + 1] && w[2] == m[off + 2] && w[3] == m[off + 3];
    assert w[4] == m[off + 4] && w[5] == m[off + 5] && w[6] == m[off + 6] && w[7] == m[off + 7];
    assert w[64] == m[off + 64] && w[65] == m[off + 65];
  }

  /** Stores the descriptor of the slot-th buffer where putDescBuf puts it, as far as the region goes. */
  method StoreFresh(data: array<u8>, desc: array<u8>, off: nat, slot: nat, bufferStart: nat, bufferSize: u32)
    requires desc.Length == DESC_SIZE && desc != data && DescPos(off, slot) <= data.Length
    requires DescAt(desc[..], 0).(offset := 0) == Desc(0, 0, bufferSize, 0, 0)
    modifies data, desc
    ensures DescAt(desc[..], 0) == FreshDesc(bufferStart, bufferSize, slot)
    ensures DescAt(desc[..], 0).(offset := 0) == Desc(0, 0, bufferSize, 0, 0)
    ensures var n := Min(DESC_SIZE, data.Length - DescPos(off, slot));
            Stored(old(data[..]), data[..], DescPos(off, slot), desc[..n])
  {
    hide SlotOffset;
    Queues.SetOffset(desc, SlotOffset(bufferStart, bufferSize, slot));
    ghost var db := desc[..];
    var n := Queues.CopyIn(data, DescPos(off, slot), data.Length - DescPos(off, slot), desc[..]);
    assert desc[..] == db && desc[..][..n] == desc[..n];
  }

  /** One turn of either outer loop of initializeQueues: the ring at `off`, whose buffers are counted
      from number `first` on (qid * size). It panics exactly if the last descriptor starts beyond
      the region. */
  method InitRing(data: array<u8>, desc: array<u8>, off: nat, first: nat, size: nat, bufferStart: nat, bufferSize: u32)
    returns (ok: bool)
    requires desc.Length == DESC_SIZE && desc != data && size > 0
    requires DescAt(desc[..], 0).(offset := 0) == Desc(0, 0, bufferSize, 0, 0)
    modifies data, desc
    ensures DescAt(desc[..], 0).(offset := 0) == Desc(0, 0, bufferSize, 0, 0)
    ensures ok <==> DescPos(off, first + size - 1) <= data.Length
    ensures ok ==> HeaderOk(data[..], off)
    ensures ok ==> DescsOk(data[..], off, first, Whole(data.Length, off, first, size), bufferStart, bufferSize)
    ensures forall k :: 0 <= k < off && k < data.Length ==> data[k] == old(data[k])
  {
    hide FreshDesc, HeaderOk, DescsOk, DescAt;
    if off > data.Length {
      return false;
    }
    PutRing(data, off);
    ghost var m := data[..];
    NoDescsYet(m, off, first, bufferStart, bufferSize);
    for j := 0 to size
      invariant DescAt(desc[..], 0).(offset := 0) == Desc(0, 0, bufferSize, 0, 0)
      invariant j > 0 ==> DescPos(off, first + j - 1) <= data.Length
      invariant DescPos(off, first) <= data.Length ==>
                  DescsOk(data[..], off, first, Whole(data.Length, off, first, j), bufferStart, bufferSize)
      invariant OnlyChanged(m, data[..], off + RING_HEADER_SIZE, data.Length)
    {
      if DescPos(off, first + j) > data.Length {
        return false;
      }
      ghost var before := data[..];
      StoreFresh(data, desc, off, first + j, bufferStart, bufferSize);
      if DescPos(off, first + j + 1) <= data.Length {
        assert desc[..DESC_SIZE] == desc[..];
        MoreDescs(before, data[..], off, first, j, bufferStart, bufferSize, desc[..]);
      } else {
        LowerDescsKept(before, data[..], off, first, j, bufferStart, bufferSize);
      }
    }
    HeaderKept(m, data[..], off);
    return true;
  }

  lemma NoDescsYet(m: seq<u8>, off: nat, first: nat, bufferStart: nat, bufferSize: u32)
    ensures DescPos(off, first) <= |m| ==> DescsOk(m, off, first, 0, bufferStart, bufferSize)
  {
  }

  lemma LowerDescsKept(m: seq<u8>, m': seq<u8>, off: nat, first: nat, j: nat, bufferStart: nat, bufferSize: u32)
    requires DescsOk(m, off, first, j, bufferStart, bufferSize)
    requires OnlyChanged(m, m', DescPos(off, first + j), |m|)
    ensures DescsOk(m', off, first, j, bufferStart, bufferSize)
  {
    forall s | first <= s < first + j
      ensures DescAt(m', DescPos(off, s)) == FreshDesc(bufferStart, bufferSize, s)
    {
      DescKept(m, m', DescPos(off, s), DescPos(off, first + j), |m|);
    }
  }

  lemma MoreDescs(m: seq<u8>, m': seq<u8>, off: nat, first: nat, j: nat, bufferStart: nat, bufferSize: u32, db: seq<u8>)
    requires DescsOk(m, off, first, j, bufferStart, bufferSize) && |db| == DESC_SIZE
    requires Stored(m, m', DescPos(off, first + j), db)
    requires DescAt(db, 0) == FreshDesc(bufferStart, bufferSize, first + j)
    ensures DescsOk(m', off, first, j + 1, bufferStart, bufferSize)
  {
    forall s | first <= s < first + j + 1
      ensures DescAt(m', DescPos(off, s)) == FreshDesc(bufferStart, bufferSize, s)
    {
      if s < first + j {
        DescKept(m, m', DescPos(off, s), DescPos(off, first + j), DescPos(off, first + j) + DESC_SIZE);
      } else {
        assert db[0..DESC_SIZE] == db;
        SameDesc(m', DescPos(off, first + j), db, 0);
      }
    }
  }

  lemma HeaderKept(m: seq<u8>, m': seq<u8>, off: nat)
    requires HeaderOk(m, off) && OnlyChanged(m, m', off + RING_HEADER_SIZE, |m|)
    ensures HeaderOk(m', off)
  {
  }

  /** Everything of ring number r that lies below position `end` is untouched. */
  lemma LowerRingsKept(m: seq<u8>, m': seq<u8>, end: nat, off: nat, size: nat, bufferStart: nat, bufferSize: u32)
    requires |m'| == |m| && (forall k :: 0 <= k < end && k < |m| ==> m'[k] == m[k])
    requires DescPos(off, size) <= end
    ensures HeaderOk(m, off) ==> HeaderOk(m', off)
    ensures DescsOk(m, off, 0, size, bufferStart, bufferSize) ==> DescsOk(m', off, 0, size, bufferStart, bufferSize)
  {
    if DescsOk(m, off, 0, size, bufferStart, bufferSize) {
      forall s: nat | s < size ensures DescAt(m', DescPos(off, s)) == DescAt(m, DescPos(off, s)) {
        assert m'[DescPos(off, s)..DescPos(off, s) + DESC_SIZE] == m[DescPos(off, s)..DescPos(off, s) + DESC_SIZE];
        SameDesc(m', DescPos(off, s), m, DescPos(off, s));
      }
    }
  }

  /** Ring number r of all. */
  function RingStart(log2: nat, r: nat): nat {
    r * RingBytes(log2)
  }

  lemma RingOrder(log2: nat, r: nat, n: nat)
    requires r < n
    ensures RingStart(log2, r) + RingBytes(log2) <= RingStart(log2, n)
  {
    MulMono(r + 1, n, RingBytes(log2));
    MulMono(r, r, RingBytes(log2));
  }

  /** initializeQueues on any region: it panics exactly if the last store for some ring starts beyond the
      region. Otherwise, if the region holds the rings, every ring has its header, and queue 0 of
      either direction its descriptors. */
  method InitializeQueues(data: array<u8>, pairs: u16, log2: nat, bufferSize: u32) returns (ok: bool)
    modifies data
    ensures ok <==> forall r :: 0 <= r < pairs + pairs ==> LastStore(pairs, log2, r) <= data.Length
    ensures ok && RingsEnd(pairs, log2) <= data.Length ==> RingsOk(data[..], pairs, log2, pairs + pairs, bufferSize)
  {
    hide RingsOk, DescAt, LastStore;
    var desc := new u8[DESC_SIZE](_ => 0);
    BlankDesc(desc[..]);
    Queues.SetFlags(desc, 0);
    Queues.SetLength(desc, bufferSize);
    NoRingsYet(data[..], pairs, log2, bufferSize);
    for qid := 0 to pairs
      invariant DescAt(desc[..], 0).(offset := 0) == Desc(0, 0, bufferSize, 0, 0)
      invariant forall r :: 0 <= r < qid ==> LastStore(pairs, log2, r) <= data.Length
      invariant RingsEnd(pairs, log2) <= data.Length ==> RingsOk(data[..], pairs, log2, qid, bufferSize)
    {
      ok := InitNumber(data, desc, pairs, log2, bufferSize, S2M, qid);
      if !ok {
        return;
      }
    }
    for qid := 0 to pairs
      invariant DescAt(desc[..], 0).(offset := 0) == Desc(0, 0, bufferSize, 0, 0)
      invariant forall r :: 0 <= r < pairs + qid ==> LastStore(pairs, log2, r) <= data.Length
      invariant RingsEnd(pairs, log2) <= data.Length ==> RingsOk(data[..], pairs, log2, pairs + qid, bufferSize)
    {
      ok := InitNumber(data, desc, pairs, log2, bufferSize, M2S, qid);
      if !ok {
        return;
      }
    }
    ok := true;
  }

  lemma BlankDesc(db: seq<u8>)
    requires |db| == DESC_SIZE && forall k :: 0 <= k < DESC_SIZE ==> db[k] == 0
    ensures DescAt(db, 0) == Desc(0, 0, 0, 0, 0)
  {
  }

  lemma NoRingsYet(m: seq<u8>, pairs: u16, log2: nat, bufferSize: u32)
    ensures RingsOk(m, pairs, log2, 0, bufferSize)
  {
  }

  method InitNumber(data: array<u8>, desc: array<u8>, pairs: u16, log2: nat, bufferSize: u32, dir: Direction, qid: nat)
    returns (ok: bool)
    requires desc.Length == DESC_SIZE && desc != data && qid < pairs
    requires DescAt(desc[..], 0).(offset := 0) == Desc(0, 0, bufferSize, 0, 0)
    requires RingsEnd(pairs, log2) <= data.Length ==>
               RingsOk(data[..], pairs, log2, RingNumber(pairs, dir, qid), bufferSize)
    modifies data, desc
    ensures DescAt(desc[..], 0).(offset := 0) == Desc(0, 0, bufferSize, 0, 0)
    ensures ok <==> LastStore(pairs, log2, RingNumber(pairs, dir, qid)) <= data.Length
    ensures ok && RingsEnd(pairs, log2) <= data.Length ==>
              RingsOk(data[..], pairs, log2, RingNumber(pairs, dir, qid) + 1, bufferSize)
  {
    hide RingsOk, HeaderOk, DescsOk, DescAt;
    ghost var r := RingNumber(pairs, dir, qid);
    RingOffsetIs(pairs, log2, dir, qid);
    LastStoreIs(pairs, log2, dir, qid);
    ghost var m := data[..];
    ok := InitRing(data, desc, RingOffset(pairs, log2, dir, qid), qid * Pow2(log2), Pow2(log2),
                   PacketBufferOffset(pairs, log2), bufferSize);
    if ok && RingsEnd(pairs, log2) <= data.Length {
      RingOrder(log2, r, pairs + pairs);
      NextRing(m, data[..], pairs, log2, r, bufferSize);
    }
  }

  /** Where the last descriptor stored for ring number r starts (queue q stores q rings further up). */
  function LastStore(pairs: nat, log2: nat, r: nat): nat {
    var qid := if r < pairs then r else r - pairs;
    DescPos(RingStart(log2, r), qid * Pow2(log2) + Pow2(log2) - 1)
  }

  lemma LastStoreIs(pairs: nat, log2: nat, dir: Direction, qid: nat)
    requires qid < pairs
    ensures LastStore(pairs, log2, RingNumber(pairs, dir, qid))
         == DescPos(RingOffset(pairs, log2, dir, qid), qid * Pow2(log2) + Pow2(log2) - 1)
  {
    RingOffsetIs(pairs, log2, dir, qid);
  }

  /** The first n rings are set up, as far as they will ever be: each has its header, but only queue 0
      of either direction its descriptors. */
  ghost predicate RingsOk(m: seq<u8>, pairs: u16, log2: nat, n: nat, bufferSize: u32) {
    && (forall r :: 0 <= r < n ==> HeaderOk(m, RingStart(log2, r)))
    && (n > 0 ==> DescsOk(m, RingStart(log2, 0), 0, Pow2(log2), PacketBufferOffset(pairs, log2), bufferSize))
    && (n > pairs ==> DescsOk(m, RingStart(log2, pairs), 0, Pow2(log2), PacketBufferOffset(pairs, log2), bufferSize))
  }

  lemma NextRing(m: seq<u8>, m': seq<u8>, pairs: u16, log2: nat, n: nat, bufferSize: u32)
    requires RingsOk(m, pairs, log2, n, bufferSize) && n < pairs + pairs
    requires |m'| == |m| && (forall k :: 0 <= k < RingStart(log2, n) && k < |m| ==> m'[k] == m[k])
    requires HeaderOk(m', RingStart(log2, n))
    requires n == 0 || n == pairs ==>
               DescsOk(m', RingStart(log2, n), 0, Pow2(log2), PacketBufferOffset(pairs, log2), bufferSize)
    ensures RingsOk(m', pairs, log2, n + 1, bufferSize)
  {
    hide HeaderOk, DescsOk, RingStart, PacketBufferOffset;
    var size, start := Pow2(log2), PacketBufferOffset(pairs, log2);
    forall r | 0 <= r < n + 1 ensures HeaderOk(m', RingStart(log2, r)) {
      if r < n {
        RingOrder(log2, r, n);
        LowerRingsKept(m, m', RingStart(log2, n), RingStart(log2, r), size, start, bufferSize);
      }
    }
    if n > 0 {
      RingOrder(log2, 0, n);
      LowerRingsKept(m, m', RingStart(log2, n), RingStart(log2, 0), size, start, bufferSize);
    }
    if n > pairs {
      RingOrder(log2, pairs, n);
      LowerRingsKept(m, m', RingStart(log2, n), RingStart(log2, pairs), size, start, bufferSize);
    }
  }

  /** What a ring of queue 0 looks like to the peers of RingSystem. */
  function QueueZero(dir: Direction, pairs: u16, log2: nat, bufferSize: u32, corrected: bool): Config {
    Config(dir, log2, bufferSize, PacketBufferOffset(pairs, log2), corrected)
  }

  /** If nothing wraps, initializeQueues leaves queue 0 of either direction in the initial state of
      RingSystem: an empty ring, every descriptor offering its own whole buffer. */
  lemma QueueZeroStartsEmpty(m: seq<u8>, dir: Direction, pairs: u16, log2: nat, bufferSize: u32, corrected: bool)
    requires pairs > 0 && bufferSize > 0
    requires NoOverflow(pairs, log2, bufferSize) && |m| == RegionSize(pairs, log2, bufferSize)
    requires RingsOk(m, pairs, log2, pairs + pairs, bufferSize)
    ensures var cfg, off := QueueZero(dir, pairs, log2, bufferSize, corrected), RingOffset(pairs, log2, dir, 0);
            && Fits(m, off, cfg) && InitialChan(cfg, View(m, off, cfg))
            && (dir.M2S? ==> bufferSize < 0x1_0000) == cfg.Ok()
            && (cfg.Ok() ==> MemOk(m, off, cfg) && Initial(cfg, Outset(cfg, View(m, off, cfg))))
  {
    var cfg, off := QueueZero(dir, pairs, log2, bufferSize, corrected), RingOffset(pairs, log2, dir, 0);
    QueueZeroFits(m, dir, pairs, log2, bufferSize, corrected);
    assert HeaderOk(m, RingStart(log2, RingNumber(pairs, dir, 0)));
    RingOffsetIs(pairs, log2, dir, 0);
    assert off == RingStart(log2, RingNumber(pairs, dir, 0));
    assert DescsOk(m, off, 0, cfg.Size(), cfg.base, bufferSize);
    FreshIsInitial(m, off, cfg);
  }

  /** A ring in this state, and both its peers idle with nothing done. */
  function Outset(cfg: Config, c: Chan): Sys {
    Sys(c, WIdle(0), Reader(0, RIdle([])), History([], [0], [], [], if cfg.dir.S2M? then cfg.Size() else 0, 0))
  }

  /** From nothing to the rings: the slave's region, zeroed, after initializeQueues. If nothing wraps, it
      panics exactly unless 8 * ((pairs - 1) * size - 1) <= pairs * bufferSize * size, and otherwise
      queue 0 of either direction starts as RingSystem does. */
  method FreshRegion(pairs: u16, log2: nat, bufferSize: u32) returns (data: array<u8>, ok: bool)
    requires pairs > 0 && bufferSize > 0 && NoOverflow(pairs, log2, bufferSize)
    ensures fresh(data) && data.Length == RegionSize(pairs, log2, bufferSize)
    ensures ok <==> 8 * ((pairs - 1) * Pow2(log2) - 1) <= (bufferSize * Pow2(log2)) * pairs
    ensures ok ==> forall dir: Direction, corrected: bool ::
              var cfg, off := QueueZero(dir, pairs, log2, bufferSize, corrected), RingOffset(pairs, log2, dir, 0);
              && Fits(data[..], off, cfg) && InitialChan(cfg, View(data[..], off, cfg))
              && (cfg.Ok() ==> Initial(cfg, Outset(cfg, View(data[..], off, cfg))))
  {
    hide RegionSize, LastStore, RingsOk, Fits, InitialChan, View, Initial, Outset, QueueZero, RingOffset;
    data := new u8[RegionSize(pairs, log2, bufferSize)](_ => 0);
    ok := InitializeQueues(data, pairs, log2, bufferSize);
    RegionIsRingsAndBuffers(pairs, log2, bufferSize);
    MulMono(0, bufferSize * Pow2(log2), pairs + pairs);
    StoresEndInside(pairs, log2, bufferSize);
    if ok {
      forall dir: Direction, corrected: bool
        ensures var cfg, off := QueueZero(dir, pairs, log2, bufferSize, corrected), RingOffset(pairs, log2, dir, 0);
                && Fits(data[..], off, cfg) && InitialChan(cfg, View(data[..], off, cfg))
                && (cfg.Ok() ==> Initial(cfg, Outset(cfg, View(data[..], off, cfg))))
      {
        QueueZeroStartsEmpty(data[..], dir, pairs, log2, bufferSize, corrected);
      }
    }
  }

  /** When no store of initializeQueues starts beyond the region, and when none even reaches beyond it. */
  lemma StoresEndInside(pairs: u16, log2: nat, bufferSize: u32)
    requires pairs > 0 && bufferSize > 0 && NoOverflow(pairs, log2, bufferSize)
    ensures (forall r :: 0 <= r < pairs + pairs ==> LastStore(pairs, log2, r) <= RegionSize(pairs, log2, bufferSize))
       <==> 8 * ((pairs - 1) * Pow2(log2) - 1) <= (bufferSize * Pow2(log2)) * pairs
    ensures (forall r :: 0 <= r < pairs + pairs ==>
              LastStore(pairs, log2, r) + DESC_SIZE <= RegionSize(pairs, log2, bufferSize))
       <==> 8 * (pairs - 1) <= bufferSize * pairs
  {
    hide RegionSize, NoOverflow, LastStore, RingsEnd, BufferBytes, Pow2;
    var last, X, Y := pairs + pairs - 1, (pairs - 1) * Pow2(log2), (bufferSize * Pow2(log2)) * pairs;
    RegionIsRingsAndBuffers(pairs, log2, bufferSize);
    LastStoreOfAll(pairs, log2, bufferSize);
    forall r | 0 <= r < pairs + pairs ensures LastStore(pairs, log2, r) <= LastStore(pairs, log2, last) {
      LaterStoresEndHigher(pairs, log2, r);
    }
    CancelFactor(8 * (pairs - 1), bufferSize * pairs, Pow2(log2));
    MulAssoc(8, pairs - 1, Pow2(log2));
    SwapFactors(bufferSize, pairs, Pow2(log2));
  }

  lemma SwapFactors(a: nat, b: nat, c: nat)
    ensures (a * b) * c == (a * c) * b
  {
    MulAssoc(a, b, c);
    MulAssoc(a, c, b);
    MulSwap(b, c);
  }

  lemma LastStoreOfAll(pairs: u16, log2: nat, bufferSize: u32)
    requires pairs > 0
    ensures LastStore(pairs, log2, pairs + pairs - 1) + DESC_SIZE
         == RingsEnd(pairs, log2) + 16 * ((pairs - 1) * Pow2(log2))
    ensures BufferBytes(pairs, log2, bufferSize) == 2 * ((bufferSize * Pow2(log2)) * pairs)
  {
    hide Pow2;
    MulMono(pairs + pairs - 1, pairs + pairs, RingBytes(log2));
    MulMono(pairs - 1, pairs, Pow2(log2));
    Twice(bufferSize * Pow2(log2), pairs);
  }

  lemma Twice(x: nat, y: nat)
    ensures x * (y + y) == 2 * (x * y)
  {
  }

  lemma LaterStoresEndHigher(pairs: u16, log2: nat, r: nat)
    requires r < pairs + pairs
    ensures LastStore(pairs, log2, r) <= LastStore(pairs, log2, pairs + pairs - 1)
  {
    var qid := if r < pairs then r else r - pairs;
    MulMono(r, pairs + pairs - 1, RingBytes(log2));
    MulMono(qid, pairs - 1, Pow2(log2));
  }

  lemma CancelFactor(a: int, b: int, p: nat)
    requires p > 0
    ensures a * p <= b * p <==> a <= b
  {
    if a < b {
      MulAtLeast(b - a, p);
      assert b * p == a * p + (b - a) * p;
    } else if b < a {
      MulAtLeast(a - b, p);
      assert a * p == b * p + (a - b) * p;
    }
  }

  lemma FreshIsInitial(m: seq<u8>, off: nat, cfg: Config)
    requires cfg.bufferSize < 0x1_0000_0000 && cfg.BufferOffset(cfg.Size()) < 0x1_0000_0000
    requires Fits(m, off, cfg) && HeaderOk(m, off)
    requires DescsOk(m, off, 0, cfg.Size(), cfg.base, cfg.bufferSize)
    ensures InitialChan(cfg, View(m, off, cfg))
  {
    var c := View(m, off, cfg);
    forall s: nat | s < cfg.Size()
      ensures DescOk(cfg, s, c.descs[s]) && c.descs[s].flags == 0 && c.descs[s].length == cfg.bufferSize
    {
      assert DescAt(m, DescPos(off, s)) == FreshDesc(cfg.base, cfg.bufferSize, s);
      FreshOffset(cfg, s);
    }
  }

  lemma FreshOffset(cfg: Config, s: nat)
    requires cfg.bufferSize < 0x1_0000_0000 && cfg.BufferOffset(cfg.Size()) < 0x1_0000_0000 && s < cfg.Size()
    ensures FreshDesc(cfg.base, cfg.bufferSize, s).offset == cfg.BufferOffset(s)
  {
    BufferOrder(cfg, s, cfg.Size());
    AddTruncated(cfg.base, s * cfg.bufferSize);
  }

  lemma AddTruncated(a: int, x: int)
    requires 0 <= a && 0 <= x && a + x < 0x1_0000_0000
    ensures U32(a + U32(x)) == a + x
  {
  }

  lemma QueueZeroFits(m: seq<u8>, dir: Direction, pairs: u16, log2: nat, bufferSize: u32, corrected: bool)
    requires pairs > 0 && bufferSize > 0
    requires NoOverflow(pairs, log2, bufferSize) && |m| == RegionSize(pairs, log2, bufferSize)
    ensures var cfg, off := QueueZero(dir, pairs, log2, bufferSize, corrected), RingOffset(pairs, log2, dir, 0);
            && Fits(m, off, cfg) && cfg.BufferOffset(cfg.Size()) < 0x1_0000_0000
            && (dir.M2S? ==> bufferSize < 0x1_0000) == cfg.Ok()
  {
    BuffersStartAfterRings(pairs, log2);
    RegionIsRingsAndBuffers(pairs, log2, bufferSize);
    TwoRingsFit(pairs, RingBytes(log2));
    if log2 > 15 {
      Pow2Sixteen();
      Pow2Monotone(16, log2);
      assert false;
    }
    FirstBuffersFit(pairs, Pow2(log2), bufferSize);
    assert bufferSize < 0x1_0000_0000;
    MulSwap(Pow2(log2), bufferSize);
  }

  lemma MulSwap(a: nat, b: nat)
    ensures a * b == b * a
  {
  }

  lemma TwoRingsFit(pairs: nat, b: nat)
    requires pairs > 0
    ensures pairs * b + b <= (pairs + pairs) * b && b <= (pairs + pairs) * b
  {
    MulMono(pairs + 1, pairs + pairs, b);
    MulMono(pairs, pairs, b);
    MulAtLeast(pairs + pairs, b);
  }

  lemma FirstBuffersFit(pairs: nat, p2: nat, bufferSize: nat)
    requires pairs > 0
    ensures bufferSize * p2 <= (bufferSize * p2) * (pairs + pairs)
  {
    var x := bufferSize * p2;
    MulAtLeast(pairs + pairs, x);
    MulSwap(x, pairs + pairs);
  }
}
