/** The two rings of a pair share their packet buffers: which slots, and what becomes of the packets. */
module Sharing {
  import opened Bits
  import opened Ring
  import opened RingSystem
  import opened RingInvariant
  import opened Fifo
  import opened Memory
  import opened Layout
  import opened Setup
  import opened Queues

  // ------------------------------------------------------------ which slots share a buffer

  predicate Overlap(a: nat, b: nat, n: nat) {
    a < b + n && b < a + n
  }

  /** The buffer that the s-th descriptor of queue 0 names. */
  function BufferOf(m: seq<u8>, pairs: u16, log2: nat, dir: Direction, s: nat): nat {
    var p := DescPos(RingOffset(pairs, log2, dir, 0), s);
    if p + DESC_SIZE <= |m| then DescAt(m, p).offset else 0
  }

  /** In the region that initializeQueues leaves, the S2M and the M2S ring of queue 0 are given the same
      buffers, slot by slot. Other slots, of either ring, have buffers apart from each other exactly if the
      last offset does not wrap in 32 bits. Rings have at most 2^14 slots; 2^16 would do. */
  lemma BuffersOverlapExactly(m: seq<u8>, pairs: u16, log2: nat, bufferSize: u32)
    requires pairs > 0 && bufferSize > 0 && log2 <= 16 && RingsOk(m, pairs, log2, pairs + pairs, bufferSize)
    ensures forall s :: 0 <= s < Pow2(log2) ==> BufferOf(m, pairs, log2, S2M, s) == BufferOf(m, pairs, log2, M2S, s)
    ensures (forall d, s, d', t :: 0 <= s < Pow2(log2) && 0 <= t < Pow2(log2) && s != t ==>
              !Overlap(BufferOf(m, pairs, log2, d, s), BufferOf(m, pairs, log2, d', t), bufferSize))
       <==> PacketBufferOffset(pairs, log2) + (Pow2(log2) - 1) * bufferSize < 0x1_0000_0000
  {
    hide PacketBufferOffset, SlotOffset, Overlap;
    var S, base := Pow2(log2), PacketBufferOffset(pairs, log2);
    forall d: Direction, s | 0 <= s < S ensures BufferOf(m, pairs, log2, d, s) == SlotOffset(base, bufferSize, s) {
      BufferIsSlotOffset(m, pairs, log2, bufferSize, d, s);
    }
    if base + (S - 1) * bufferSize < 0x1_0000_0000 {
      forall s, t | 0 <= s < S && 0 <= t < S && s != t
        ensures !Overlap(SlotOffset(base, bufferSize, s), SlotOffset(base, bufferSize, t), bufferSize)
      {
        SlotsApart(base, bufferSize, S, s, t);
      }
    } else {
      PacketBufferOffsetIsWord(pairs, log2);
      SizeAtMostWord(log2);
      var t := SomeSlotWraps(base, bufferSize, S);
      assert BufferOf(m, pairs, log2, S2M, t) == SlotOffset(base, bufferSize, t);
      assert BufferOf(m, pairs, log2, S2M, 0) == SlotOffset(base, bufferSize, 0);
    }
  }

  lemma BufferIsSlotOffset(m: seq<u8>, pairs: u16, log2: nat, bufferSize: u32, dir: Direction, s: nat)
    requires pairs > 0 && s < Pow2(log2) && RingsOk(m, pairs, log2, pairs + pairs, bufferSize)
    ensures BufferOf(m, pairs, log2, dir, s) == SlotOffset(PacketBufferOffset(pairs, log2), bufferSize, s)
  {
    var off := RingOffset(pairs, log2, dir, 0);
    RingOffsetIs(pairs, log2, dir, 0);
    assert DescsOk(m, off, 0, Pow2(log2), PacketBufferOffset(pairs, log2), bufferSize);
    assert DescAt(m, DescPos(off, s)) == FreshDesc(PacketBufferOffset(pairs, log2), bufferSize, s);
  }

  lemma PacketBufferOffsetIsWord(pairs: u16, log2: nat)
    ensures PacketBufferOffset(pairs, log2) < 0x1_0000
  {
  }

  lemma SizeAtMostWord(log2: nat)
    requires log2 <= 16
    ensures Pow2(log2) <= 0x1_0000
  {
    Pow2Sixteen();
    Pow2Monotone(log2, 16);
  }

  lemma SlotsApart(base: nat, B: u32, S: nat, s: nat, t: nat)
    requires s < S && t < S && s != t && B > 0 && base + (S - 1) * B < 0x1_0000_0000
    ensures !Overlap(SlotOffset(base, B, s), SlotOffset(base, B, t), B)
  {
    MulMono(s, S - 1, B);
    MulMono(t, S - 1, B);
    MulMono(0, s, B);
    MulMono(0, t, B);
    AddTruncated(base, s * B);
    AddTruncated(base, t * B);
    if s < t { MulMono(s + 1, t, B); } else { MulMono(t + 1, s, B); }
  }

  /** The first slot whose offset wraps is given part of the first slot's buffer. */
  lemma SomeSlotWraps(base: nat, B: u32, S: nat) returns (t: nat)
    requires base < 0x1_0000 && 0 < S <= 0x1_0000 && B > 0 && base + (S - 1) * B >= 0x1_0000_0000
    ensures 0 < t < S && Overlap(SlotOffset(base, B, t), SlotOffset(base, B, 0), B)
  {
    var room := 0x1_0000_0000 - base;
    t := (room - 1) / B + 1;
    var q, r := (room - 1) / B, (room - 1) % B;
    assert room - 1 == q * B + r;
    MulMono(q, q, B);
    assert t * B == q * B + B;
    if t >= S {
      MulMono(S - 1, q, B);
      assert false;
    }
    if B <= base {
      MulMono(S - 1, 0xFFFF, B);
      assert false;
    }
    Wraps(base, t * B);
  }

  lemma Wraps(base: nat, x: nat)
    requires 0x1_0000_0000 <= base + x < 0x2_0000_0000
    ensures U32(base + U32(x)) == base + x - 0x1_0000_0000
  {
  }

  // ------------------------------------------------------------ what a whole write call overwrites

  function FreeSlot(cfg: Config, w0: nat, j: nat): (s: nat)
    ensures s < cfg.Size()
  {
    cfg.At(w0 + j)
  }

  ghost predicate Whole(cfg: Config, bufs: seq<seq<u8>>) {
    |bufs| == cfg.Size() && forall t :: 0 <= t < cfg.Size() ==> |bufs[t]| == cfg.bufferSize
  }

  /** The buffers after the packet's first i chunks were copied to the first i free slots. */
  ghost function FilledTo(cfg: Config, bufs: seq<seq<u8>>, w0: nat, pkt: seq<u8>, i: nat): (r: seq<seq<u8>>)
    requires cfg.Ok() && Whole(cfg, bufs)
    ensures Whole(cfg, r)
  {
    if i == 0 then bufs else
      var prev, t := FilledTo(cfg, bufs, w0, pkt, i - 1), FreeSlot(cfg, w0, i - 1);
      prev[t := Overwrite(prev[t], CellOf(cfg, pkt, i - 1).bytes)]
  }

  /** How far a write with `free` slots at its entry has come. */
  ghost predicate FilledSoFar(cfg: Config, bufs: seq<seq<u8>>, s: Sys, free: nat)
    requires cfg.Ok() && Whole(cfg, bufs)
  {
    var w0, now := |s.h.log|, s.chan.bufs;
    match s.writer
    case WIdle(_) => false
    case WFetch(pkt, slot, nFree, _) =>
      var i := Ahead(slot, w0);
      i >= 0 && i + nFree == free && now == FilledTo(cfg, bufs, w0, pkt, i)
    case WCopy(pkt, slot, nFree, _, _, _) =>
      var i := Ahead(slot, w0);
      i >= 0 && i + nFree == free && now == FilledTo(cfg, bufs, w0, pkt, i)
    case WPut(pkt, slot, nFree, _, _) =>
      var i := Ahead(slot, w0);
      i >= 0 && i + nFree == free && now == FilledTo(cfg, bufs, w0, pkt, i + 1)
    case WPublish(pkt, _, _) =>
      var N := CellCount(|pkt|, cfg.bufferSize);
      N <= free && now == FilledTo(cfg, bufs, w0, pkt, N)
  }

  lemma CopyFillsNext(cfg: Config, bufs: seq<seq<u8>>, c: Chan, w: Writer, h: History)
    requires cfg.Ok() && ChanOk(cfg, c) && WriterOk(cfg, w) && w.WCopy? && WriterInv(cfg, c, w, h) && Whole(cfg, bufs)
    requires c.bufs == FilledTo(cfg, bufs, |h.log|, w.pkt, Ahead(w.slot, |h.log|))
    ensures WStep(cfg, c, w).0.bufs == FilledTo(cfg, bufs, |h.log|, w.pkt, Ahead(w.slot, |h.log|) + 1)
  {
    hide FilledTo, Whole, DescOk, CapacityOk, PutSoFar, Joined, Overwrite, Chunk;
    var i := Ahead(w.slot, |h.log|);
    LocalSlot(cfg, w.slot, |h.log|);
    FilledNext(cfg, bufs, |h.log|, w.pkt, i);
    assert CellOf(cfg, w.pkt, i).bytes == Chunk(cfg.corrected, w.pkt, w.n, w.cap);
  }

  lemma FilledNext(cfg: Config, bufs: seq<seq<u8>>, w0: nat, pkt: seq<u8>, i: nat)
    requires cfg.Ok() && Whole(cfg, bufs)
    ensures var prev, t := FilledTo(cfg, bufs, w0, pkt, i), FreeSlot(cfg, w0, i);
            FilledTo(cfg, bufs, w0, pkt, i + 1) == prev[t := Overwrite(prev[t], CellOf(cfg, pkt, i).bytes)]
  {
  }

  /** One step on: still so far, or, at the end, as far as the packet or the free slots went. */
  lemma WriterStepFills(cfg: Config, bufs: seq<seq<u8>>, s: Sys, free: nat)
    requires cfg.Ok() && ChanOk(cfg, s.chan) && WriterOk(cfg, s.writer) && WriterInv(cfg, s.chan, s.writer, s.h)
    requires Whole(cfg, bufs) && FilledSoFar(cfg, bufs, s, free)
    ensures var (c, w) := WStep(cfg, s.chan, s.writer);
            && (!w.WIdle? ==> FilledSoFar(cfg, bufs, s.(chan := c, writer := w), free) && InHand(w) == InHand(s.writer)
                              && !s.writer.WPublish?)
            && (w.WIdle? ==> var pkt := InHand(s.writer)[0];
                             c.bufs == FilledTo(cfg, bufs, |s.h.log|, pkt, Min(CellCount(|pkt|, cfg.bufferSize), free)))
  {
    hide FilledTo, ChanOk, Whole, DescOk, CapacityOk, PutSoFar, Joined, Payload;
    if s.writer.WCopy? {
      CopyFillsNext(cfg, bufs, s.chan, s.writer, s.h);
    } else if s.writer.WPut? {
      LastCell(cfg, s.writer.pkt, Ahead(s.writer.slot, |s.h.log|));
    }
  }

  lemma {:induction false} FinishWriteFills(cfg: Config, bufs: seq<seq<u8>>, s: Sys, free: nat)
    requires Inv(cfg, s) && Whole(cfg, bufs) && FilledSoFar(cfg, bufs, s, free)
    ensures var pkt := InHand(s.writer)[0];
            FinishWrite(cfg, s).chan.bufs
            == FilledTo(cfg, bufs, |s.h.log|, pkt, Min(CellCount(|pkt|, cfg.bufferSize), free))
    decreases WMeasure(s.writer)
  {
    hide HistoryOk, ReaderInv, WriterInv, WindowOk, IndicesOk, WStep, Filled, ChanOk;
    var s' := Next(cfg, s, WriterStep);
    NextKeeps(cfg, s, WriterStep);
    WriterStepFills(cfg, bufs, s, free);
    WriterStepDecreases(cfg, s.chan, s.writer);
    if !s'.writer.WIdle? {
      FinishWriteFills(cfg, bufs, s', free);
    }
  }

  /** A whole call of WritePacket, successful or given up, copies the first min(N, free) chunks of the packet
      to the buffers of as many free slots, and changes no other buffer byte. */
  lemma WriteFills(cfg: Config, s: Sys, pkt: seq<u8>)
    requires Inv(cfg, s) && s.writer.WIdle?
    ensures var n := Min(CellCount(|pkt|, cfg.bufferSize), Free(s.h));
            && Whole(cfg, s.chan.bufs)
            && WriterRun(cfg, s.chan, WStart(cfg, s.chan, pkt)).0.bufs == FilledTo(cfg, s.chan.bufs, |s.h.log|, pkt, n)
  {
    var s' := Next(cfg, s, SubmitPacket(pkt));
    LimitsOk(cfg, s);
    NextKeeps(cfg, s, SubmitPacket(pkt));
    CountFree(cfg, s.chan, s.reader.last, s.h, pkt);
    FinishWriteIsWriterRun(cfg, s');
    if !s'.writer.WIdle? {
      FinishWriteFills(cfg, s.chan.bufs, s', Free(s.h));
    }
  }

  lemma {:induction false} FilledElsewhere(cfg: Config, bufs: seq<seq<u8>>, w0: nat, pkt: seq<u8>, i: nat, t: nat)
    requires cfg.Ok() && Whole(cfg, bufs) && t < cfg.Size()
    requires forall j: nat :: j < i ==> FreeSlot(cfg, w0, j) != t
    ensures FilledTo(cfg, bufs, w0, pkt, i)[t] == bufs[t]
  {
    if i > 0 {
      FilledElsewhere(cfg, bufs, w0, pkt, i - 1, t);
    }
  }

  lemma {:induction false} FilledThere(cfg: Config, bufs: seq<seq<u8>>, w0: nat, pkt: seq<u8>, i: nat, j: nat)
    requires cfg.Ok() && Whole(cfg, bufs) && j < i <= cfg.Size()
    ensures var t := FreeSlot(cfg, w0, j);
            FilledTo(cfg, bufs, w0, pkt, i)[t] == Overwrite(bufs[t], CellOf(cfg, pkt, j).bytes)
  {
    if j < i - 1 {
      SlotsDiffer(cfg, w0 + j, w0 + (i - 1));
      FilledThere(cfg, bufs, w0, pkt, i - 1, j);
    } else {
      forall k: nat | k < j ensures FreeSlot(cfg, w0, k) != FreeSlot(cfg, w0, j) {
        SlotsDiffer(cfg, w0 + k, w0 + j);
      }
      FilledElsewhere(cfg, bufs, w0, pkt, j, FreeSlot(cfg, w0, j));
    }
  }

  // ------------------------------------------------------------ what that does to the other ring

  /** The other ring of the pair, after a call on this one left the shared buffers so. */
  function Beside(other: Chan, bufs: seq<seq<u8>>): Chan {
    other.(bufs := bufs)
  }

  /** The i-th slot that a write is about to use, and the j-th that a read has before it, as the published
      indices and the reader's own tell. */
  function NextFree(cfg: Config, c: Chan, i: nat): nat {
    cfg.At((if cfg.dir.M2S? then c.tail else c.head) + i)
  }

  function FreeCount(cfg: Config, c: Chan): u16 {
    if cfg.dir.M2S? then U16(c.head - c.tail) else U16(cfg.Size() - c.head + c.tail)
  }

  function NextUnread(cfg: Config, last: u16, j: nat): nat {
    cfg.At(last + j)
  }

  /** A write of len bytes on ring c is going to use a slot in which the other ring holds unread bytes. */
  predicate Endangers(cfg: Config, c: Chan, len: nat, other: Config, o: Chan, last: u16)
    requires cfg.bufferSize > 0 && |o.descs| == other.Size()
  {
    len > 0 && exists i: nat, j: nat ::
      i < Min(CellCount(len, cfg.bufferSize), FreeCount(cfg, c)) && j < Unread(other, o, last)
      && NextFree(cfg, c, i) == NextUnread(other, last, j) && o.descs[NextUnread(other, last, j)].length > 0
  }

  lemma SlotsOfResidues(cfg: Config, x: nat)
    requires cfg.Ok()
    ensures forall i: nat :: cfg.At(x % 0x1_0000 + i) == FreeSlot(cfg, x, i)
  {
    forall i: nat ensures cfg.At(x % 0x1_0000 + i) == FreeSlot(cfg, x, i) {
      SameWordSameSlot(x % 0x1_0000 + i, x + i, cfg.log2);
    }
  }

  /** What the indices tell is so. */
  lemma IndicesTell(cfg: Config, s: Sys)
    requires Inv(cfg, s)
    ensures Unread(cfg, s.chan, s.reader.last) == |s.h.log| - Consumed(s.h)
    ensures FreeCount(cfg, s.chan) == Free(s.h)
    ensures forall i: nat :: NextFree(cfg, s.chan, i) == FreeSlot(cfg, |s.h.log|, i)
    ensures forall j: nat :: NextUnread(cfg, s.reader.last, j) == FreeSlot(cfg, Consumed(s.h), j)
  {
    hide HistoryOk, ReaderInv, WriterInv, WindowOk, ChanOk, Consumed, Config.At, FreeSlot;
    SlotsOfResidues(cfg, |s.h.log|);
    SlotsOfResidues(cfg, Consumed(s.h));
    CountsTell(cfg, s);
  }

  lemma CountsTell(cfg: Config, s: Sys)
    requires Inv(cfg, s)
    ensures Unread(cfg, s.chan, s.reader.last) == |s.h.log| - Consumed(s.h)
    ensures FreeCount(cfg, s.chan) == Free(s.h)
  {
    hide HistoryOk, ReaderInv, WriterInv, WindowOk, ChanOk, Consumed, Pow2;
    SizeFits(cfg);
    LimitsOk(cfg, s);
    WrappedDifference(|s.h.log|, Consumed(s.h));
    if cfg.dir.S2M? {
      WrappedRoom(cfg.Size(), |s.h.log|, Consumed(s.h));
    } else {
      WrappedDifference(s.h.posted, |s.h.log|);
    }
  }

  /** With unread bytes in the way, some packet of any given length destroys them. */
  lemma SomePacketDestroys(cfg: Config, s: Sys, other: Config, o: Sys, len: nat, i: nat, j: nat) returns (pkt: seq<u8>)
    requires Inv(cfg, s) && s.writer.WIdle? && Inv(other, o) && o.chan.bufs == s.chan.bufs
    requires other.log2 == cfg.log2 && other.bufferSize == cfg.bufferSize
    requires len > 0 && i < Min(CellCount(len, cfg.bufferSize), Free(s.h)) && j < |o.h.log| - Consumed(o.h)
    requires FreeSlot(cfg, |s.h.log|, i) == FreeSlot(other, Consumed(o.h), j)
    requires o.chan.descs[FreeSlot(other, Consumed(o.h), j)].length > 0
    ensures |pkt| == len
    ensures var c := WriterRun(cfg, s.chan, WStart(cfg, s.chan, pkt)).0;
            ChanOk(other, Beside(o.chan, c.bufs)) && !WindowOk(other, Beside(o.chan, c.bufs), o.h)
  {
    var t, k := FreeSlot(cfg, |s.h.log|, i), Consumed(o.h) + j;
    hide WriterInv, ReaderInv, IndicesOk, WriterRun, WStart, Logged, Delivered;
    var b: u8 := if o.chan.bufs[t][0] == 0 then 1 else 0;
    pkt := seq(len, _ => b);
    WriteFills(cfg, s, pkt);
    ByteSpreads(cfg, s, pkt, b, i);
    BytesDiffer(other, o.chan, WriterRun(cfg, s.chan, WStart(cfg, s.chan, pkt)).0.bufs, o.h, k);
  }

  /** A packet of one byte's repetitions puts that byte first into every buffer it uses. */
  lemma ByteSpreads(cfg: Config, s: Sys, pkt: seq<u8>, b: u8, i: nat)
    requires Inv(cfg, s) && s.writer.WIdle? && |pkt| > 0 && forall x :: x in pkt ==> x == b
    requires i < Min(CellCount(|pkt|, cfg.bufferSize), Free(s.h))
    ensures var bufs := WriterRun(cfg, s.chan, WStart(cfg, s.chan, pkt)).0.bufs;
            Whole(cfg, bufs) && bufs[FreeSlot(cfg, |s.h.log|, i)][0] == b
  {
    hide HistoryOk, WriterInv, ReaderInv, IndicesOk, WindowOk, WriterRun, WStart, FilledTo, CellOf, FreeSlot;
    LimitsOk(cfg, s);
    WriteFills(cfg, s, pkt);
    FilledThere(cfg, s.chan.bufs, |s.h.log|, pkt, Min(CellCount(|pkt|, cfg.bufferSize), Free(s.h)), i);
    ChunkNotEmpty(cfg, pkt, i);
    assert CellOf(cfg, pkt, i).bytes[0] in pkt;
  }

  lemma BytesDiffer(other: Config, c: Chan, bufs: seq<seq<u8>>, h: History, k: nat)
    requires other.Ok() && ChanOk(other, c) && Whole(other, bufs) && WindowOk(other, c, h) && Consumed(h) <= k < |h.log|
    requires c.descs[other.At(k)].length > 0 && bufs[other.At(k)][0] != c.bufs[other.At(k)][0]
    ensures ChanOk(other, Beside(c, bufs)) && !WindowOk(other, Beside(c, bufs), h)
  {
    assert CellAt(c, other.At(k)) == h.log[k];
    assert CellAt(Beside(c, bufs), other.At(k)).bytes[0] == bufs[other.At(k)][0];
    assert CellAt(c, other.At(k)).bytes[0] == c.bufs[other.At(k)][0];
  }

  lemma ChunkNotEmpty(cfg: Config, pkt: seq<u8>, i: nat)
    requires cfg.bufferSize > 0 && |pkt| > 0 && i < CellCount(|pkt|, cfg.bufferSize)
    ensures var b := CellOf(cfg, pkt, i).bytes;
            0 < |b| <= cfg.bufferSize && forall x :: x in b ==> x in pkt
  {
    CellsBefore(|pkt|, cfg.bufferSize, i);
    hide CellCount;
  }

  /** With none in the way, no packet of that length destroys anything. */
  lemma NoPacketDestroys(cfg: Config, s: Sys, other: Config, o: Sys, pkt: seq<u8>)
    requires Inv(cfg, s) && s.writer.WIdle? && Inv(other, o) && o.chan.bufs == s.chan.bufs
    requires other.log2 == cfg.log2 && other.bufferSize == cfg.bufferSize
    requires |pkt| == 0 || forall i: nat, j: nat ::
               i < Min(CellCount(|pkt|, cfg.bufferSize), Free(s.h)) && j < |o.h.log| - Consumed(o.h)
               && FreeSlot(cfg, |s.h.log|, i) == FreeSlot(other, Consumed(o.h), j)
               ==> o.chan.descs[FreeSlot(other, Consumed(o.h), j)].length == 0
    ensures var c := WriterRun(cfg, s.chan, WStart(cfg, s.chan, pkt)).0;
            ChanOk(other, Beside(o.chan, c.bufs)) && WindowOk(other, Beside(o.chan, c.bufs), o.h)
  {
    hide WriterInv, ReaderInv, IndicesOk, WriterRun, WStart, FilledTo, Logged, Delivered;
    var n := Min(CellCount(|pkt|, cfg.bufferSize), Free(s.h));
    LimitsOk(cfg, s);
    WriteFills(cfg, s, pkt);
    var o' := Beside(o.chan, WriterRun(cfg, s.chan, WStart(cfg, s.chan, pkt)).0.bufs);
    forall k | Consumed(o.h) <= k < |o.h.log| ensures CellAt(o', other.At(k)) == o.h.log[k] {
      var t := FreeSlot(other, Consumed(o.h), k - Consumed(o.h));
      assert CellAt(o.chan, other.At(k)) == o.h.log[k];
      if i: nat :| i < n && FreeSlot(cfg, |s.h.log|, i) == t {
        FilledThere(cfg, s.chan.bufs, |s.h.log|, pkt, n, i);
      } else {
        FilledElsewhere(cfg, s.chan.bufs, |s.h.log|, pkt, n, t);
      }
    }
  }

  /** Cross-talk. Two rings over the same buffers, the one about to write, the other anywhere: every write of
      a packet of this length leaves the other ring's unread packets intact if and only if none of the slots
      that it is going to use holds unread bytes of the other ring. That can be told from the indices
      and descriptor lengths before the call. */
  lemma CrossTalk(cfg: Config, s: Sys, other: Config, o: Sys, len: nat)
    requires Inv(cfg, s) && s.writer.WIdle? && Inv(other, o) && o.chan.bufs == s.chan.bufs
    requires other.log2 == cfg.log2 && other.bufferSize == cfg.bufferSize
    ensures (forall pkt :: |pkt| == len ==>
              var bufs := WriterRun(cfg, s.chan, WStart(cfg, s.chan, pkt)).0.bufs;
              ChanOk(other, Beside(o.chan, bufs)) && WindowOk(other, Beside(o.chan, bufs), o.h))
       <==> !Endangers(cfg, s.chan, len, other, o.chan, o.reader.last)
  {
    hide HistoryOk, IndicesOk, WindowOk, WriterInv, ReaderInv, WStart, WriterRun;
    hide NextFree, NextUnread, FreeCount, Unread;
    IndicesTell(cfg, s);
    IndicesTell(other, o);
    if Endangers(cfg, s.chan, len, other, o.chan, o.reader.last) {
      var i: nat, j: nat :|
        i < Min(CellCount(len, cfg.bufferSize), FreeCount(cfg, s.chan)) && j < Unread(other, o.chan, o.reader.last)
        && NextFree(cfg, s.chan, i) == NextUnread(other, o.reader.last, j)
        && o.chan.descs[NextUnread(other, o.reader.last, j)].length > 0;
      var pkt := SomePacketDestroys(cfg, s, other, o, len, i, j);
    } else {
      forall pkt: seq<u8> | |pkt| == len
        ensures var bufs := WriterRun(cfg, s.chan, WStart(cfg, s.chan, pkt)).0.bufs;
                ChanOk(other, Beside(o.chan, bufs)) && WindowOk(other, Beside(o.chan, bufs), o.h)
      {
        forall i: nat, j: nat | i < Min(CellCount(|pkt|, cfg.bufferSize), Free(s.h)) && j < |o.h.log| - Consumed(o.h)
                                && FreeSlot(cfg, |s.h.log|, i) == FreeSlot(other, Consumed(o.h), j) && len > 0
          ensures o.chan.descs[FreeSlot(other, Consumed(o.h), j)].length == 0
        {
          assert NextFree(cfg, s.chan, i) == NextUnread(other, o.reader.last, j);
        }
        NoPacketDestroys(cfg, s, other, o, pkt);
      }
    }
  }

  // ------------------------------------------------------------ one copy, at any moment

  /** How many cells the write under way has copied to its slots, published or not. */
  function Copied(cfg: Config, w: Writer, h: History): int
    requires cfg.bufferSize > 0
  {
    match w
    case WIdle(_) => 0
    case WFetch(_, slot, _, _) => Ahead(slot, |h.log|)
    case WCopy(_, slot, _, _, _, _) => Ahead(slot, |h.log|)
    case WPut(_, slot, _, _, _) => Ahead(slot, |h.log|) + 1
    case WPublish(pkt, _, _) => CellCount(|pkt|, cfg.bufferSize)
  }

  /** Slot t holds bytes of an unread cell, or of a chunk that the write under way has put there. */
  ghost predicate Occupied(cfg: Config, s: Sys, t: nat)
    requires cfg.bufferSize > 0
  {
    exists k: nat :: Consumed(s.h) <= k < |s.h.log| + Copied(cfg, s.writer, s.h) && cfg.At(k) == t
      && if k < |s.h.log| then s.h.log[k].bytes != [] else exists pkt :: pkt in InHand(s.writer) && pkt != []
  }

  /** The ring after somebody else copied a chunk to its slot t. */
  function Intruded(cfg: Config, s: Sys, t: nat, chunk: seq<u8>): Sys
    requires t < |s.chan.bufs| && |chunk| <= |s.chan.bufs[t]|
  {
    s.(chan := SetBuf(s.chan, t, Overwrite(s.chan.bufs[t], chunk)))
  }

  lemma HarmlessInWindow(cfg: Config, s: Sys, t: nat, chunk: seq<u8>)
    requires Inv(cfg, s) && t < cfg.Size() && |chunk| <= cfg.bufferSize && !Occupied(cfg, s, t)
    ensures var c := Intruded(cfg, s, t, chunk).chan;
            ChanOk(cfg, c) && WindowOk(cfg, c, s.h)
  {
    hide WriterInv, ReaderInv, IndicesOk, Logged, Delivered;
    var c := Intruded(cfg, s, t, chunk).chan;
    assert Copied(cfg, s.writer, s.h) >= 0 by { CopiedIsPut(cfg, s.chan, s.writer, s.h); }
    forall k | Consumed(s.h) <= k < |s.h.log| ensures CellAt(c, cfg.At(k)) == s.h.log[k] {
      assert CellAt(s.chan, cfg.At(k)) == s.h.log[k];
    }
  }

  /** Chunk j of the write under way stands in its slot, and is not empty if the packet is not. */
  lemma CopiedIsPut(cfg: Config, c: Chan, w: Writer, h: History)
    requires cfg.Ok() && ChanOk(cfg, c) && WriterOk(cfg, w) && WriterInv(cfg, c, w, h)
    ensures Copied(cfg, w, h) >= 0
    ensures !w.WIdle? ==> Copied(cfg, w, h) <= CellCount(|InHand(w)[0]|, cfg.bufferSize)
    ensures !w.WIdle? ==> forall j: nat :: j < Copied(cfg, w, h) ==>
              var bytes := CellOf(cfg, InHand(w)[0], j).bytes;
              |bytes| <= cfg.bufferSize && c.bufs[FreeSlot(cfg, |h.log|, j)][..|bytes|] == bytes
  {
    match w
    case WIdle(_) =>
    case WFetch(pkt, slot, _, _) => WorkingIsPut(cfg, c, |h.log|, pkt, Ahead(slot, |h.log|));
    case WCopy(pkt, slot, _, _, _, _) => WorkingIsPut(cfg, c, |h.log|, pkt, Ahead(slot, |h.log|));
    case WPut(pkt, slot, _, _, _) => WorkingIsPut(cfg, c, |h.log|, pkt, Ahead(slot, |h.log|));
    case WPublish(pkt, _, _) => PutIsThere(cfg, c, |h.log|, pkt, CellCount(|pkt|, cfg.bufferSize));
  }

  lemma WorkingIsPut(cfg: Config, c: Chan, w0: nat, pkt: seq<u8>, i: nat)
    requires cfg.Ok() && ChanOk(cfg, c) && PutSoFar(cfg, c, w0, pkt, i) && (i > 0 ==> i * cfg.bufferSize < |pkt|)
    ensures i < CellCount(|pkt|, cfg.bufferSize)
    ensures forall j: nat :: j < i ==>
              var bytes := CellOf(cfg, pkt, j).bytes;
              |bytes| <= cfg.bufferSize && c.bufs[FreeSlot(cfg, w0, j)][..|bytes|] == bytes
  {
    CellCountCovers(|pkt|, cfg.bufferSize, i);
    PutIsThere(cfg, c, w0, pkt, i);
  }

  lemma PutIsThere(cfg: Config, c: Chan, w0: nat, pkt: seq<u8>, i: nat)
    requires cfg.Ok() && ChanOk(cfg, c) && PutSoFar(cfg, c, w0, pkt, i)
    ensures forall j: nat :: j < i ==>
              var bytes := CellOf(cfg, pkt, j).bytes;
              |bytes| <= cfg.bufferSize && c.bufs[FreeSlot(cfg, w0, j)][..|bytes|] == bytes
  {
    forall j: nat | j < i
      ensures var bytes := CellOf(cfg, pkt, j).bytes;
              |bytes| <= cfg.bufferSize && c.bufs[FreeSlot(cfg, w0, j)][..|bytes|] == bytes
    {
      assert CellAt(c, cfg.At(w0 + j)) == CellOf(cfg, pkt, j);
    }
  }

  lemma EmptyChunk(cfg: Config, j: nat)
    requires cfg.bufferSize > 0
    ensures CellOf(cfg, [], j).bytes == []
  {
    MulMono(0, j, cfg.bufferSize);
  }

  /** Chunks elsewhere, or of an empty packet, stay. */
  lemma HarmlessToPut(cfg: Config, c: Chan, c': Chan, t: nat, w0: nat, pkt: seq<u8>, i: nat)
    requires cfg.Ok() && ChanOk(cfg, c) && ChanOk(cfg, c') && c'.descs == c.descs && PutSoFar(cfg, c, w0, pkt, i)
    requires forall s :: 0 <= s < cfg.Size() && s != t ==> c'.bufs[s] == c.bufs[s]
    requires pkt != [] ==> forall j: nat :: j < i ==> FreeSlot(cfg, w0, j) != t
    ensures PutSoFar(cfg, c', w0, pkt, i)
  {
    hide CellOf;
    forall j | 0 <= j < i ensures CellAt(c', cfg.At(w0 + j)) == CellOf(cfg, pkt, j) {
      assert CellAt(c, cfg.At(w0 + j)) == CellOf(cfg, pkt, j);
      assert cfg.At(w0 + j) == FreeSlot(cfg, w0, j);
      if pkt == [] {
        EmptyChunk(cfg, j);
      }
    }
  }

  lemma HarmlessToCapacity(cfg: Config, c: Chan, c': Chan, from: nat, to: nat)
    requires cfg.Ok() && ChanOk(cfg, c) && ChanOk(cfg, c') && c'.descs == c.descs
    ensures CapacityOk(cfg, c', from, to) == CapacityOk(cfg, c, from, to)
  {
  }

  lemma HarmlessToWriter(cfg: Config, c: Chan, c': Chan, t: nat, w: Writer, h: History)
    requires cfg.Ok() && ChanOk(cfg, c) && ChanOk(cfg, c') && c'.descs == c.descs && WriterInv(cfg, c, w, h)
    requires WriterOk(cfg, w)
    requires forall s :: 0 <= s < cfg.Size() && s != t ==> c'.bufs[s] == c.bufs[s]
    requires InHand(w) != [] && InHand(w)[0] != [] ==>
               forall j: nat :: j < Copied(cfg, w, h) ==> FreeSlot(cfg, |h.log|, j) != t
    ensures WriterInv(cfg, c', w, h)
  {
    hide ChanOk, CapacityOk, PutSoFar, Joined, Payload, CellOf;
    var w0 := |h.log|;
    HarmlessToCapacity(cfg, c, c', w0, h.posted);
    match w
    case WIdle(_) =>
    case WFetch(pkt, slot, _, _) => HarmlessToPut(cfg, c, c', t, w0, pkt, Ahead(slot, w0));
    case WCopy(pkt, slot, _, _, _, _) => HarmlessToPut(cfg, c, c', t, w0, pkt, Ahead(slot, w0));
    case WPut(pkt, slot, _, _, desc) => HarmlessToFilled(cfg, c, c', t, w, h);
    case WPublish(pkt, _, _) =>
      HarmlessToCapacity(cfg, c, c', w0 + CellCount(|pkt|, cfg.bufferSize), h.posted);
      HarmlessToPut(cfg, c, c', t, w0, pkt, CellCount(|pkt|, cfg.bufferSize));
  }

  lemma HarmlessToFilled(cfg: Config, c: Chan, c': Chan, t: nat, w: Writer, h: History)
    requires cfg.Ok() && ChanOk(cfg, c) && ChanOk(cfg, c') && c'.descs == c.descs
    requires WriterOk(cfg, w) && w.WPut? && WriterInv(cfg, c, w, h)
    requires forall s :: 0 <= s < cfg.Size() && s != t ==> c'.bufs[s] == c.bufs[s]
    requires w.pkt != [] ==> forall j: nat :: j < Copied(cfg, w, h) ==> FreeSlot(cfg, |h.log|, j) != t
    ensures WriterInv(cfg, c', w, h)
  {
    var w0, i := |h.log|, Ahead(w.slot, |h.log|);
    HarmlessToCapacity(cfg, c, c', w0, h.posted);
    HarmlessToPut(cfg, c, c', t, w0, w.pkt, i);
    if w.pkt == [] {
      EmptyChunk(cfg, i);
    } else {
      assert FreeSlot(cfg, w0, i) != t;
    }
  }

  /** A copy by somebody else into a slot that holds nothing keeps everything that both peers rely on. */
  lemma Harmless(cfg: Config, s: Sys, t: nat, chunk: seq<u8>)
    requires Inv(cfg, s) && t < cfg.Size() && |chunk| <= cfg.bufferSize && !Occupied(cfg, s, t)
    ensures Inv(cfg, Intruded(cfg, s, t, chunk))
  {
    hide WriterInv, WindowOk, Logged, Delivered;
    var w0, c := |s.h.log|, Intruded(cfg, s, t, chunk).chan;
    HarmlessInWindow(cfg, s, t, chunk);
    if InHand(s.writer) != [] && InHand(s.writer)[0] != [] {
      forall j: nat | j < Copied(cfg, s.writer, s.h) ensures FreeSlot(cfg, w0, j) != t {
        assert InHand(s.writer)[0] in InHand(s.writer);
        assert cfg.At(w0 + j) == FreeSlot(cfg, w0, j);
      }
    }
    HarmlessToWriter(cfg, s.chan, c, t, s.writer, s.h);
  }

  /** ... and into a slot that holds something, some chunk of any given length does not. */
  lemma Harmful(cfg: Config, s: Sys, t: nat, n: nat) returns (chunk: seq<u8>)
    requires Inv(cfg, s) && t < cfg.Size() && 0 < n <= cfg.bufferSize && Occupied(cfg, s, t)
    ensures |chunk| == n && !Inv(cfg, Intruded(cfg, s, t, chunk))
  {
    var b: u8 := if s.chan.bufs[t][0] == 0 then 1 else 0;
    chunk := seq(n, _ => b);
    var c := Intruded(cfg, s, t, chunk).chan;
    assert c.bufs[t][0] == b;
    if Inv(cfg, Intruded(cfg, s, t, chunk)) {
      SameBytes(cfg, s, c, t);
      assert false;
    }
  }

  /** Under the invariant the first byte of an occupied slot's buffer is determined by the history and the
      writer, whatever the channel. */
  lemma SameBytes(cfg: Config, s: Sys, c: Chan, t: nat)
    requires Inv(cfg, s) && Inv(cfg, s.(chan := c)) && t < cfg.Size() && Occupied(cfg, s, t)
    ensures s.chan.bufs[t][0] == c.bufs[t][0]
  {
    hide ReaderInv, IndicesOk, Logged, Delivered, WriterInv;
    var w0 := |s.h.log|;
    var k: nat :| Consumed(s.h) <= k < w0 + Copied(cfg, s.writer, s.h) && cfg.At(k) == t
      && if k < w0 then s.h.log[k].bytes != [] else exists pkt :: pkt in InHand(s.writer) && pkt != [];
    if k < w0 {
      assert CellAt(s.chan, t) == s.h.log[k] == CellAt(c, t);
      assert s.h.log[k].bytes[0] == s.chan.bufs[t][0] == c.bufs[t][0];
    } else {
      CopiedIsPut(cfg, s.chan, s.writer, s.h);
      CopiedIsPut(cfg, c, s.writer, s.h);
      ChunkNotEmpty(cfg, InHand(s.writer)[0], k - w0);
      var bytes := CellOf(cfg, InHand(s.writer)[0], k - w0).bytes;
      assert FreeSlot(cfg, w0, k - w0) == t;
      assert bytes[0] == s.chan.bufs[t][..|bytes|][0] == c.bufs[t][..|bytes|][0];
    }
  }

  /** Cross-talk, step by step and exactly: at any moment of any two peers, copying a nonempty chunk into slot t
      from outside leaves a ring intact, whatever the chunk's bytes, if and only if the slot holds neither
      unread bytes nor a chunk of the write under way. */
  lemma CopyLeavesIntact(cfg: Config, s: Sys, t: nat, n: nat)
    requires Inv(cfg, s) && t < cfg.Size() && 0 < n <= cfg.bufferSize
    ensures (forall chunk :: |chunk| == n ==> Inv(cfg, Intruded(cfg, s, t, chunk))) <==> !Occupied(cfg, s, t)
  {
    if Occupied(cfg, s, t) {
      var chunk := Harmful(cfg, s, t, n);
    } else {
      forall chunk: seq<u8> | |chunk| == n ensures Inv(cfg, Intruded(cfg, s, t, chunk)) {
        Harmless(cfg, s, t, chunk);
      }
    }
  }

  // ------------------------------------------------------------ a packet lost

  /** Rings of one slot with buffers of one byte, as the slave lays them out. */
  function Smallest(dir: Direction): (cfg: Config)
    ensures cfg.Ok() && cfg.log2 == 0 && cfg.bufferSize == 1 && cfg.dir == dir
  {
    assert Pow2(0) == 1;
    QueueZero(dir, 1, 0, 1, false)
  }

  lemma OneSlot(cfg: Config)
    requires cfg.log2 == 0
    ensures cfg.Size() == 1 && forall k: nat :: cfg.At(k) == 0
  {
    assert Pow2(0) == 1;
  }

  lemma WriteOneByte(cfg: Config, c: Chan, b: u8, slot: nat)
    requires cfg.Ok() && cfg.log2 == 0 && cfg.bufferSize == 1 && ChanOk(cfg, c) && c.descs[0].length == 1
    requires WStart(cfg, c, [b]) == WFetch([b], slot, 1, 0)
    ensures var c' := Chan(c.head, c.tail, [c.descs[0].(flags := 0, length := 1)], [[b]]);
            WriterRun(cfg, c, WStart(cfg, c, [b]))
            == (if cfg.dir.M2S? then c'.(tail := U16(slot + 1)) else c'.(head := U16(slot + 1)), WIdle(1))
  {
    OneSlot(cfg);
    var d := c.descs[0].(flags := 0, length := 1);
    assert Chunk(cfg.corrected, [b], 0, 1) == [b] && Overwrite(c.bufs[0], [b]) == [b];
    var c1 := FillSteps(cfg, c, [b], slot, 1, 0, d);
    assert c1.bufs == [[b]];
    RunLast(cfg, c1, [b], slot, 1, 1, d);
    assert SetDesc(c1, 0, d).descs == [d];
  }

  /** The slave's first read finds nothing and posts its one buffer. */
  lemma ReadNothing(cfg: Config, c: Chan)
    requires cfg.Ok() && cfg.log2 == 0 && cfg.bufferSize == 1 && cfg.dir.M2S? && ChanOk(cfg, c)
    requires c.head == 0 && c.tail == 0 && c.descs[0].length == 1
    ensures ReaderRun(cfg, c, RStart(cfg, c, 0)) == (c.(head := 1), Reader(0, RIdle([])))
  {
    OneSlot(cfg);
    SmallWords();
    hide ReaderRun, RStep, ChanOk, Pow2, U16;
    ReleaseRun(cfg, c, 0, 0, []);
    RefillOne(cfg, c);
    RepostRun(cfg, c, 0, 1, []);
  }

  lemma SmallWords()
    ensures U16(0) == 0 && U16(1) == 1
  {
  }

  lemma RefillOne(cfg: Config, c: Chan)
    requires cfg.Ok() && cfg.log2 == 0 && cfg.bufferSize == 1 && cfg.dir.M2S?
    requires ChanOk(cfg, c) && c.descs[0].length == 1
    ensures ReaderRun(cfg, c, Reader(0, RRefill(0, 1, []))) == ReaderRun(cfg, c, Reader(0, RRefill(1, 0, [])))
  {
    hide ReaderRun, RStep, SetLow16;
    OneSlot(cfg);
    RefillIsWhole(cfg, 1);
    RefillRun(cfg, c, 0, 0, 1, []);
    assert SetDesc(c, 0, c.descs[0].(length := SetLow16(1, 1))) == c;
  }

  lemma ReadOneByte(cfg: Config, c: Chan, b: u8)
    requires cfg.Ok() && cfg.log2 == 0 && cfg.bufferSize == 1 && cfg.dir.S2M? && ChanOk(cfg, c)
    requires c.head == 1 && c.bufs == [[b]] && c.descs[0].length == 1 && c.descs[0].flags == 0
    ensures ReaderRun(cfg, c, RStart(cfg, c, 0)) == (c.(tail := 1), Reader(1, RIdle([[b]])))
  {
    hide ReaderRun, RStep;
    OneSlot(cfg);
    TakeRun(cfg, c, 0, 0, 1, [], c.descs[0]);
    assert [] + c.bufs[0][..1] == [b];
    MasterReleaseRun(cfg, c, 0, 1, [[b]]);
  }

  function SmallestAt(head: u16, tail: u16, b: u8): Chan {
    Chan(head, tail, [Desc(0, 0, 1, 288, 0)], [[b]])
  }

  lemma SmallestOk(dir: Direction, head: u16, tail: u16, b: u8)
    ensures ChanOk(Smallest(dir), SmallestAt(head, tail, b))
    ensures head == tail == 0 ==> InitialChan(Smallest(dir), SmallestAt(head, tail, b))
  {
  }

  ghost predicate Writes(dir: Direction, c: Chan, b: u8, c': Chan) {
    ChanOk(Smallest(dir), c)
    && WriterRun(Smallest(dir), c, WStart(Smallest(dir), c, [b])) == (c', WIdle(1))
  }

  ghost predicate Reads(dir: Direction, c: Chan, packets: seq<seq<u8>>, c': Chan) {
    ChanOk(Smallest(dir), c)
    && var (d, r) := ReaderRun(Smallest(dir), c, RStart(Smallest(dir), c, 0));
       d == c' && r.pc == RIdle(packets)
  }

  /** So the two directions of one pair do not work together. Both rings start empty over one shared buffer;
      the slave sends the packet [7]; its read posts the M2S buffer; the master sends [9]; and then the
      master, whose read should return [7], reads [9]. */
  lemma APacketIsLost()
    ensures InitialChan(Smallest(S2M), SmallestAt(0, 0, 0)) && InitialChan(Smallest(M2S), SmallestAt(0, 0, 0))
    ensures Writes(S2M, SmallestAt(0, 0, 0), 7, SmallestAt(1, 0, 7))
    ensures Reads(M2S, Beside(SmallestAt(0, 0, 0), [[7]]), [], SmallestAt(1, 0, 7))
    ensures Writes(M2S, SmallestAt(1, 0, 7), 9, SmallestAt(1, 1, 9))
    ensures Reads(S2M, Beside(SmallestAt(1, 0, 7), [[9]]), [[9]], SmallestAt(1, 1, 9))
  {
    hide Writes, Reads;
    SmallestOk(S2M, 0, 0, 0);
    SmallestOk(M2S, 0, 0, 0);
    SlaveSends();
    SlavePosts();
    MasterSends();
    MasterReads();
  }

  lemma SlaveSends()
    ensures Writes(S2M, SmallestAt(0, 0, 0), 7, SmallestAt(1, 0, 7))
  {
    hide WriterRun, ChanOk;
    SmallestOk(S2M, 0, 0, 0);
    WriteOneByte(Smallest(S2M), SmallestAt(0, 0, 0), 7, 0);
  }

  lemma SlavePosts()
    ensures Reads(M2S, Beside(SmallestAt(0, 0, 0), [[7]]), [], SmallestAt(1, 0, 7))
  {
    hide ReaderRun, ChanOk;
    SmallestOk(M2S, 0, 0, 7);
    ReadNothing(Smallest(M2S), SmallestAt(0, 0, 7));
  }

  lemma MasterSends()
    ensures Writes(M2S, SmallestAt(1, 0, 7), 9, SmallestAt(1, 1, 9))
  {
    hide WriterRun, ChanOk;
    SmallestOk(M2S, 1, 0, 7);
    WriteOneByte(Smallest(M2S), SmallestAt(1, 0, 7), 9, 0);
  }

  lemma MasterReads()
    ensures Reads(S2M, Beside(SmallestAt(1, 0, 7), [[9]]), [[9]], SmallestAt(1, 1, 9))
  {
    hide ReaderRun, ChanOk;
    SmallestOk(S2M, 1, 0, 9);
    ReadOneByte(Smallest(S2M), SmallestAt(1, 0, 9), 9);
  }

  function HalfSent(): Writer {
    WPut([7], 0, 1, 1, Desc(0, 0, 1, 288, 0))
  }

  /** A quiet moment at the call's entry is not enough. The slave has posted its M2S buffer and copied the packet
      [7], but not published it: nothing is unread, nothing is endangered. The master sends [9] in one
      go, the slave publishes, and the master reads [9]. */
  lemma AChunkIsLost()
    ensures Reads(M2S, SmallestAt(0, 0, 0), [], SmallestAt(1, 0, 0))
    ensures HalfWrites(SmallestAt(0, 0, 0), SmallestAt(0, 0, 7))
    ensures !Endangers(Smallest(M2S), SmallestAt(1, 0, 7), 1, Smallest(S2M), SmallestAt(0, 0, 7), 0)
    ensures Writes(M2S, SmallestAt(1, 0, 7), 9, SmallestAt(1, 1, 9))
    ensures Publishes(Beside(SmallestAt(0, 0, 7), [[9]]), SmallestAt(1, 0, 9))
    ensures Reads(S2M, SmallestAt(1, 0, 9), [[9]], SmallestAt(1, 1, 9))
  {
    hide Writes, Reads, HalfWrites, Publishes;
    SlavePostsFirst();
    SlaveCopies();
    MasterSends();
    SlavePublishes();
    MasterReads();
  }

  /** The first two steps of sending [7], and the rest of it. */
  ghost predicate HalfWrites(c: Chan, c': Chan) {
    var cfg := Smallest(S2M);
    ChanOk(cfg, c) && WStart(cfg, c, [7]).WFetch?
    && var (c1, w1) := WStep(cfg, c, WStart(cfg, c, [7]));
       WStep(cfg, c1, w1) == (c', HalfSent())
  }

  ghost predicate Publishes(c: Chan, c': Chan) {
    var cfg := Smallest(S2M);
    ChanOk(cfg, c) && WriterOk(cfg, HalfSent()) && WriterRun(cfg, c, HalfSent()) == (c', WIdle(1))
  }

  lemma SlavePostsFirst()
    ensures Reads(M2S, SmallestAt(0, 0, 0), [], SmallestAt(1, 0, 0))
  {
    hide ReaderRun, ChanOk;
    SmallestOk(M2S, 0, 0, 0);
    ReadNothing(Smallest(M2S), SmallestAt(0, 0, 0));
  }

  lemma SlaveCopies()
    ensures HalfWrites(SmallestAt(0, 0, 0), SmallestAt(0, 0, 7))
  {
    var cfg, c := Smallest(S2M), SmallestAt(0, 0, 0);
    SmallestOk(S2M, 0, 0, 0);
    OneSlot(cfg);
    var w1 := WCopy([7], 0, 1, 0, Desc(0, 0, 0, 288, 0), 1);
    assert WStep(cfg, c, WFetch([7], 0, 1, 0)) == (c, w1);
    assert Chunk(false, [7], 0, 1) == [7] && Overwrite([0], [7]) == [7];
    assert SetBuf(c, 0, [7]).bufs == [[7]];
    assert WStep(cfg, c, w1) == (SmallestAt(0, 0, 7), HalfSent());
  }

  lemma SlavePublishes()
    ensures Publishes(Beside(SmallestAt(0, 0, 7), [[9]]), SmallestAt(1, 0, 9))
  {
    var cfg, c := Smallest(S2M), SmallestAt(0, 0, 9);
    SmallestOk(S2M, 0, 0, 9);
    OneSlot(cfg);
    RunLast(cfg, c, [7], 0, 1, 1, Desc(0, 0, 1, 288, 0));
    assert SetDesc(c, 0, Desc(0, 0, 1, 288, 0)) == c;
  }
}
