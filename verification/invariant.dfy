/** Every action of either peer keeps the invariant of RingSystem. */
module RingInvariant {
  import opened Bits
  import opened Ring
  import opened RingSystem

  // ------------------------------------------------------------ slots and 16-bit counts

  lemma SlotsDiffer(cfg: Config, a: nat, b: nat)
    requires a < b < a + cfg.Size()
    ensures cfg.At(a) != cfg.At(b)
  {
    DistinctSlots(a, b, cfg.Size());
  }

  /** No other counter within a ring's length of x uses x's slot. */
  lemma OnlyThisSlot(cfg: Config, x: nat)
    ensures forall k: nat :: k < x < k + cfg.Size() ==> cfg.At(k) != cfg.At(x)
    ensures forall k: nat :: x < k < x + cfg.Size() ==> cfg.At(k) != cfg.At(x)
  {
    forall k: nat | k < x < k + cfg.Size() ensures cfg.At(k) != cfg.At(x) {
      SlotsDiffer(cfg, k, x);
    }
    forall k: nat | x < k < x + cfg.Size() ensures cfg.At(k) != cfg.At(x) {
      SlotsDiffer(cfg, x, k);
    }
  }

  /** The local int `slot`, which starts as a 16-bit value and is never truncated, selects the slot
      of the unbounded counter it stands for. */
  lemma LocalSlot(cfg: Config, slot: nat, base: nat)
    requires cfg.Ok() && Ahead(slot, base) >= 0
    ensures cfg.At(slot) == cfg.At(base + Ahead(slot, base))
    ensures U16(slot) == (base + Ahead(slot, base)) % 0x1_0000
  {
    hide Pow2;
    SameWord(slot, base);
    SameWordSameSlot(slot, base + Ahead(slot, base), cfg.log2);
  }

  lemma SameWord(slot: nat, base: nat)
    ensures U16(slot) == (base + Ahead(slot, base)) % 0x1_0000
  {
  }

  lemma SizeFits(cfg: Config)
    requires cfg.Ok()
    ensures cfg.Size() <= 0x8000
  {
    Pow2Monotone(cfg.log2, 15);
    Pow2Sum(8, 7);
    assert Pow2(4) == 16;
    Pow2Sum(4, 4);
  }

  // ------------------------------------------------------------ cells of one packet

  /** The cell count is the least number of buffers that cover the packet. */
  lemma CellCountCovers(len: nat, C: nat, i: nat)
    requires C > 0 && (i > 0 ==> i * C < len)
    ensures i < CellCount(len, C)
    ensures i + 1 < CellCount(len, C) <==> (i + 1) * C < len
  {
    if len > 0 {
      var q := (len - 1) / C;
      assert len - 1 == q * C + (len - 1) % C;
      assert (q + 1) * C == q * C + C;
      if q < i { MulMono(q + 1, i, C); }
      if q < i + 1 { MulMono(q + 1, i + 1, C); } else { MulMono(i + 1, q, C); }
    } else {
      assert i == 0;
    }
  }

  lemma CellsBefore(len: nat, C: nat, j: nat)
    requires C > 0 && j < CellCount(len, C)
    ensures j > 0 ==> j * C < len
  {
    if j > 0 {
      var q := (len - 1) / C;
      MulMono(j, q, C);
      assert len - 1 == q * C + (len - 1) % C;
    }
  }

  /** After i full chunks, the packet goes on exactly when the i-th chunk leaves bytes over. */
  lemma LastCell(cfg: Config, pkt: seq<u8>, i: nat)
    requires cfg.Ok() && (i > 0 ==> i * cfg.bufferSize < |pkt|)
    ensures var n := i * cfg.bufferSize + |CellOf(cfg, pkt, i).bytes|;
            && (n < |pkt| <==> i + 1 < CellCount(|pkt|, cfg.bufferSize))
            && (n < |pkt| ==> n == (i + 1) * cfg.bufferSize)
            && i < CellCount(|pkt|, cfg.bufferSize)
  {
    var C := cfg.bufferSize;
    CellCountCovers(|pkt|, C, i);
    assert (i + 1) * C == i * C + C;
    if !cfg.corrected && i > 0 {
      MulAtLeast(i, C);
    }
  }

  // ------------------------------------------------------------ the writer's steps

  /** Wraparound: the 16-bit difference of two residues is the true difference, exactly while the
      counters are less than 2^16 apart. */
  lemma WrappedDifference(x: int, y: int)
    ensures U16(x % 0x1_0000 - y % 0x1_0000) == x - y <==> 0 <= x - y < 0x1_0000
  {
  }

  /** Wraparound: uint16(size - w + r) is the number of slots from w to r + size, exactly while that
      number fits 16 bits. */
  lemma WrappedRoom(size: int, w: int, r: int)
    ensures U16(size - w % 0x1_0000 + r % 0x1_0000) == r + size - w <==> 0 <= r + size - w < 0x1_0000
  {
  }

  lemma SubmitKeeps(cfg: Config, s: Sys, pkt: seq<u8>)
    requires Inv(cfg, s)
    ensures Inv(cfg, Next(cfg, s, SubmitPacket(pkt)))
  {
    if s.writer.WIdle? {
      CountFree(cfg, s.chan, s.reader.last, s.h, pkt);
    }
  }

  /** WritePacket starts with exactly the free slots there are. */
  lemma CountFree(cfg: Config, c: Chan, last: u16, h: History, pkt: seq<u8>)
    requires cfg.Ok() && ChanOk(cfg, c) && IndicesOk(cfg, c, last, h)
    requires Consumed(h) <= |h.log| <= h.posted <= Consumed(h) + cfg.Size()
    requires CapacityOk(cfg, c, |h.log|, h.posted)
    ensures WriterInv(cfg, c, WStart(cfg, c, pkt), h)
    ensures h.posted == |h.log| <==> WStart(cfg, c, pkt).WIdle?
    ensures h.posted > |h.log| ==> WStart(cfg, c, pkt) == WFetch(pkt, |h.log| % 0x1_0000, h.posted - |h.log|, 0)
  {
    SizeFits(cfg);
    if cfg.dir.S2M? {
      WrappedRoom(cfg.Size(), |h.log|, Consumed(h));
    } else {
      WrappedDifference(h.posted, |h.log|);
    }
  }

  lemma FetchKeeps(cfg: Config, s: Sys)
    requires Inv(cfg, s) && s.writer.WFetch?
    ensures Inv(cfg, Next(cfg, s, WriterStep))
  {
    var w := s.writer;
    LocalSlot(cfg, w.slot, |s.h.log|);
  }

  /** c' differs from c in the slot of counter x only. */
  ghost predicate OnlyTouched(cfg: Config, c: Chan, c': Chan, x: nat)
    requires cfg.Ok() && ChanOk(cfg, c) && ChanOk(cfg, c')
  {
    && c'.head == c.head && c'.tail == c.tail
    && (forall t :: 0 <= t < cfg.Size() && t != cfg.At(x) ==> c'.descs[t] == c.descs[t])
    && (forall t :: 0 <= t < cfg.Size() && t != cfg.At(x) ==> c'.bufs[t] == c.bufs[t])
  }

  /** Ownership, writer's side: touching a posted, unpublished slot disturbs nothing that is
      published and unread. */
  lemma TouchLeavesWindow(cfg: Config, c: Chan, c': Chan, h: History, x: nat)
    requires cfg.Ok() && ChanOk(cfg, c) && ChanOk(cfg, c') && OnlyTouched(cfg, c, c', x)
    requires WindowOk(cfg, c, h) && |h.log| <= x < Consumed(h) + cfg.Size()
    ensures WindowOk(cfg, c', h)
  {
    forall k | Consumed(h) <= k < |h.log| ensures CellAt(c', cfg.At(k)) == h.log[k] {
      SlotsDiffer(cfg, k, x);
    }
  }

  /** ... nor any cell put before it, */
  lemma TouchLeavesPut(cfg: Config, c: Chan, c': Chan, x: nat, w0: nat, pkt: seq<u8>, i: nat)
    requires cfg.Ok() && ChanOk(cfg, c) && ChanOk(cfg, c') && OnlyTouched(cfg, c, c', x)
    requires PutSoFar(cfg, c, w0, pkt, i) && w0 + i <= x < w0 + cfg.Size()
    ensures PutSoFar(cfg, c', w0, pkt, i)
  {
    forall j | 0 <= j < i ensures CellAt(c', cfg.At(w0 + j)) == CellOf(cfg, pkt, j) {
      SlotsDiffer(cfg, w0 + j, x);
    }
  }

  /** ... nor the capacity of any other slot, */
  lemma TouchLeavesCapacity(cfg: Config, c: Chan, c': Chan, x: nat, from: nat, to: nat)
    requires cfg.Ok() && ChanOk(cfg, c) && ChanOk(cfg, c') && OnlyTouched(cfg, c, c', x)
    requires CapacityOk(cfg, c, from, to)
    requires to <= x + cfg.Size() && x < from + cfg.Size()
    requires cfg.dir.M2S? && from <= x < to ==> c'.descs[cfg.At(x)].length == cfg.bufferSize
    ensures CapacityOk(cfg, c', from, to)
  {
    OnlyThisSlot(cfg, x);
  }

  /** ... nor anything a read under way relies on. */
  lemma TouchLeavesReader(cfg: Config, c: Chan, c': Chan, r: Reader, h: History, x: nat)
    requires cfg.Ok() && ChanOk(cfg, c) && ChanOk(cfg, c') && OnlyTouched(cfg, c, c', x)
    requires HistoryOk(cfg, h) && ReaderInv(cfg, c, r, h) && |h.log| <= x < h.posted
    requires ReaderOk(cfg, r)
    ensures ReaderInv(cfg, c', r, h)
  {
    if r.pc.RCopy? {
      ReadSlotIsPublished(cfg, h, r.pc.slot, r.pc.nSlots, r.pc.acc);
      SlotsDiffer(cfg, Consumed(h) + Ahead(r.pc.slot, Consumed(h)), x);
      assert c'.descs[cfg.At(r.pc.slot)] == c.descs[cfg.At(r.pc.slot)];
    } else if r.pc.RRefill? {
      TouchLeavesCapacity(cfg, c, c', x, h.posted, h.posted + Ahead(r.pc.head, h.posted));
    }
  }

  /** The slot a read works on is published and unconsumed. */
  lemma ReadSlotIsPublished(cfg: Config, h: History, slot: nat, nSlots: nat, acc: seq<u8>)
    requires cfg.Ok() && HistoryOk(cfg, h) && Ahead(slot, Consumed(h)) >= 0 && nSlots >= 1
    requires Reading(cfg, h, nSlots, acc, Ahead(slot, Consumed(h)))
    ensures Consumed(h) + Ahead(slot, Consumed(h)) < |h.log|
    ensures cfg.At(slot) == cfg.At(Consumed(h) + Ahead(slot, Consumed(h)))
  {
    LocalSlot(cfg, slot, Consumed(h));
    assert h.starts[h.seen] <= h.starts[|h.sent|];
  }

  lemma CopyKeeps(cfg: Config, s: Sys)
    requires Inv(cfg, s) && s.writer.WCopy?
    ensures Inv(cfg, Next(cfg, s, WriterStep))
  {
    hide ReaderInv, WindowOk, Logged, Delivered;
    var w, w0, c := s.writer, |s.h.log|, s.chan;
    var i := Ahead(w.slot, w0);
    LocalSlot(cfg, w.slot, w0);
    var (c', w') := WStep(cfg, c, w);
    assert OnlyTouched(cfg, c, c', w0 + i);
    TouchLeavesWindow(cfg, c, c', s.h, w0 + i);
    TouchLeavesReader(cfg, c, c', s.reader, s.h, w0 + i);
    CopyFills(cfg, c, s.h, w);
  }

  lemma CopyFills(cfg: Config, c: Chan, h: History, w: Writer)
    requires cfg.Ok() && ChanOk(cfg, c) && WriterOk(cfg, w) && w.WCopy? && WriterInv(cfg, c, w, h)
    requires Consumed(h) <= |h.log| && h.posted <= Consumed(h) + cfg.Size()
    ensures WriterInv(cfg, WStep(cfg, c, w).0, WStep(cfg, c, w).1, h)
  {
    hide Working, Filled, PutSoFar, CapacityOk;
    LocalSlot(cfg, w.slot, |h.log|);
    FillBuffer(cfg, c, h, w.pkt, w.nFree, w.n, Ahead(w.slot, |h.log|), w.desc);
  }

  lemma FillBuffer(cfg: Config, c: Chan, h: History, pkt: seq<u8>, nFree: nat, n: nat, i: nat, desc: Desc)
    requires cfg.Ok() && ChanOk(cfg, c) && Working(cfg, c, h, pkt, nFree, n, i) && desc.flags == 0
    requires Consumed(h) <= |h.log| && h.posted <= Consumed(h) + cfg.Size()
    ensures var chunk, t := Chunk(cfg.corrected, pkt, n, cfg.bufferSize), cfg.At(|h.log| + i);
            var c' := SetBuf(c, t, Overwrite(c.bufs[t], chunk));
            ChanOk(cfg, c') && Filled(cfg, c', h, pkt, nFree, n + |chunk|, i, desc.(length := |chunk|))
  {
    var chunk, t := Chunk(cfg.corrected, pkt, n, cfg.bufferSize), cfg.At(|h.log| + i);
    var c' := SetBuf(c, t, Overwrite(c.bufs[t], chunk));
    assert chunk == CellOf(cfg, pkt, i).bytes;
    TouchLeavesPut(cfg, c, c', |h.log| + i, |h.log|, pkt, i);
  }

  lemma PutKeeps(cfg: Config, s: Sys)
    requires Inv(cfg, s) && s.writer.WPut?
    ensures Inv(cfg, Next(cfg, s, WriterStep))
  {
    hide ReaderInv, WindowOk, Logged, Delivered;
    var w, w0, c := s.writer, |s.h.log|, s.chan;
    var i := Ahead(w.slot, w0);
    LocalSlot(cfg, w.slot, w0);
    var (c', w') := WStep(cfg, c, w);
    assert OnlyTouched(cfg, c, c', w0 + i);
    TouchLeavesWindow(cfg, c, c', s.h, w0 + i);
    TouchLeavesReader(cfg, c, c', s.reader, s.h, w0 + i);
    PutAdvances(cfg, c, s.h, w);
  }

  lemma PutAdvances(cfg: Config, c: Chan, h: History, w: Writer)
    requires cfg.Ok() && ChanOk(cfg, c) && WriterOk(cfg, w) && w.WPut? && WriterInv(cfg, c, w, h)
    requires Consumed(h) <= |h.log| && h.posted <= Consumed(h) + cfg.Size()
    ensures WriterInv(cfg, WStep(cfg, c, w).0, WStep(cfg, c, w).1, h)
  {
    var w0 := |h.log|;
    var i := Ahead(w.slot, w0);
    LocalSlot(cfg, w.slot, w0);
    LastCell(cfg, w.pkt, i);
    if w.n >= |w.pkt| {
      PutCell(cfg, c, SetDesc(c, cfg.At(w0 + i), w.desc), w0, w.pkt, i, h.posted, w.desc);
    } else if w.nFree > 1 {
      PutMore(cfg, c, h, w.pkt, w.nFree, w.n, i, w.desc);
      assert Ahead(w.slot + 1, w0) == i + 1;
    }
  }

  /** A chained descriptor is as long as its buffer, so the slot keeps its capacity even if the
      write is given up later. */
  lemma PutMore(cfg: Config, c: Chan, h: History, pkt: seq<u8>, nFree: nat, n: nat, i: nat, desc: Desc)
    requires cfg.Ok() && ChanOk(cfg, c) && Filled(cfg, c, h, pkt, nFree, n, i, desc)
    requires DescOk(cfg, cfg.At(|h.log| + i), desc) && n < |pkt| && nFree > 1
    requires Consumed(h) <= |h.log| && h.posted <= Consumed(h) + cfg.Size()
    ensures var c' := SetDesc(c, cfg.At(|h.log| + i), desc.(flags := DESC_FLAG_NEXT));
            ChanOk(cfg, c') && Working(cfg, c', h, pkt, nFree - 1, n, i + 1)
  {
    LastCell(cfg, pkt, i);
    var d := desc.(flags := DESC_FLAG_NEXT);
    var c' := SetDesc(c, cfg.At(|h.log| + i), d);
    PutCell(cfg, c, c', |h.log|, pkt, i, h.posted, d);
    TouchLeavesCapacity(cfg, c, c', |h.log| + i, |h.log|, h.posted);
  }

  /** Storing the descriptor of a filled buffer completes the i-th cell. */
  lemma PutCell(cfg: Config, c: Chan, c': Chan, w0: nat, pkt: seq<u8>, i: nat, posted: nat, d: Desc)
    requires cfg.Ok() && ChanOk(cfg, c) && ChanOk(cfg, c') && c' == SetDesc(c, cfg.At(w0 + i), d)
    requires PutSoFar(cfg, c, w0, pkt, i) && CapacityOk(cfg, c, w0, posted)
    requires w0 + i < posted <= w0 + cfg.Size()
    requires HasNext(d) == CellOf(cfg, pkt, i).next && d.length == |CellOf(cfg, pkt, i).bytes|
    requires c.bufs[cfg.At(w0 + i)][..d.length] == CellOf(cfg, pkt, i).bytes
    ensures PutSoFar(cfg, c', w0, pkt, i + 1)
    ensures CapacityOk(cfg, c', w0 + i + 1, posted)
    ensures OnlyTouched(cfg, c, c', w0 + i)
  {
    TouchLeavesPut(cfg, c, c', w0 + i, w0, pkt, i);
    assert CellAt(c', cfg.At(w0 + i)) == CellOf(cfg, pkt, i);
    TouchLeavesCapacity(cfg, c, c', w0 + i, w0 + i + 1, posted);
  }

  lemma PublishKeeps(cfg: Config, s: Sys)
    requires Inv(cfg, s) && s.writer.WPublish?
    ensures Inv(cfg, Next(cfg, s, WriterStep))
  {
    var w, c, h := s.writer, s.chan, s.h;
    var (c', _) := WStep(cfg, c, w);
    var h' := AfterWriterStep(cfg, h, w);
    LocalSlot(cfg, w.slot, |h.log|);
    PublishKeepsHistory(cfg, h, w);
    PublishExtendsWindow(cfg, c, c', h, w);
    PublishLeavesReader(cfg, c, c', s.reader, h, w);
  }

  lemma PublishExtendsWindow(cfg: Config, c: Chan, c': Chan, h: History, w: Writer)
    requires cfg.Ok() && ChanOk(cfg, c) && ChanOk(cfg, c') && c'.descs == c.descs && c'.bufs == c.bufs
    requires w.WPublish? && WindowOk(cfg, c, h)
    requires PutSoFar(cfg, c, |h.log|, w.pkt, CellCount(|w.pkt|, cfg.bufferSize))
    requires Consumed(AfterWriterStep(cfg, h, w)) == Consumed(h)
    ensures WindowOk(cfg, c', AfterWriterStep(cfg, h, w))
  {
    var h' := AfterWriterStep(cfg, h, w);
    forall k | Consumed(h) <= k < |h'.log| ensures CellAt(c', cfg.At(k)) == h'.log[k] {
      if k >= |h.log| {
        assert CellAt(c, cfg.At(|h.log| + (k - |h.log|))) == CellOf(cfg, w.pkt, k - |h.log|);
      }
    }
  }

  lemma PublishLeavesReader(cfg: Config, c: Chan, c': Chan, r: Reader, h: History, w: Writer)
    requires cfg.Ok() && ChanOk(cfg, c) && ChanOk(cfg, c') && c'.descs == c.descs && c'.bufs == c.bufs
    requires w.WPublish? && HistoryOk(cfg, h) && ReaderInv(cfg, c, r, h)
    requires HistoryOk(cfg, AfterWriterStep(cfg, h, w))
    ensures ReaderInv(cfg, c', r, AfterWriterStep(cfg, h, w))
  {
  }

  lemma PublishKeepsHistory(cfg: Config, h: History, w: Writer)
    requires cfg.Ok() && HistoryOk(cfg, h) && w.WPublish?
    requires |h.log| + CellCount(|w.pkt|, cfg.bufferSize) <= h.posted
    ensures HistoryOk(cfg, AfterWriterStep(cfg, h, w))
    ensures Consumed(AfterWriterStep(cfg, h, w)) == Consumed(h)
  {
    var h' := AfterWriterStep(cfg, h, w);
    forall i | 0 <= i < |h'.sent| ensures PacketLogged(cfg, h'.sent, h'.starts, h'.log, i) {
      if i < |h.sent| {
        assert PacketLogged(cfg, h.sent, h.starts, h.log, i);
      }
    }
  }

  // ------------------------------------------------------------ the reader's steps

  lemma CallReadKeeps(cfg: Config, s: Sys)
    requires Inv(cfg, s)
    ensures Inv(cfg, Next(cfg, s, CallRead))
  {
    hide HistoryOk, IndicesOk, WindowOk, WriterInv, ChanOk;
    if s.reader.pc.RIdle? {
      SeeAll(cfg, s.chan, s.writer, s.reader.last, s.h);
      CountUnread(cfg, s.chan, s.reader.last, s.h.(seen := |s.h.sent|));
    }
  }

  lemma SeeAll(cfg: Config, c: Chan, w: Writer, last: u16, h: History)
    requires cfg.Ok() && ChanOk(cfg, c) && HistoryOk(cfg, h) && IndicesOk(cfg, c, last, h)
    requires WindowOk(cfg, c, h) && WriterInv(cfg, c, w, h)
    ensures var h' := h.(seen := |h.sent|);
            HistoryOk(cfg, h') && IndicesOk(cfg, c, last, h') && WindowOk(cfg, c, h') && WriterInv(cfg, c, w, h')
  {
  }

  /** ReadPacket starts with exactly the published, unconsumed slots. */
  lemma CountUnread(cfg: Config, c: Chan, last: u16, h: History)
    requires cfg.Ok() && ChanOk(cfg, c) && HistoryOk(cfg, h) && IndicesOk(cfg, c, last, h)
    requires h.seen == |h.sent|
    ensures ReaderInv(cfg, c, RStart(cfg, c, last), h)
    ensures |h.delivered| < |h.sent| ==> RStart(cfg, c, last).pc == RFetch(last, |h.log| - Consumed(h), [])
  {
    UnreadStart(cfg, c, last, h);
    hide ChanOk, U16, Pow2, RStart;
    var k := |h.delivered|;
    if k < |h.sent| {
      assert PacketLogged(cfg, h.sent, h.starts, h.log, k);
    }
  }

  lemma UnreadStart(cfg: Config, c: Chan, last: u16, h: History)
    requires cfg.Ok() && IndicesOk(cfg, c, last, h) && 0 <= |h.log| - Consumed(h) <= cfg.Size()
    ensures var n := |h.log| - Consumed(h);
            RStart(cfg, c, last) == Reader(last, if n == 0 then RRelease(last, []) else RFetch(last, n, []))
  {
    hide Consumed, Pow2;
    SizeFits(cfg);
    WrappedDifference(|h.log|, Consumed(h));
  }

  lemma ReadFetchKeeps(cfg: Config, s: Sys)
    requires Inv(cfg, s) && s.reader.pc.RFetch?
    ensures Inv(cfg, Next(cfg, s, ReaderStep))
  {
  }

  lemma ReadCopyKeeps(cfg: Config, s: Sys)
    requires Inv(cfg, s) && s.reader.pc.RCopy?
    ensures Inv(cfg, Next(cfg, s, ReaderStep))
  {
    ReadCopyAdvances(cfg, s.chan, s.reader, s.h);
  }

  /** Copying out the j-th cell appends its bytes; the chain flag tells the last cell, and the
      unread count never runs out inside a packet. */
  lemma ReadCopyAdvances(cfg: Config, c: Chan, r: Reader, h: History)
    requires cfg.Ok() && ChanOk(cfg, c) && HistoryOk(cfg, h) && WindowOk(cfg, c, h)
    requires ReaderOk(cfg, r) && r.pc.RCopy? && ReaderInv(cfg, c, r, h)
    ensures ReaderInv(cfg, RStep(cfg, c, r).0, RStep(cfg, c, r).1, h)
    ensures !RStep(cfg, c, r).1.pc.RIncomplete?
  {
    var k, j := |h.delivered|, Ahead(r.pc.slot, Consumed(h));
    ReadSlotIsPublished(cfg, h, r.pc.slot, r.pc.nSlots, r.pc.acc);
    assert PacketLogged(cfg, h.sent, h.starts, h.log, k);
    assert CellAt(c, cfg.At(Consumed(h) + j)) == h.log[Consumed(h) + j] == CellOf(cfg, h.sent[k], j);
    assert h.starts[k + 1] <= h.starts[h.seen];
    assert r.pc.acc + CellOf(cfg, h.sent[k], j).bytes == Joined(cfg, h.sent[k], j + 1);
  }

  lemma ReleaseKeeps(cfg: Config, s: Sys)
    requires Inv(cfg, s) && s.reader.pc.RRelease?
    ensures Inv(cfg, Next(cfg, s, ReaderStep))
  {
    hide HistoryOk, IndicesOk, ReaderInv, WriterInv, WindowOk, ChanOk;
    ReleaseStartsRefill(cfg, s.chan, s.reader, s.h);
    ReleaseFreesSlots(cfg, s.chan, Next(cfg, s, ReaderStep).chan, s.writer, s.h, AfterReaderStep(cfg, s.h, s.reader));
  }

  /** The slave refills exactly the slots between what it has posted and what it may post. */
  lemma ReleaseStartsRefill(cfg: Config, c: Chan, r: Reader, h: History)
    requires cfg.Ok() && ChanOk(cfg, c) && HistoryOk(cfg, h) && IndicesOk(cfg, c, r.last, h)
    requires ReaderOk(cfg, r) && r.pc.RRelease? && ReaderInv(cfg, c, r, h)
    ensures var h' := AfterReaderStep(cfg, h, r);
            var (c', r') := RStep(cfg, c, r);
            && HistoryOk(cfg, h') && ReaderInv(cfg, c', r', h') && IndicesOk(cfg, c', r'.last, h')
            && Consumed(h) <= Consumed(h') && c'.descs == c.descs && c'.bufs == c.bufs
            && (if cfg.dir.S2M? then h'.posted >= h.posted else h'.posted == h.posted)
  {
    hide HistoryOk, ChanOk;
    ReleaseKeepsHistory(cfg, c, r, h);
    if cfg.dir.M2S? {
      SizeFits(cfg);
      WrappedRoom(cfg.Size(), h.posted, Consumed(AfterReaderStep(cfg, h, r)));
    }
  }

  lemma ReleaseKeepsHistory(cfg: Config, c: Chan, r: Reader, h: History)
    requires cfg.Ok() && ChanOk(cfg, c) && HistoryOk(cfg, h) && r.pc.RRelease? && ReaderInv(cfg, c, r, h)
    requires r.last == Consumed(h) % 0x1_0000
    requires cfg.dir.S2M? ==> h.posted == Consumed(h) + cfg.Size()
    ensures var h' := AfterReaderStep(cfg, h, r);
            && HistoryOk(cfg, h')
            && Consumed(h) <= Consumed(h') <= h'.posted <= Consumed(h') + cfg.Size()
            && U16(r.pc.slot) == Consumed(h') % 0x1_0000
  {
    hide ChanOk, WindowOk, Payload;
    var h' := AfterReaderStep(cfg, h, r);
    var k := |h.delivered|;
    if r.pc.packets != [] {
      assert PacketLogged(cfg, h.sent, h.starts, h.log, k);
      LocalSlot(cfg, r.pc.slot, Consumed(h));
    } else {
      assert h.delivered + r.pc.packets == h.delivered;
    }
  }

  lemma ReleaseFreesSlots(cfg: Config, c: Chan, c': Chan, w: Writer, h: History, h': History)
    requires cfg.Ok() && ChanOk(cfg, c) && ChanOk(cfg, c') && c'.descs == c.descs && c'.bufs == c.bufs
    requires WriterInv(cfg, c, w, h) && WindowOk(cfg, c, h)
    requires h'.log == h.log && Consumed(h) <= Consumed(h')
    requires if cfg.dir.S2M? then h'.posted >= h.posted else h'.posted == h.posted
    ensures WriterInv(cfg, c', w, h') && WindowOk(cfg, c', h')
  {
  }

  lemma RefillKeeps(cfg: Config, s: Sys)
    requires Inv(cfg, s) && s.reader.pc.RRefill? && s.reader.pc.left > 0
    ensures Inv(cfg, Next(cfg, s, ReaderStep))
  {
    var c, h, head := s.chan, s.h, s.reader.pc.head;
    var (c', _) := RStep(cfg, c, s.reader);
    var x := h.posted + Ahead(head, h.posted);
    LocalSlot(cfg, head, h.posted);
    assert OnlyTouched(cfg, c, c', x);
    TouchLeavesWindow(cfg, c, c', h, x);
    RefillLeavesWriter(cfg, c, c', s.writer, h, x);
    RefillAdvances(cfg, c, s.reader, h);
  }

  /** Storing the low 16 bits restores the whole length, because the high ones are zero. */
  lemma RefillAdvances(cfg: Config, c: Chan, r: Reader, h: History)
    requires cfg.Ok() && ChanOk(cfg, c) && HistoryOk(cfg, h) && ReaderOk(cfg, r)
    requires r.pc.RRefill? && r.pc.left > 0 && ReaderInv(cfg, c, r, h)
    ensures ReaderInv(cfg, RStep(cfg, c, r).0, RStep(cfg, c, r).1, h)
  {
    hide SetLow16;
    var x := h.posted + Ahead(r.pc.head, h.posted);
    LocalSlot(cfg, r.pc.head, h.posted);
    RefillIsWhole(cfg, c.descs[cfg.At(r.pc.head)].length);
    var c' := RStep(cfg, c, r).0;
    assert OnlyTouched(cfg, c, c', x);
    TouchLeavesCapacity(cfg, c, c', x, h.posted, x);
  }

  /** Ownership, reader's side: refilling a consumed, not yet reposted slot disturbs nothing the
      writer relies on. */
  lemma RefillLeavesWriter(cfg: Config, c: Chan, c': Chan, w: Writer, h: History, x: nat)
    requires cfg.Ok() && ChanOk(cfg, c) && ChanOk(cfg, c') && OnlyTouched(cfg, c, c', x)
    requires WriterInv(cfg, c, w, h) && WriterOk(cfg, w) && |h.log| <= h.posted <= x < |h.log| + cfg.Size()
    ensures WriterInv(cfg, c', w, h)
  {
    hide OnlyTouched, ChanOk, PutSoFar, CapacityOk, Working, Filled, CellOf;
    var w0 := |h.log|;
    match w
    case WIdle(_) => TouchLeavesCapacity(cfg, c, c', x, w0, h.posted);
    case WFetch(pkt, slot, nFree, n) => RefillLeavesWorking(cfg, c, c', x, h, pkt, nFree, n, Ahead(slot, w0));
    case WCopy(pkt, slot, nFree, n, _, _) => RefillLeavesWorking(cfg, c, c', x, h, pkt, nFree, n, Ahead(slot, w0));
    case WPut(pkt, slot, nFree, n, desc) =>
      RefillLeavesFilled(cfg, c, c', x, h, pkt, nFree, n, Ahead(slot, w0), desc);
    case WPublish(pkt, slot, n) =>
      TouchLeavesPut(cfg, c, c', x, w0, pkt, Ahead(slot, w0));
      TouchLeavesCapacity(cfg, c, c', x, w0 + Ahead(slot, w0), h.posted);
  }

  lemma RefillLeavesFilled(cfg: Config, c: Chan, c': Chan, x: nat, h: History,
                           pkt: seq<u8>, nFree: nat, n: nat, i: nat, desc: Desc)
    requires cfg.Ok() && ChanOk(cfg, c) && ChanOk(cfg, c') && OnlyTouched(cfg, c, c', x)
    requires Filled(cfg, c, h, pkt, nFree, n, i, desc) && h.posted <= x < |h.log| + cfg.Size()
    ensures Filled(cfg, c', h, pkt, nFree, n, i, desc)
  {
    SlotsDiffer(cfg, |h.log| + i, x);
    TouchLeavesPut(cfg, c, c', x, |h.log|, pkt, i);
    TouchLeavesCapacity(cfg, c, c', x, |h.log|, h.posted);
  }

  lemma RefillLeavesWorking(cfg: Config, c: Chan, c': Chan, x: nat, h: History,
                            pkt: seq<u8>, nFree: nat, n: nat, i: nat)
    requires cfg.Ok() && ChanOk(cfg, c) && ChanOk(cfg, c') && OnlyTouched(cfg, c, c', x)
    requires Working(cfg, c, h, pkt, nFree, n, i) && h.posted <= x < |h.log| + cfg.Size()
    ensures Working(cfg, c', h, pkt, nFree, n, i)
  {
    TouchLeavesPut(cfg, c, c', x, |h.log|, pkt, i);
    TouchLeavesCapacity(cfg, c, c', x, |h.log|, h.posted);
  }

  lemma RepostKeeps(cfg: Config, s: Sys)
    requires Inv(cfg, s) && s.reader.pc.RRefill? && s.reader.pc.left == 0
    ensures Inv(cfg, Next(cfg, s, ReaderStep))
  {
    var c, h, head := s.chan, s.h, s.reader.pc.head;
    var h' := h.(posted := Consumed(h) + cfg.Size());
    LocalSlot(cfg, head, h.posted);
    assert h'.posted == h.posted + Ahead(head, h.posted);
    RepostGivesCapacity(cfg, c, s.writer, h, h');
  }

  lemma RepostGivesCapacity(cfg: Config, c: Chan, w: Writer, h: History, h': History)
    requires cfg.Ok() && ChanOk(cfg, c) && WriterInv(cfg, c, w, h)
    requires h'.log == h.log && h.posted <= h'.posted && CapacityOk(cfg, c, h.posted, h'.posted)
    ensures WriterInv(cfg, c.(head := U16(h'.posted)), w, h')
  {
  }

  // ------------------------------------------------------------ whole runs

  lemma InitialInv(cfg: Config, s: Sys)
    requires cfg.Ok() && Initial(cfg, s)
    ensures Inv(cfg, s)
  {
  }

  lemma NextKeeps(cfg: Config, s: Sys, a: Action)
    requires Inv(cfg, s)
    ensures Inv(cfg, Next(cfg, s, a))
  {
    match a
    case SubmitPacket(pkt) => SubmitKeeps(cfg, s, pkt);
    case CallRead => CallReadKeeps(cfg, s);
    case WriterStep =>
      match s.writer {
        case WIdle(_) =>
        case WFetch(_, _, _, _) => FetchKeeps(cfg, s);
        case WCopy(_, _, _, _, _, _) => CopyKeeps(cfg, s);
        case WPut(_, _, _, _, _) => PutKeeps(cfg, s);
        case WPublish(_, _, _) => PublishKeeps(cfg, s);
      }
    case ReaderStep =>
      match s.reader.pc {
        case RFetch(_, _, _) => ReadFetchKeeps(cfg, s);
        case RCopy(_, _, _, _) => ReadCopyKeeps(cfg, s);
        case RRelease(_, _) => ReleaseKeeps(cfg, s);
        case RRefill(_, left, _) => if left > 0 { RefillKeeps(cfg, s); } else { RepostKeeps(cfg, s); }
        case _ =>
      }
  }

  lemma {:induction false} RunKeeps(cfg: Config, s: Sys, actions: seq<Action>)
    requires Inv(cfg, s)
    ensures Inv(cfg, Run(cfg, s, actions))
    decreases |actions|
  {
    if actions != [] {
      NextKeeps(cfg, s, actions[0]);
      RunKeeps(cfg, Next(cfg, s, actions[0]), actions[1..]);
    }
  }
}
