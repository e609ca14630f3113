/** What the two peers of a ring achieve together: a first-in first-out channel of packets. */
module Fifo {
  import opened Bits
  import opened Ring
  import opened RingSystem
  import opened RingInvariant

  // ------------------------------------------------------------ what a packet turns into

  lemma {:induction false} JoinedCorrected(cfg: Config, pkt: seq<u8>, j: nat)
    requires cfg.bufferSize > 0 && cfg.corrected
    ensures Joined(cfg, pkt, j) == pkt[..Min(j * cfg.bufferSize, |pkt|)]
  {
    if j > 0 {
      JoinedCorrected(cfg, pkt, j - 1);
      assert j * cfg.bufferSize == (j - 1) * cfg.bufferSize + cfg.bufferSize;
    }
  }

  lemma EnoughCells(len: nat, C: nat)
    requires C > 0
    ensures CellCount(len, C) * C >= len
    ensures CellCount(len, C) == 1 <==> len <= C
    ensures len > 0 ==> (CellCount(len, C) * C == len <==> len % C == 0)
  {
    if len > 0 {
      var q, r := (len - 1) / C, (len - 1) % C;
      assert len - 1 == q * C + r;
      assert (q + 1) * C == q * C + C;
      if q >= 1 { MulAtLeast(q, C); }
      if r == C - 1 {
        ModUnique(len, C, q + 1, 0);
      } else {
        ModUnique(len, C, q, r + 1);
      }
    }
  }

  /** With the corrected source slice, a packet of any length arrives unchanged. */
  lemma CorrectedPayload(cfg: Config, pkt: seq<u8>)
    requires cfg.bufferSize > 0 && cfg.corrected
    ensures Payload(cfg, pkt) == pkt
  {
    JoinedCorrected(cfg, pkt, CellCount(|pkt|, cfg.bufferSize));
    EnoughCells(|pkt|, cfg.bufferSize);
  }

  /** As written, every chunk of a long packet is its first buffer's worth again. */
  lemma {:induction false} JoinedAsWritten(cfg: Config, pkt: seq<u8>, j: nat)
    requires cfg.bufferSize > 0 && !cfg.corrected && cfg.bufferSize < |pkt|
    ensures |Joined(cfg, pkt, j)| == j * cfg.bufferSize
    ensures forall x :: 0 <= x < j * cfg.bufferSize ==> Joined(cfg, pkt, j)[x] == pkt[x % cfg.bufferSize]
  {
    if j > 0 {
      var C := cfg.bufferSize;
      JoinedAsWritten(cfg, pkt, j - 1);
      assert j * C == (j - 1) * C + C;
      forall x | (j - 1) * C <= x < j * C ensures x % C == x - (j - 1) * C {
        ModUnique(x, C, j - 1, x - (j - 1) * C);
      }
    }
  }

  /** As written, a packet arrives unchanged exactly when it fits one buffer, or happens to be its
      own first buffer's worth repeated a whole number of times; and the byte count that both
      calls return is the packet's length exactly when it fits one buffer or fills its last one. */
  lemma AsWrittenPayload(cfg: Config, pkt: seq<u8>)
    requires cfg.bufferSize > 0 && !cfg.corrected
    ensures Payload(cfg, pkt) == pkt <==>
            |pkt| <= cfg.bufferSize
            || (|pkt| % cfg.bufferSize == 0 && forall x :: 0 <= x < |pkt| ==> pkt[x] == pkt[x % cfg.bufferSize])
    ensures |Payload(cfg, pkt)| == |pkt| <==> |pkt| <= cfg.bufferSize || |pkt| % cfg.bufferSize == 0
    ensures |Payload(cfg, pkt)| >= |pkt|
  {
    var C, N := cfg.bufferSize, CellCount(|pkt|, cfg.bufferSize);
    EnoughCells(|pkt|, C);
    if |pkt| <= C {
      assert Joined(cfg, pkt, 1) == Joined(cfg, pkt, 0) + CellOf(cfg, pkt, 0).bytes;
      assert CellOf(cfg, pkt, 0).bytes == pkt;
    } else {
      JoinedAsWritten(cfg, pkt, N);
      if |pkt| % C == 0 {
        assert |Payload(cfg, pkt)| == |pkt|;
        if forall x :: 0 <= x < |pkt| ==> pkt[x] == pkt[x % C] {
          assert Payload(cfg, pkt) == pkt;
        }
      }
    }
  }

  // ------------------------------------------------------------ every run

  /** Refinement to a FIFO: after any interleaving whatever of the two peers, what was read is, in
      order, what the first packets sent turn into; and no read ever met an incomplete chain. */
  lemma FifoRefinement(cfg: Config, s: Sys, actions: seq<Action>)
    requires cfg.Ok() && Initial(cfg, s)
    ensures var t := Run(cfg, s, actions);
            && |t.h.delivered| <= |t.h.sent|
            && (forall i :: 0 <= i < |t.h.delivered| ==> t.h.delivered[i] == Payload(cfg, t.h.sent[i]))
            && !t.reader.pc.RIncomplete?
  {
    InitialInv(cfg, s);
    RunKeeps(cfg, s, actions);
  }

  /** The corrected writer, with packets of any length: what was read is a prefix of what was sent. */
  lemma FifoCorrected(cfg: Config, s: Sys, actions: seq<Action>)
    requires cfg.Ok() && cfg.corrected && Initial(cfg, s)
    ensures Run(cfg, s, actions).h.delivered <= Run(cfg, s, actions).h.sent
  {
    FifoRefinement(cfg, s, actions);
    var t := Run(cfg, s, actions);
    forall i | 0 <= i < |t.h.delivered| ensures t.h.delivered[i] == t.h.sent[i] {
      CorrectedPayload(cfg, t.h.sent[i]);
    }
  }

  /** The code as written, with packets that each fit one buffer: the same. */
  lemma FifoAsWritten(cfg: Config, s: Sys, actions: seq<Action>)
    requires cfg.Ok() && !cfg.corrected && Initial(cfg, s)
    requires forall p :: SubmitPacket(p) in actions ==> |p| <= cfg.bufferSize
    ensures Run(cfg, s, actions).h.delivered <= Run(cfg, s, actions).h.sent
  {
    FifoRefinement(cfg, s, actions);
    SentWereSubmitted(cfg, s, actions);
    var t := Run(cfg, s, actions);
    forall i | 0 <= i < |t.h.delivered| ensures t.h.delivered[i] == t.h.sent[i] {
      assert t.h.sent[i] in t.h.sent;
      AsWrittenPayload(cfg, t.h.sent[i]);
    }
  }

  /** The packet a write under way carries. */
  function InHand(w: Writer): seq<seq<u8>> {
    match w
    case WIdle(_) => []
    case WFetch(pkt, _, _, _) => [pkt]
    case WCopy(pkt, _, _, _, _, _) => [pkt]
    case WPut(pkt, _, _, _, _) => [pkt]
    case WPublish(pkt, _, _) => [pkt]
  }

  /** Nothing is sent that was not submitted. */
  lemma {:induction false} SentWereSubmitted(cfg: Config, s: Sys, actions: seq<Action>)
    requires cfg.Ok() && SysOk(cfg, s)
    ensures var t := Run(cfg, s, actions);
            forall p :: p in t.h.sent + InHand(t.writer) ==>
              p in s.h.sent + InHand(s.writer) || SubmitPacket(p) in actions
    decreases |actions|
  {
    if actions != [] {
      var s' := Next(cfg, s, actions[0]);
      SentWereSubmitted(cfg, s', actions[1..]);
      forall p | p in s'.h.sent + InHand(s'.writer)
        ensures p in s.h.sent + InHand(s.writer) || SubmitPacket(p) == actions[0]
      {
      }
    }
  }

  // ------------------------------------------------------------ whole calls

  /** The reader's steps until its call returns, while the writer rests. */
  ghost function FinishRead(cfg: Config, s: Sys): (t: Sys)
    requires cfg.Ok() && SysOk(cfg, s)
    decreases RPhase(s.reader), RMeasure(s.reader)
  {
    if s.reader.pc.RIdle? || s.reader.pc.RIncomplete? then s else FinishRead(cfg, Next(cfg, s, ReaderStep))
  }

  /** The writer's steps until its call returns, while the reader rests. */
  ghost function FinishWrite(cfg: Config, s: Sys): (t: Sys)
    requires cfg.Ok() && SysOk(cfg, s)
    decreases WMeasure(s.writer)
  {
    if s.writer.WIdle? then s else FinishWrite(cfg, Next(cfg, s, WriterStep))
  }

  /** FinishRead is what the sequential ReadPacket does. */
  lemma {:induction false} FinishReadIsReaderRun(cfg: Config, s: Sys)
    requires cfg.Ok() && SysOk(cfg, s)
    ensures var t := FinishRead(cfg, s);
            (t.chan, t.reader) == ReaderRun(cfg, s.chan, s.reader) && t.writer == s.writer && t.h.sent == s.h.sent
    decreases RPhase(s.reader), RMeasure(s.reader)
  {
    if !(s.reader.pc.RIdle? || s.reader.pc.RIncomplete?) {
      FinishReadIsReaderRun(cfg, Next(cfg, s, ReaderStep));
    }
  }

  /** FinishWrite is what the sequential WritePacket does. */
  lemma {:induction false} FinishWriteIsWriterRun(cfg: Config, s: Sys)
    requires cfg.Ok() && SysOk(cfg, s)
    ensures var t := FinishWrite(cfg, s);
            && (t.chan, t.writer) == WriterRun(cfg, s.chan, s.writer)
            && t.reader == s.reader && t.h.delivered == s.h.delivered
    decreases WMeasure(s.writer)
  {
    if !s.writer.WIdle? {
      FinishWriteIsWriterRun(cfg, Next(cfg, s, WriterStep));
    }
  }

  /** What the read call under way is going to return. */
  ghost function WillReturn(cfg: Config, s: Sys): seq<seq<u8>>
    requires Inv(cfg, s)
  {
    match s.reader.pc
    case RIdle(packets) => packets
    case RFetch(_, _, _) => [Payload(cfg, s.h.sent[|s.h.delivered|])]
    case RCopy(_, _, _, _) => [Payload(cfg, s.h.sent[|s.h.delivered|])]
    case RRelease(_, packets) => packets
    case RRefill(_, _, packets) => packets
    case RIncomplete => []
  }

  /** ... and whether it is already counted as delivered. */
  predicate Released(r: Reader) {
    r.pc.RIdle? || r.pc.RRefill?
  }

  lemma ReaderStepReturns(cfg: Config, s: Sys)
    requires Inv(cfg, s) && !s.reader.pc.RIdle?
    ensures var t := Next(cfg, s, ReaderStep);
            && Inv(cfg, t)
            && WillReturn(cfg, t) == WillReturn(cfg, s)
            && t.h.delivered == s.h.delivered
                                + (if Released(t.reader) && !Released(s.reader) then WillReturn(cfg, s) else [])
            && (Released(s.reader) ==> Released(t.reader))
            && (t.reader.pc.RIdle? ==> t.h.posted == Consumed(t.h) + cfg.Size())
  {
    hide WindowOk, ChanOk, WriterInv, Payload;
    NextKeeps(cfg, s, ReaderStep);
    if s.reader.pc.RCopy? {
      ReadCopyReturns(cfg, s.chan, s.reader, s.h);
    }
  }

  lemma ReadCopyReturns(cfg: Config, c: Chan, r: Reader, h: History)
    requires cfg.Ok() && ChanOk(cfg, c) && HistoryOk(cfg, h) && WindowOk(cfg, c, h)
    requires ReaderOk(cfg, r) && r.pc.RCopy? && ReaderInv(cfg, c, r, h)
    ensures var pc := RStep(cfg, c, r).1.pc;
            pc.RFetch? || (pc.RRelease? && pc.packets == [Payload(cfg, h.sent[|h.delivered|])])
  {
    ReadCopyAdvances(cfg, c, r, h);
  }

  lemma NeverIncomplete(cfg: Config, s: Sys)
    requires Inv(cfg, s)
    ensures !s.reader.pc.RIncomplete?
  {
  }

  lemma ReaderStepDecreases(cfg: Config, s: Sys)
    requires cfg.Ok() && SysOk(cfg, s) && !s.reader.pc.RIdle? && !s.reader.pc.RIncomplete?
    ensures var t := Next(cfg, s, ReaderStep).reader;
            RPhase(t) < RPhase(s.reader) || (RPhase(t) == RPhase(s.reader) && RMeasure(t) < RMeasure(s.reader))
  {
  }

  lemma {:induction false} FinishReadReturns(cfg: Config, s: Sys)
    requires Inv(cfg, s) && !s.reader.pc.RIdle?
    ensures var t := FinishRead(cfg, s);
            && Inv(cfg, t)
            && t.reader.pc == RIdle(WillReturn(cfg, s))
            && t.h.delivered == s.h.delivered + (if Released(s.reader) then [] else WillReturn(cfg, s))
            && t.h.posted == Consumed(t.h) + cfg.Size()
    decreases RPhase(s.reader), RMeasure(s.reader)
  {
    hide HistoryOk, ReaderInv, WriterInv, WindowOk, IndicesOk, ChanOk, WStep, RStep, AfterReaderStep;
    var s' := Next(cfg, s, ReaderStep);
    ReaderStepReturns(cfg, s);
    assert !s.reader.pc.RIncomplete? by { NeverIncomplete(cfg, s); }
    ReaderStepDecreases(cfg, s);
    if !s'.reader.pc.RIdle? {
      FinishReadReturns(cfg, s');
    }
  }

  /** ReadPacket, in any reachable state: it returns the oldest packet not yet read, if there is one,
      and in the M2S direction leaves head = lastTail + size, so that the master has every
      consumed buffer back. */
  lemma ReadReturnsOldest(cfg: Config, s: Sys)
    requires Inv(cfg, s) && s.reader.pc.RIdle?
    ensures var k := |s.h.delivered|;
            var (c, r) := ReaderRun(cfg, s.chan, RStart(cfg, s.chan, s.reader.last));
            && r.pc == RIdle(if k < |s.h.sent| then [Payload(cfg, s.h.sent[k])] else [])
            && r.last == (if k < |s.h.sent| then s.h.starts[k + 1] else s.h.starts[k]) % 0x1_0000
            && (cfg.dir.S2M? ==> c == s.chan.(tail := r.last))
            && (cfg.dir.M2S? ==> c.head == (r.last + cfg.Size()) % 0x1_0000 && c.tail == s.chan.tail)
  {
    hide WindowOk, WriterInv, ChanOk, Payload, IndicesOk, Delivered, PacketLogged, RStep;
    var s' := Next(cfg, s, CallRead);
    NextKeeps(cfg, s, CallRead);
    CountUnread(cfg, s'.chan, s'.reader.last, s'.h);
    FinishReadReturns(cfg, s');
    FinishReadIsReaderRun(cfg, s');
    FinishReadLeaves(cfg, s');
    ReadLeavesIndices(cfg, FinishRead(cfg, s'));
  }

  lemma ReadLeavesIndices(cfg: Config, t: Sys)
    requires cfg.Ok() && IndicesOk(cfg, t.chan, t.reader.last, t.h)
    requires t.h.posted == Consumed(t.h) + cfg.Size()
    ensures t.reader.last == Consumed(t.h) % 0x1_0000
    ensures cfg.dir.S2M? ==> t.chan.tail == t.reader.last
    ensures cfg.dir.M2S? ==> t.chan.head == (t.reader.last + cfg.Size()) % 0x1_0000
  {
    AddToWord(Consumed(t.h), cfg.Size());
  }

  lemma AddToWord(x: int, y: int)
    ensures (x % 0x1_0000 + y) % 0x1_0000 == (x + y) % 0x1_0000
  {
  }

  /** A read call touches nothing of the shared state but the reader's own index and, on the
      slave, descriptor lengths. */
  lemma {:induction false} FinishReadLeaves(cfg: Config, s: Sys)
    requires cfg.Ok() && SysOk(cfg, s)
    ensures var t := FinishRead(cfg, s);
            && (cfg.dir.S2M? ==> t.chan == s.chan.(tail := t.chan.tail))
            && (cfg.dir.M2S? ==> t.chan.tail == s.chan.tail && t.chan.bufs == s.chan.bufs)
            && t.h.starts == s.h.starts && t.h.sent == s.h.sent
    decreases RPhase(s.reader), RMeasure(s.reader)
  {
    if !(s.reader.pc.RIdle? || s.reader.pc.RIncomplete?) {
      FinishReadLeaves(cfg, Next(cfg, s, ReaderStep));
    }
  }

  /** How many slots the writer may fill now. */
  function Free(h: History): int {
    h.posted - |h.log|
  }

  /** Whether the write under way is going to publish. */
  ghost predicate WillSend(cfg: Config, w: Writer, h: History)
    requires cfg.Ok()
  {
    match w
    case WIdle(_) => false
    case WFetch(pkt, slot, nFree, _) => CellCount(|pkt|, cfg.bufferSize) <= Ahead(slot, |h.log|) + nFree
    case WCopy(pkt, slot, nFree, _, _, _) => CellCount(|pkt|, cfg.bufferSize) <= Ahead(slot, |h.log|) + nFree
    case WPut(pkt, slot, nFree, _, _) => CellCount(|pkt|, cfg.bufferSize) <= Ahead(slot, |h.log|) + nFree
    case WPublish(_, _, _) => true
  }

  lemma WriterStepSends(cfg: Config, c: Chan, w: Writer, h: History)
    requires cfg.Ok() && ChanOk(cfg, c) && WriterOk(cfg, w) && WriterInv(cfg, c, w, h) && !w.WIdle?
    ensures var (c', w') := WStep(cfg, c, w);
            && (!w'.WIdle? ==> WillSend(cfg, w', h) == WillSend(cfg, w, h) && InHand(w') == InHand(w) && !w.WPublish?)
            && (w'.WIdle? ==> w' == WIdle(if WillSend(cfg, w, h) then |Payload(cfg, InHand(w)[0])| else 0)
                              && (w.WPublish? <==> WillSend(cfg, w, h)))
            && (cfg.dir.M2S? ==> c'.head == c.head && (!w.WPublish? ==> c'.tail == c.tail))
            && (cfg.dir.S2M? ==> c'.tail == c.tail && (!w.WPublish? ==> c'.head == c.head))
  {
    if w.WPut? {
      LastCell(cfg, w.pkt, Ahead(w.slot, |h.log|));
    }
  }

  lemma {:induction false} FinishWriteSends(cfg: Config, s: Sys)
    requires Inv(cfg, s) && !s.writer.WIdle?
    ensures var t, sends := FinishWrite(cfg, s), WillSend(cfg, s.writer, s.h);
            && Inv(cfg, t)
            && t.writer == WIdle(if sends then |Payload(cfg, InHand(s.writer)[0])| else 0)
            && t.h == (if sends then Appended(cfg, s.h, InHand(s.writer)[0]) else s.h)
            && (cfg.dir.M2S? ==> t.chan.head == s.chan.head)
            && (cfg.dir.S2M? ==> t.chan.tail == s.chan.tail)
    decreases WMeasure(s.writer)
  {
    hide HistoryOk, ReaderInv, WriterInv, WindowOk, IndicesOk, ChanOk, WStep, RStep, WillSend, Payload;
    var s' := Next(cfg, s, WriterStep);
    NextKeeps(cfg, s, WriterStep);
    WriterStepSends(cfg, s.chan, s.writer, s.h);
    WriterStepDecreases(cfg, s.chan, s.writer);
    if !s'.writer.WIdle? {
      FinishWriteSends(cfg, s');
    }
  }

  lemma WriterStepDecreases(cfg: Config, c: Chan, w: Writer)
    requires cfg.Ok() && ChanOk(cfg, c) && WriterOk(cfg, w) && !w.WIdle?
    ensures WMeasure(WStep(cfg, c, w).1) < WMeasure(w)
  {
  }

  /** The history after pkt was published. */
  function Appended(cfg: Config, h: History, pkt: seq<u8>): History
    requires cfg.Ok()
  {
    AfterWriterStep(cfg, h, WPublish(pkt, 0, 0))
  }

  /** WritePacket, in any reachable state: it sends the packet exactly when the packet's buffers,
      ceil(len / C) of them for a nonempty one, are at most the free slots; it then advances its
      index by exactly that many and returns the byte count.  Otherwise it returns 0, neither
      index moves, every published cell still stands, and every free slot keeps its capacity. */
  lemma WriteSendsIffItFits(cfg: Config, s: Sys, pkt: seq<u8>)
    requires Inv(cfg, s) && s.writer.WIdle?
    ensures var N := CellCount(|pkt|, cfg.bufferSize);
            var (c, w) := WriterRun(cfg, s.chan, WStart(cfg, s.chan, pkt));
            && ChanOk(cfg, c)
            && (cfg.dir.S2M? ==> c.tail == s.chan.tail
                                 && c.head == (if N <= Free(s.h) then |s.h.log| + N else |s.h.log|) % 0x1_0000)
            && (cfg.dir.M2S? ==> c.head == s.chan.head
                                 && c.tail == (if N <= Free(s.h) then |s.h.log| + N else |s.h.log|) % 0x1_0000)
            && (N <= Free(s.h) ==> w == WIdle(|Payload(cfg, pkt)|) && WindowOk(cfg, c, Appended(cfg, s.h, pkt)))
            && (N > Free(s.h) ==> w == WIdle(0) && WindowOk(cfg, c, s.h) && CapacityOk(cfg, c, |s.h.log|, s.h.posted))
  {
    hide HistoryOk, ReaderInv, WindowOk, ChanOk, WStep, RStep, Payload;
    var s' := Next(cfg, s, SubmitPacket(pkt));
    NextKeeps(cfg, s, SubmitPacket(pkt));
    LimitsOk(cfg, s);
    CountFree(cfg, s.chan, s.reader.last, s.h, pkt);
    FinishWriteIsWriterRun(cfg, s');
    if !s'.writer.WIdle? {
      assert WillSend(cfg, s'.writer, s.h) <==> CellCount(|pkt|, cfg.bufferSize) <= Free(s.h);
      FinishWriteSends(cfg, s');
    }
  }

  lemma LimitsOk(cfg: Config, s: Sys)
    requires Inv(cfg, s)
    ensures Consumed(s.h) <= |s.h.log| <= s.h.posted <= Consumed(s.h) + cfg.Size()
  {
  }

  // ------------------------------------------------------------ ownership

  /** The slots the writer's next access touches, and those the reader's does. */
  function WriterTouches(cfg: Config, w: Writer): set<nat> {
    match w
    case WFetch(_, slot, _, _) => {cfg.At(slot)}
    case WCopy(_, slot, _, _, _, _) => {cfg.At(slot)}
    case WPut(_, slot, _, _, _) => {cfg.At(slot)}
    case _ => {}
  }

  function ReaderTouches(cfg: Config, r: Reader): set<nat> {
    match r.pc
    case RFetch(slot, _, _) => {cfg.At(slot)}
    case RCopy(slot, _, _, _) => {cfg.At(slot)}
    case RRefill(head, left, _) => if left > 0 then {cfg.At(head)} else {}
    case _ => {}
  }

  /** Slot t is posted and unpublished: the writer's. */
  ghost predicate IsFree(cfg: Config, h: History, t: nat) {
    exists x: nat :: |h.log| <= x < h.posted && cfg.At(x) == t
  }

  /** Slot t is published and unconsumed, or consumed and not posted again: the reader's. */
  ghost predicate IsReaders(cfg: Config, h: History, t: nat) {
    exists x: nat :: cfg.At(x) == t && (Consumed(h) <= x < |h.log| || h.posted <= x < Consumed(h) + cfg.Size())
  }

  /** Ownership: whenever both peers are about to touch a descriptor or a buffer, it is of different
      slots.  So taking a descriptor or buffer access as one step loses no behaviour. */
  lemma NoSlotIsContended(cfg: Config, s: Sys)
    requires Inv(cfg, s)
    ensures WriterTouches(cfg, s.writer) !! ReaderTouches(cfg, s.reader)
  {
    hide IsFree, IsReaders;
    WriterSlotIsFree(cfg, s.chan, s.writer, s.h);
    ReaderSlotIsNotFree(cfg, s.chan, s.reader, s.h);
  }

  /** The writer works on a posted, unpublished slot. */
  lemma WriterSlotIsFree(cfg: Config, c: Chan, w: Writer, h: History)
    requires cfg.Ok() && ChanOk(cfg, c) && WriterOk(cfg, w) && WriterInv(cfg, c, w, h)
    ensures forall t :: t in WriterTouches(cfg, w) ==> IsFree(cfg, h, t)
  {
    if WriterTouches(cfg, w) != {} {
      var slot := match w case WFetch(_, slot, _, _) => slot case WCopy(_, slot, _, _, _, _) => slot
                          case WPut(_, slot, _, _, _) => slot case _ => 0;
      LocalSlot(cfg, slot, |h.log|);
    }
  }

  /** The reader reads published, unconsumed slots and refills consumed ones not posted again. */
  lemma ReaderSlotIsNotFree(cfg: Config, c: Chan, r: Reader, h: History)
    requires cfg.Ok() && ChanOk(cfg, c) && ReaderOk(cfg, r) && HistoryOk(cfg, h) && ReaderInv(cfg, c, r, h)
    ensures forall t :: t in ReaderTouches(cfg, r) ==> IsReaders(cfg, h, t) && !IsFree(cfg, h, t)
  {
    hide ChanOk, HistoryOk, CapacityOk, IsReaders, IsFree, Reading, Config.At;
    match r.pc
    case RFetch(slot, nSlots, acc) => ReadSlotIsReaders(cfg, h, slot, nSlots, acc);
    case RCopy(slot, nSlots, acc, _) => ReadSlotIsReaders(cfg, h, slot, nSlots, acc);
    case RRefill(head, left, _) => if left > 0 { RefillSlotIsReaders(cfg, h, head, left); }
    case _ =>
  }

  lemma ReadSlotIsReaders(cfg: Config, h: History, slot: nat, nSlots: nat, acc: seq<u8>)
    requires cfg.Ok() && HistoryOk(cfg, h) && Ahead(slot, Consumed(h)) >= 0 && nSlots >= 1
    requires Reading(cfg, h, nSlots, acc, Ahead(slot, Consumed(h)))
    ensures IsReaders(cfg, h, cfg.At(slot)) && !IsFree(cfg, h, cfg.At(slot))
  {
    hide IsReaders, IsFree;
    ReadSlotIsPublished(cfg, h, slot, nSlots, acc);
    OnlyReaders(cfg, h, Consumed(h) + Ahead(slot, Consumed(h)));
  }

  lemma RefillSlotIsReaders(cfg: Config, h: History, head: nat, left: nat)
    requires cfg.Ok() && HistoryOk(cfg, h) && Ahead(head, h.posted) >= 0 && left > 0
    requires h.posted + Ahead(head, h.posted) + left == Consumed(h) + cfg.Size()
    ensures IsReaders(cfg, h, cfg.At(head)) && !IsFree(cfg, h, cfg.At(head))
  {
    hide IsReaders, IsFree, Logged, Delivered;
    LocalSlot(cfg, head, h.posted);
    OnlyReaders(cfg, h, h.posted + Ahead(head, h.posted));
  }

  lemma OnlyReaders(cfg: Config, h: History, x: nat)
    requires Consumed(h) <= x < |h.log| || h.posted <= x < Consumed(h) + cfg.Size()
    requires Consumed(h) <= |h.log| <= h.posted <= Consumed(h) + cfg.Size()
    ensures IsReaders(cfg, h, cfg.At(x)) && !IsFree(cfg, h, cfg.At(x))
  {
    hide Consumed, Config.At;
    OnlyThisSlot(cfg, x);
  }

  /** The master never writes past a buffer: the capacity it takes from a descriptor is the slave's
      buffer size, whatever was written, given up or refilled there before. */
  lemma MasterCapacity(cfg: Config, s: Sys)
    requires Inv(cfg, s) && cfg.dir.M2S? && s.writer.WFetch?
    ensures s.chan.descs[cfg.At(s.writer.slot)].length == cfg.bufferSize
  {
    LocalSlot(cfg, s.writer.slot, |s.h.log|);
  }

  /** Even over descriptors that nobody keeps in order: the master never stores beyond the length that a
      descriptor had when the call was entered. */
  lemma MasterStaysWithinLengths(cfg: Config, c: Chan, pkt: seq<u8>)
    requires cfg.Ok() && ChanOk(cfg, c) && cfg.dir.M2S?
    ensures var c' := WriterRun(cfg, c, WStart(cfg, c, pkt)).0;
            forall s, x :: 0 <= s < cfg.Size() && c.descs[s].length <= x < cfg.bufferSize ==>
              c'.bufs[s][x] == c.bufs[s][x]
  {
    RunStaysWithin(cfg, c, c, WStart(cfg, c, pkt));
  }

  ghost predicate Within(cfg: Config, c0: Chan, c: Chan)
    requires ChanOk(cfg, c0) && ChanOk(cfg, c)
  {
    && (forall s :: 0 <= s < cfg.Size() ==> c.descs[s].length <= c0.descs[s].length)
    && (forall s, x :: 0 <= s < cfg.Size() && c0.descs[s].length <= x < cfg.bufferSize ==>
          c.bufs[s][x] == c0.bufs[s][x])
  }

  ghost predicate WriterWithin(cfg: Config, c0: Chan, w: Writer)
    requires ChanOk(cfg, c0)
  {
    match w
    case WCopy(_, slot, _, _, _, cap) => cap <= c0.descs[cfg.At(slot)].length
    case WPut(_, slot, _, _, desc) => desc.length <= c0.descs[cfg.At(slot)].length
    case _ => true
  }

  lemma {:induction false} RunStaysWithin(cfg: Config, c0: Chan, c: Chan, w: Writer)
    requires cfg.Ok() && ChanOk(cfg, c0) && ChanOk(cfg, c) && WriterOk(cfg, w) && cfg.dir.M2S?
    requires Within(cfg, c0, c) && WriterWithin(cfg, c0, w)
    ensures Within(cfg, c0, WriterRun(cfg, c, w).0)
    decreases WMeasure(w)
  {
    hide Within;
    if !w.WIdle? {
      var (c', w') := WStep(cfg, c, w);
      StepStaysWithin(cfg, c0, c, w);
      WriterStepDecreases(cfg, c, w);
      RunStaysWithin(cfg, c0, c', w');
    }
  }

  lemma StepStaysWithin(cfg: Config, c0: Chan, c: Chan, w: Writer)
    requires cfg.Ok() && ChanOk(cfg, c0) && ChanOk(cfg, c) && WriterOk(cfg, w) && cfg.dir.M2S?
    requires Within(cfg, c0, c) && WriterWithin(cfg, c0, w)
    ensures var (c', w') := WStep(cfg, c, w);
            Within(cfg, c0, c') && WriterWithin(cfg, c0, w')
  {
  }

  /** The slave's 16-bit store restores a length for sure exactly when the buffer size fits 16 bits. */
  lemma RefillRestores(bufferSize: u32)
    ensures (forall old32: u32 :: old32 <= bufferSize ==> SetLow16(old32, bufferSize) == bufferSize)
       <==> bufferSize < 0x1_0000
  {
    if bufferSize >= 0x1_0000 {
      assert SetLow16(0, bufferSize) != bufferSize;
    }
  }
}
