/** What one call of ReadPacket or WritePacket does while the peer goes on: from the step that enters the
    call, through any actions of either peer, to the step that returns. */
module Calls {
  import opened Bits
  import opened Ring
  import opened RingSystem
  import opened RingInvariant
  import opened Fifo
  import Queues

  // ------------------------------------------------------------ reads

  /** The read call under way returns with the last of these actions. */
  ghost predicate ReadEnds(cfg: Config, s: Sys, actions: seq<Action>)
    requires cfg.Ok() && SysOk(cfg, s)
    decreases |actions|
  {
    if actions == [] then s.reader.pc.RIdle?
    else !s.reader.pc.RIdle? && ReadEnds(cfg, Next(cfg, s, actions[0]), actions[1..])
  }

  /** Nothing that either peer does changes what the read under way is going to return. */
  lemma ActionKeepsRead(cfg: Config, s: Sys, a: Action)
    requires Inv(cfg, s) && !s.reader.pc.RIdle?
    ensures var t := Next(cfg, s, a);
            && Inv(cfg, t)
            && WillReturn(cfg, t) == WillReturn(cfg, s)
            && t.h.delivered == s.h.delivered
                                + (if Released(t.reader) && !Released(s.reader) then WillReturn(cfg, s) else [])
            && (Released(s.reader) ==> Released(t.reader))
            && (t.reader.pc.RIdle? ==> t.h.posted == Consumed(t.h) + cfg.Size())
  {
    hide WindowOk, ChanOk, WriterInv, Payload;
    if a.ReaderStep? {
      ReaderStepReturns(cfg, s);
    } else {
      NextKeeps(cfg, s, a);
    }
  }

  lemma {:induction false} ReadUnderWay(cfg: Config, s: Sys, actions: seq<Action>)
    requires Inv(cfg, s) && !s.reader.pc.RIdle? && ReadEnds(cfg, s, actions)
    ensures var t := Run(cfg, s, actions);
            && Inv(cfg, t)
            && t.reader.pc == RIdle(WillReturn(cfg, s))
            && t.h.delivered == s.h.delivered + (if Released(s.reader) then [] else WillReturn(cfg, s))
            && t.h.posted == Consumed(t.h) + cfg.Size()
    decreases |actions|
  {
    hide HistoryOk, IndicesOk, WindowOk, WriterInv, ReaderInv, ChanOk, WriterOk, ReaderOk, Next, WillReturn;
    var s' := Next(cfg, s, actions[0]);
    ActionKeepsRead(cfg, s, actions[0]);
    if actions[1..] == [] {
      assert Run(cfg, s', []) == s';
      assert WillReturn(cfg, s') == s'.reader.pc.packets by { IdleReturns(cfg, s'); }
    } else {
      ReadUnderWay(cfg, s', actions[1..]);
    }
  }

  lemma IdleReturns(cfg: Config, s: Sys)
    requires Inv(cfg, s) && s.reader.pc.RIdle?
    ensures WillReturn(cfg, s) == s.reader.pc.packets
  {
  }

  /** ReadPacket in any reachable state, whatever the peer does meanwhile: the call hands out the packet
      that was the oldest unread one when it was entered, or nothing exactly if there was none
      then. It moves the reader's index past exactly that packet, and on the slave ends with
      head = lastTail + size: the master has every consumed buffer back. */
  lemma EveryReadReturnsOldest(cfg: Config, s: Sys, actions: seq<Action>)
    requires Inv(cfg, s) && s.reader.pc.RIdle? && ReadEnds(cfg, Next(cfg, s, CallRead), actions)
    ensures var k, t := |s.h.delivered|, Run(cfg, Next(cfg, s, CallRead), actions);
            var packets := if k < |s.h.sent| then [Payload(cfg, s.h.sent[k])] else [];
            && t.reader.pc == RIdle(packets) && t.h.delivered == s.h.delivered + packets
            && t.reader.last == Consumed(t.h) % 0x1_0000
            && (cfg.dir.S2M? ==> t.chan.tail == t.reader.last)
            && (cfg.dir.M2S? ==> t.chan.head == (t.reader.last + cfg.Size()) % 0x1_0000)
  {
    var s' := Next(cfg, s, CallRead);
    EnterRead(cfg, s);
    ReadUnderWay(cfg, s', actions);
    ReadLeavesIndices(cfg, Run(cfg, s', actions));
  }

  lemma EnterRead(cfg: Config, s: Sys)
    requires Inv(cfg, s) && s.reader.pc.RIdle?
    ensures var k, s' := |s.h.delivered|, Next(cfg, s, CallRead);
            && Inv(cfg, s') && !s'.reader.pc.RIdle? && !Released(s'.reader) && s'.h.delivered == s.h.delivered
            && WillReturn(cfg, s') == if k < |s.h.sent| then [Payload(cfg, s.h.sent[k])] else []
  {
    hide ChanOk, Payload;
    NextKeeps(cfg, s, CallRead);
    CountUnread(cfg, s.chan, s.reader.last, s.h.(seen := |s.h.sent|));
  }

  // ------------------------------------------------------------ writes

  /** The write call under way, if any, returns with the last of these actions. */
  ghost predicate WriteEnds(cfg: Config, s: Sys, actions: seq<Action>)
    requires cfg.Ok() && SysOk(cfg, s)
    decreases |actions|
  {
    if actions == [] then s.writer.WIdle?
    else !s.writer.WIdle? && WriteEnds(cfg, Next(cfg, s, actions[0]), actions[1..])
  }

  /** What was ever published. */
  function Published(h: History): (seq<seq<u8>>, seq<nat>, seq<Cell>) {
    (h.sent, h.starts, h.log)
  }

  /** What is published when the write under way has ended. */
  ghost function Outcome(cfg: Config, w: Writer, h: History): (seq<seq<u8>>, seq<nat>, seq<Cell>)
    requires cfg.Ok()
  {
    if WillSend(cfg, w, h) then Published(Appended(cfg, h, InHand(w)[0])) else Published(h)
  }

  /** Nothing that either peer does changes whether the write under way is going to publish. */
  lemma ActionKeepsWrite(cfg: Config, s: Sys, a: Action)
    requires Inv(cfg, s) && !s.writer.WIdle?
    ensures var t := Next(cfg, s, a);
            && Inv(cfg, t)
            && (!t.writer.WIdle? ==> InHand(t.writer) == InHand(s.writer)
                                     && WillSend(cfg, t.writer, t.h) == WillSend(cfg, s.writer, s.h)
                                     && Published(t.h) == Published(s.h))
            && (t.writer.WIdle? ==> Published(t.h) == Outcome(cfg, s.writer, s.h)
                                    && t.writer == WIdle(if WillSend(cfg, s.writer, s.h)
                                                         then |Payload(cfg, InHand(s.writer)[0])| else 0))
  {
    hide HistoryOk, WindowOk, ReaderInv, ChanOk, WStep, RStep, WriterInv, Payload;
    NextKeeps(cfg, s, a);
    if a.WriterStep? {
      WriterStepSends(cfg, s.chan, s.writer, s.h);
    }
  }

  lemma {:induction false} WriteUnderWay(cfg: Config, s: Sys, actions: seq<Action>)
    requires Inv(cfg, s) && !s.writer.WIdle? && WriteEnds(cfg, s, actions)
    ensures var t := Run(cfg, s, actions);
            && Inv(cfg, t)
            && t.writer == WIdle(if WillSend(cfg, s.writer, s.h) then |Payload(cfg, InHand(s.writer)[0])| else 0)
            && Published(t.h) == Outcome(cfg, s.writer, s.h)
    decreases |actions|
  {
    hide HistoryOk, IndicesOk, WindowOk, WriterInv, ReaderInv, ChanOk, WriterOk, ReaderOk, Next, WillSend, Payload;
    var s' := Next(cfg, s, actions[0]);
    ActionKeepsWrite(cfg, s, actions[0]);
    if actions[1..] == [] {
      assert Run(cfg, s', []) == s';
    } else {
      WriteUnderWay(cfg, s', actions[1..]);
    }
  }

  /** WritePacket in any reachable state, whatever the peer does meanwhile: it publishes the packet exactly
      if its buffers, ceil(len / C) of them for a nonempty one, are at most the slots free when it was
      entered. Then its index moves by exactly that many, and it returns the byte count; otherwise it
      returns 0 and neither its index nor anything published has changed. Either way every unread cell
      stands and every free slot offers its whole capacity. */
  lemma EveryWriteSendsIffItFits(cfg: Config, s: Sys, pkt: seq<u8>, actions: seq<Action>)
    requires Inv(cfg, s) && s.writer.WIdle? && WriteEnds(cfg, Next(cfg, s, SubmitPacket(pkt)), actions)
    ensures var fits := CellCount(|pkt|, cfg.bufferSize) <= Free(s.h);
            var t := Run(cfg, Next(cfg, s, SubmitPacket(pkt)), actions);
            && SysOk(cfg, t)
            && t.writer == WIdle(if fits then |Payload(cfg, pkt)| else 0)
            && Published(t.h) == Published(if fits then Appended(cfg, s.h, pkt) else s.h)
            && t.h.sent == (if fits then s.h.sent + [pkt] else s.h.sent)
            && (if cfg.dir.M2S? then t.chan.tail else t.chan.head) == |t.h.log| % 0x1_0000
            && |t.h.log| == (if fits then |s.h.log| + CellCount(|pkt|, cfg.bufferSize) else |s.h.log|)
            && WindowOk(cfg, t.chan, t.h) && CapacityOk(cfg, t.chan, |t.h.log|, t.h.posted)
  {
    hide Payload;
    var s' := Next(cfg, s, SubmitPacket(pkt));
    EnterWrite(cfg, s, pkt);
    if s'.writer.WIdle? {
      assert Run(cfg, s', actions) == s';
    } else {
      WriteUnderWay(cfg, s', actions);
    }
    WriterRests(cfg, Run(cfg, s', actions));
  }

  lemma WriterRests(cfg: Config, t: Sys)
    requires Inv(cfg, t) && t.writer.WIdle?
    ensures (if cfg.dir.M2S? then t.chan.tail else t.chan.head) == |t.h.log| % 0x1_0000
    ensures WindowOk(cfg, t.chan, t.h) && CapacityOk(cfg, t.chan, |t.h.log|, t.h.posted)
  {
  }

  lemma EnterWrite(cfg: Config, s: Sys, pkt: seq<u8>)
    requires Inv(cfg, s) && s.writer.WIdle?
    ensures var s' := Next(cfg, s, SubmitPacket(pkt));
            && Inv(cfg, s') && s'.h == s.h
            && (s'.writer.WIdle? ==> s'.writer == WIdle(0) && Free(s.h) == 0)
            && (!s'.writer.WIdle? ==> InHand(s'.writer) == [pkt])
            && (!s'.writer.WIdle? ==>
                  (WillSend(cfg, s'.writer, s.h) <==> CellCount(|pkt|, cfg.bufferSize) <= Free(s.h)))
  {
    hide WindowOk, ReaderInv, ChanOk, WStep, RStep;
    NextKeeps(cfg, s, SubmitPacket(pkt));
    LimitsOk(cfg, s);
    CountFree(cfg, s.chan, s.reader.last, s.h, pkt);
  }

  // ------------------------------------------------------------ slices too short

  /** j cells into a packet of N, the read panics exactly if there is a further cell and the last one begins
      beyond the caller's slice. */
  lemma {:induction false} OverrunsFrom(cfg: Config, c: Chan, h: History,
                                        slot: nat, nSlots: nat, acc: seq<u8>, room: nat)
    requires cfg.Ok() && ChanOk(cfg, c) && HistoryOk(cfg, h) && WindowOk(cfg, c, h) && nSlots > 0
    requires Ahead(slot, Consumed(h)) >= 0 && Reading(cfg, h, nSlots, acc, Ahead(slot, Consumed(h)))
    ensures var j, C := Ahead(slot, Consumed(h)), cfg.bufferSize;
            var N := CellCount(|h.sent[|h.delivered|]|, C);
            Queues.Overruns(cfg, c, slot, nSlots, j * C, room) <==> j + 1 < N && (N - 1) * C > room
    decreases nSlots
  {
    var j, C := Ahead(slot, Consumed(h)), cfg.bufferSize;
    var pkt := h.sent[|h.delivered|];
    var N := CellCount(|pkt|, C);
    CellIsThere(cfg, c, h, slot, nSlots, acc);
    hide WindowOk, CellOf, Joined, Logged, Delivered, CellCount;
    if j + 1 < N {
      FullCell(cfg, pkt, j);
      OverrunsFrom(cfg, c, h, slot + 1, nSlots - 1, Joined(cfg, pkt, j + 1), room);
      BeyondLast(j, N, C, room);
    }
  }

  lemma FullCell(cfg: Config, pkt: seq<u8>, j: nat)
    requires cfg.Ok() && j + 1 < CellCount(|pkt|, cfg.bufferSize)
    ensures j * cfg.bufferSize + |CellOf(cfg, pkt, j).bytes| == (j + 1) * cfg.bufferSize
  {
    CellsBefore(|pkt|, cfg.bufferSize, j);
    LastCell(cfg, pkt, j);
  }

  lemma BeyondLast(j: nat, N: nat, C: nat, room: nat)
    requires j + 1 < N
    ensures ((j + 1) * C > room || (j + 2 < N && (N - 1) * C > room)) <==> (N - 1) * C > room
  {
    MulMono(j + 1, N - 1, C);
  }

  lemma CellIsThere(cfg: Config, c: Chan, h: History, slot: nat, nSlots: nat, acc: seq<u8>)
    requires cfg.Ok() && ChanOk(cfg, c) && HistoryOk(cfg, h) && WindowOk(cfg, c, h) && nSlots > 0
    requires Ahead(slot, Consumed(h)) >= 0 && Reading(cfg, h, nSlots, acc, Ahead(slot, Consumed(h)))
    ensures var k, j, d := |h.delivered|, Ahead(slot, Consumed(h)), c.descs[cfg.At(slot)];
            && d.length == |CellOf(cfg, h.sent[k], j).bytes|
            && (HasNext(d) <==> j + 1 < CellCount(|h.sent[k]|, cfg.bufferSize))
            && nSlots >= CellCount(|h.sent[k]|, cfg.bufferSize) - j
  {
    var k, j := |h.delivered|, Ahead(slot, Consumed(h));
    ReadSlotIsPublished(cfg, h, slot, nSlots, acc);
    assert PacketLogged(cfg, h.sent, h.starts, h.log, k);
    assert CellAt(c, cfg.At(Consumed(h) + j)) == h.log[Consumed(h) + j] == CellOf(cfg, h.sent[k], j);
    assert h.starts[k + 1] <= h.starts[h.seen];
  }

  /** When ReadPacket panics on the caller's slice: exactly if there is an unread packet and the last buffer of the
      oldest one begins beyond the slice. A slice that reaches that far is never panicked on; what is left
      over of the last buffer is cut off. */
  lemma PanicsExactly(cfg: Config, s: Sys, room: nat)
    requires Inv(cfg, s) && s.reader.pc.RIdle?
    ensures Queues.ReadOverruns(cfg, s.chan, s.reader.last, room)
       <==> |s.h.delivered| < |s.h.sent|
            && (CellCount(|s.h.sent[|s.h.delivered|]|, cfg.bufferSize) - 1) * cfg.bufferSize > room
  {
    hide WriterInv;
    var h := s.h.(seen := |s.h.sent|);
    SeeAll(cfg, s.chan, s.writer, s.reader.last, s.h);
    CountUnread(cfg, s.chan, s.reader.last, h);
    if |h.delivered| < |h.sent| {
      OverrunsFrom(cfg, s.chan, h, s.reader.last, |h.log| - Consumed(h), [], room);
    }
  }

  /** The packet [7, 8], chained over the two one-byte buffers of a ring, makes a read with an empty slice
      panic; a slice of one byte gets the packet cut. */
  lemma EmptySlicePanics()
    ensures var cfg := Config(S2M, 1, 1, 320, true);
            var c := Chan(2, 0, [Desc(1, 0, 1, 320, 0), Desc(0, 0, 1, 321, 0)], [[7], [8]]);
            && cfg.Ok() && ChanOk(cfg, c)
            && Queues.ReadOverruns(cfg, c, 0, 0) && !Queues.ReadOverruns(cfg, c, 0, 1)
  {
    assert Pow2(1) == 2 * Pow2(0) == 2;
  }
}
