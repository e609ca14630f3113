/** The two peers of one ring, interleaved: any sequence of packet submissions, read calls and
    single shared accesses of either side, under sequential consistency. */
module RingSystem {
  import opened Bits
  import opened Ring

  /** One buffer's worth of a published packet. */
  datatype Cell = Cell(bytes: seq<u8>, next: bool)

  /** What happened so far; no step of either peer looks at it.
      sent: the packets whose WritePacket published them, in order;
      starts: the unbounded index of each one's first cell (and of the next to come);
      log: every cell ever published;  delivered: what ReadPacket handed out;
      posted: how far the writer may ever have been allowed to go;  seen: how many packets were
      published when the reader last loaded the writer's index. */
  datatype History = History(
    sent: seq<seq<u8>>,
    starts: seq<nat>,
    log: seq<Cell>,
    delivered: seq<seq<u8>>,
    posted: nat,
    seen: nat)

  datatype Sys = Sys(chan: Chan, writer: Writer, reader: Reader, h: History)

  // ------------------------------------------------------------ packets as cells

  /** How many buffers a packet occupies: at least one, otherwise ceil(len / C). */
  function CellCount(len: nat, C: nat): (n: nat)
    requires C > 0
    ensures n >= 1
  {
    if len == 0 then 1 else (len - 1) / C + 1
  }

  /** The j-th buffer of a packet. */
  function CellOf(cfg: Config, pkt: seq<u8>, j: nat): Cell
    requires cfg.bufferSize > 0
  {
    Cell(Chunk(cfg.corrected, pkt, j * cfg.bufferSize, cfg.bufferSize), j + 1 < CellCount(|pkt|, cfg.bufferSize))
  }

  function Cells(cfg: Config, pkt: seq<u8>): seq<Cell>
    requires cfg.bufferSize > 0
  {
    seq(CellCount(|pkt|, cfg.bufferSize), j requires 0 <= j => CellOf(cfg, pkt, j))
  }

  /** The concatenation of the first j chunks of a packet. */
  function Joined(cfg: Config, pkt: seq<u8>, j: nat): seq<u8>
    requires cfg.bufferSize > 0
  {
    if j == 0 then [] else Joined(cfg, pkt, j - 1) + CellOf(cfg, pkt, j - 1).bytes
  }

  /** What a reader of the packet gets. */
  function Payload(cfg: Config, pkt: seq<u8>): seq<u8>
    requires cfg.bufferSize > 0
  {
    Joined(cfg, pkt, CellCount(|pkt|, cfg.bufferSize))
  }

  function CellAt(c: Chan, s: nat): Cell
    requires s < |c.descs| && s < |c.bufs| && c.descs[s].length <= |c.bufs[s]|
  {
    Cell(c.bufs[s][..c.descs[s].length], HasNext(c.descs[s]))
  }

  // ------------------------------------------------------------ the transition system

  datatype Action = SubmitPacket(pkt: seq<u8>) | WriterStep | CallRead | ReaderStep

  ghost predicate SysOk(cfg: Config, s: Sys) {
    ChanOk(cfg, s.chan) && WriterOk(cfg, s.writer) && ReaderOk(cfg, s.reader)
  }

  /** One action. A submission while a write is under way, or a read call while a read is
      under way, is not possible and changes nothing. */
  function Next(cfg: Config, s: Sys, a: Action): (s': Sys)
    requires cfg.Ok() && SysOk(cfg, s)
    ensures SysOk(cfg, s')
  {
    match a
    case SubmitPacket(pkt) =>
      if s.writer.WIdle? then s.(writer := WStart(cfg, s.chan, pkt)) else s
    case WriterStep =>
      var (c, w) := WStep(cfg, s.chan, s.writer);
      s.(chan := c, writer := w, h := AfterWriterStep(cfg, s.h, s.writer))
    case CallRead =>
      if s.reader.pc.RIdle? || s.reader.pc.RIncomplete? then
        s.(reader := RStart(cfg, s.chan, s.reader.last), h := s.h.(seen := |s.h.sent|))
      else s
    case ReaderStep =>
      var (c, r) := RStep(cfg, s.chan, s.reader);
      s.(chan := c, reader := r, h := AfterReaderStep(cfg, s.h, s.reader))
  }

  /** The state after a run of actions. */
  ghost function Run(cfg: Config, s: Sys, actions: seq<Action>): (t: Sys)
    requires cfg.Ok() && SysOk(cfg, s)
    ensures SysOk(cfg, t)
    decreases |actions|
  {
    if actions == [] then s else Run(cfg, Next(cfg, s, actions[0]), actions[1..])
  }

  /** Publishing appends the packet; in the S2M direction it uses up posted slots, nothing else. */
  function AfterWriterStep(cfg: Config, h: History, w: Writer): History
    requires cfg.Ok()
  {
    if w.WPublish? then
      h.(sent := h.sent + [w.pkt],
         starts := h.starts + [|h.log| + CellCount(|w.pkt|, cfg.bufferSize)],
         log := h.log + Cells(cfg, w.pkt))
    else h
  }

  /** The number of cells the reader has consumed. */
  function Consumed(h: History): nat {
    if |h.delivered| < |h.starts| then h.starts[|h.delivered|] else 0
  }

  /** Releasing hands out the packet; slots are posted to the writer when the reader
      publishes its index. */
  function AfterReaderStep(cfg: Config, h: History, r: Reader): History
    requires cfg.Ok()
  {
    match r.pc
    case RRelease(_, packets) =>
      var h' := h.(delivered := h.delivered + packets);
      if cfg.dir.S2M? then h'.(posted := Consumed(h') + cfg.Size()) else h'
    case RRefill(_, left, _) =>
      if left == 0 then h.(posted := Consumed(h) + cfg.Size()) else h
    case _ => h
  }

  /** Both indices zero, every descriptor naming its own whole buffer, both peers idle: the state
      that initializeQueues and connect leave. */
  ghost predicate Initial(cfg: Config, s: Sys) {
    && InitialChan(cfg, s.chan)
    && s.writer == WIdle(0)
    && s.reader == Reader(0, RIdle([]))
    && s.h == History([], [0], [], [], if cfg.dir.S2M? then cfg.Size() else 0, 0)
  }

  ghost predicate InitialChan(cfg: Config, c: Chan) {
    && c.head == 0 && c.tail == 0
    && ChanOk(cfg, c)
    && (forall s :: 0 <= s < cfg.Size() ==> c.descs[s].flags == 0 && c.descs[s].length == cfg.bufferSize)
  }

  // ------------------------------------------------------------ the invariant

  /** The history is consistent: cells of the log are those of the packets sent, in order, and
      what was delivered is the payload of the first packets. */
  ghost predicate HistoryOk(cfg: Config, h: History)
    requires cfg.Ok()
  {
    && Logged(cfg, h.sent, h.starts, h.log)
    && Delivered(cfg, h.sent, h.delivered)
    && Consumed(h) <= |h.log| <= h.posted <= Consumed(h) + cfg.Size()
    && |h.delivered| <= h.seen <= |h.sent|
  }

  ghost predicate Delivered(cfg: Config, sent: seq<seq<u8>>, delivered: seq<seq<u8>>)
    requires cfg.Ok()
  {
    && |delivered| <= |sent|
    && forall i :: 0 <= i < |delivered| ==> delivered[i] == Payload(cfg, sent[i])
  }

  ghost predicate Logged(cfg: Config, sent: seq<seq<u8>>, starts: seq<nat>, log: seq<Cell>)
    requires cfg.Ok()
  {
    && |starts| == |sent| + 1
    && starts[0] == 0
    && starts[|sent|] == |log|
    && (forall i :: 0 <= i < |sent| ==> PacketLogged(cfg, sent, starts, log, i))
    && (forall i, j :: 0 <= i <= j < |starts| ==> starts[i] <= starts[j])
  }

  /** Packet i's cells stand in the log from starts[i] on, and packet i+1 begins right after. */
  ghost predicate PacketLogged(cfg: Config, sent: seq<seq<u8>>, starts: seq<nat>, log: seq<Cell>, i: nat)
    requires cfg.Ok() && i < |sent| && |starts| == |sent| + 1
  {
    var n := CellCount(|sent[i]|, cfg.bufferSize);
    && starts[i + 1] == starts[i] + n
    && starts[i + 1] <= |log|
    && forall j :: 0 <= j < n ==> log[starts[i] + j] == CellOf(cfg, sent[i], j)
  }

  /** The published 16-bit indices are the residues of the unbounded counters. */
  ghost predicate IndicesOk(cfg: Config, c: Chan, last: u16, h: History)
    requires cfg.Ok()
  {
    && last == Consumed(h) % 0x1_0000
    && (cfg.dir.S2M? ==> c.head == |h.log| % 0x1_0000 && c.tail == last && h.posted == Consumed(h) + cfg.Size())
    && (cfg.dir.M2S? ==> c.tail == |h.log| % 0x1_0000 && c.head == h.posted % 0x1_0000)
  }

  /** Every published, unconsumed slot still holds its cell. */
  ghost predicate WindowOk(cfg: Config, c: Chan, h: History)
    requires cfg.Ok() && ChanOk(cfg, c)
  {
    forall k :: Consumed(h) <= k < |h.log| ==> CellAt(c, cfg.At(k)) == h.log[k]
  }

  /** Every posted, unpublished slot in [from, to) offers the writer the whole buffer. */
  ghost predicate CapacityOk(cfg: Config, c: Chan, from: nat, to: nat)
    requires cfg.Ok() && ChanOk(cfg, c)
  {
    cfg.dir.M2S? ==> forall k :: from <= k < to ==> c.descs[cfg.At(k)].length == cfg.bufferSize
  }

  /** The writer has put i cells of pkt into the slots after the published ones. */
  ghost predicate PutSoFar(cfg: Config, c: Chan, w0: nat, pkt: seq<u8>, i: nat)
    requires cfg.Ok() && ChanOk(cfg, c)
  {
    forall j :: 0 <= j < i ==> CellAt(c, cfg.At(w0 + j)) == CellOf(cfg, pkt, j)
  }

  /** How far a local int slot is ahead of the counter whose 16-bit residue it started from. */
  function Ahead(slot: nat, base: nat): int {
    slot - base % 0x1_0000
  }

  ghost predicate WriterInv(cfg: Config, c: Chan, w: Writer, h: History)
    requires cfg.Ok() && ChanOk(cfg, c)
  {
    var w0 := |h.log|;
    match w
    case WIdle(_) => CapacityOk(cfg, c, w0, h.posted)
    case WFetch(pkt, slot, nFree, n) =>
      Ahead(slot, w0) >= 0 && Working(cfg, c, h, pkt, nFree, n, Ahead(slot, w0))
    case WCopy(pkt, slot, nFree, n, desc, cap) =>
      && cap == cfg.bufferSize && desc.flags == 0
      && Ahead(slot, w0) >= 0 && Working(cfg, c, h, pkt, nFree, n, Ahead(slot, w0))
    case WPut(pkt, slot, nFree, n, desc) =>
      Ahead(slot, w0) >= 0 && Filled(cfg, c, h, pkt, nFree, n, Ahead(slot, w0), desc)
    case WPublish(pkt, slot, n) =>
      var N := CellCount(|pkt|, cfg.bufferSize);
      && Ahead(slot, w0) == N && w0 + N <= h.posted
      && PutSoFar(cfg, c, w0, pkt, N)
      && CapacityOk(cfg, c, w0 + N, h.posted)
      && n == |Payload(cfg, pkt)|
  }

  /** i full cells are put, and the i-th free slot is available. */
  ghost predicate Working(cfg: Config, c: Chan, h: History, pkt: seq<u8>, nFree: nat, n: nat, i: nat)
    requires cfg.Ok() && ChanOk(cfg, c)
  {
    && 1 <= nFree && |h.log| + i + nFree <= h.posted
    && n == i * cfg.bufferSize == |Joined(cfg, pkt, i)|
    && (i > 0 ==> n < |pkt|)
    && PutSoFar(cfg, c, |h.log|, pkt, i)
    && CapacityOk(cfg, c, |h.log|, h.posted)
  }

  /** As Working, with the i-th chunk already in its buffer and its length in the local descriptor. */
  ghost predicate Filled(cfg: Config, c: Chan, h: History, pkt: seq<u8>, nFree: nat, n: nat, i: nat, desc: Desc)
    requires cfg.Ok() && ChanOk(cfg, c)
  {
    var bytes := CellOf(cfg, pkt, i).bytes;
    && 1 <= nFree && |h.log| + i + nFree <= h.posted
    && n == i * cfg.bufferSize + |bytes| == |Joined(cfg, pkt, i + 1)|
    && (i > 0 ==> i * cfg.bufferSize < |pkt|)
    && desc.flags == 0 && desc.length == |bytes|
    && c.bufs[cfg.At(|h.log| + i)][..|bytes|] == bytes
    && PutSoFar(cfg, c, |h.log|, pkt, i)
    && CapacityOk(cfg, c, |h.log|, h.posted)
  }

  ghost predicate ReaderInv(cfg: Config, c: Chan, r: Reader, h: History)
    requires cfg.Ok() && ChanOk(cfg, c) && HistoryOk(cfg, h)
  {
    var r0, k := Consumed(h), |h.delivered|;
    match r.pc
    case RIdle(_) => h.posted == r0 + cfg.Size() || h.posted == 0
    case RIncomplete => false
    case RFetch(slot, nSlots, acc) =>
      Ahead(slot, r0) >= 0 && Reading(cfg, h, nSlots, acc, Ahead(slot, r0))
    case RCopy(slot, nSlots, acc, desc) =>
      && desc == c.descs[cfg.At(slot)]
      && Ahead(slot, r0) >= 0 && Reading(cfg, h, nSlots, acc, Ahead(slot, r0))
    case RRelease(slot, packets) =>
      || (packets == [] && slot == r.last && k == h.seen)
      || (k < h.seen && packets == [Payload(cfg, h.sent[k])]
          && Ahead(slot, r0) == CellCount(|h.sent[k]|, cfg.bufferSize))
    case RRefill(head, left, _) =>
      && Ahead(head, h.posted) >= 0
      && h.posted + Ahead(head, h.posted) + left == r0 + cfg.Size()
      && CapacityOk(cfg, c, h.posted, h.posted + Ahead(head, h.posted))
  }

  /** j cells of the next packet are read; the unread count reaches to a packet boundary. */
  ghost predicate Reading(cfg: Config, h: History, nSlots: nat, acc: seq<u8>, j: nat)
    requires cfg.Ok() && HistoryOk(cfg, h)
  {
    var k := |h.delivered|;
    && k < h.seen
    && j < CellCount(|h.sent[k]|, cfg.bufferSize)
    && h.starts[k] + j + nSlots == h.starts[h.seen]
    && acc == Joined(cfg, h.sent[k], j)
  }

  ghost predicate Inv(cfg: Config, s: Sys) {
    && cfg.Ok()
    && SysOk(cfg, s)
    && HistoryOk(cfg, s.h)
    && IndicesOk(cfg, s.chan, s.reader.last, s.h)
    && WindowOk(cfg, s.chan, s.h)
    && WriterInv(cfg, s.chan, s.writer, s.h)
    && ReaderInv(cfg, s.chan, s.reader, s.h)
  }
}
