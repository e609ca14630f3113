/** One memif ring at the level of slots: the descriptors, the packet buffers and the two published
    16-bit indices, and the sequence of shared-memory accesses that WritePacket and ReadPacket make.

    Every step touches the shared state at most once (load an index, fetch or store a descriptor,
    copy to or from a buffer, publish an index), so that steps of the two peers can be interleaved. */
module Ring {
  import opened Bits

  /** S2M: the slave fills, publishing head, and the master drains, publishing tail.
      M2S: the slave posts empty buffers, publishing head, and the master fills them, publishing tail. */
  datatype Direction = S2M | M2S

  datatype Desc = Desc(flags: u16, region: u16, length: u32, offset: u32, metadata: u32)

  const DESC_FLAG_NEXT: u16 := 1

  predicate HasNext(d: Desc) {
    d.flags % 2 == 1
  }

  /** What both peers hold about one ring. `corrected` selects the source slice of WritePacket:
      false is the code as written (every chunk is copied from the start of the packet),
      true is the corrected code (every chunk continues where the last one ended). */
  datatype Config = Config(dir: Direction, log2: nat, bufferSize: nat, base: nat, corrected: bool) {
    function Size(): (r: nat)
      ensures r >= 1
    {
      Pow2(log2)
    }

    function BufferOffset(s: nat): (r: nat)
      ensures r >= base
    {
      base + s * bufferSize
    }

    /** Slots are at most 2^15, offsets fit 32 bits, and a buffer the slave must restore through
        a 16-bit store is shorter than 2^16. */
    predicate Ok() {
      && log2 <= 15
      && 0 < bufferSize < 0x1_0000_0000
      && (dir.M2S? ==> bufferSize < 0x1_0000)
      && BufferOffset(Size()) < 0x1_0000_0000
    }

    /** The slot of a counter. The code masks with size - 1, which is the same (Bits.MaskIsMod). */
    function At(k: nat): (s: nat)
      ensures s < Size()
    {
      k % Size()
    }
  }

  /** The shared part of a ring. */
  datatype Chan = Chan(head: u16, tail: u16, descs: seq<Desc>, bufs: seq<seq<u8>>)

  /** A descriptor of slot s still names region 0 and the buffer of slot s, and no more than that buffer. */
  predicate DescOk(cfg: Config, s: nat, d: Desc) {
    d.region == 0 && d.offset == cfg.BufferOffset(s) && d.length <= cfg.bufferSize
  }

  ghost predicate ChanOk(cfg: Config, c: Chan) {
    && |c.descs| == |c.bufs| == cfg.Size()
    && (forall s :: 0 <= s < cfg.Size() ==> DescOk(cfg, s, c.descs[s]))
    && (forall s :: 0 <= s < cfg.Size() ==> |c.bufs[s]| == cfg.bufferSize)
  }

  // ---------------------------------------------------------------- writing

  /** The program counter and locals of WritePacket. WIdle holds the value the last call returned. */
  datatype Writer =
    | WIdle(ret: nat)
    | WFetch(pkt: seq<u8>, slot: nat, nFree: nat, n: nat)
    | WCopy(pkt: seq<u8>, slot: nat, nFree: nat, n: nat, desc: Desc, cap: nat)
    | WPut(pkt: seq<u8>, slot: nat, nFree: nat, n: nat, desc: Desc)
    | WPublish(pkt: seq<u8>, slot: nat, n: nat)

  predicate WriterOk(cfg: Config, w: Writer) {
    match w
    case WIdle(_) => true
    case WFetch(_, _, nFree, _) => nFree >= 1
    case WCopy(_, slot, nFree, _, desc, cap) =>
      nFree >= 1 && cap <= cfg.bufferSize && DescOk(cfg, cfg.At(slot), desc)
    case WPut(_, slot, nFree, _, desc) =>
      nFree >= 1 && DescOk(cfg, cfg.At(slot), desc)
    case WPublish(_, _, _) => true
  }

  /** The bytes that one copy() moves when n bytes are already accounted for. */
  function Chunk(corrected: bool, pkt: seq<u8>, n: nat, cap: nat): (r: seq<u8>)
    ensures |r| <= cap
  {
    if !corrected then pkt[..Min(cap, |pkt|)]
    else if n < |pkt| then pkt[n..n + Min(cap, |pkt| - n)]
    else []
  }

  /** Entry of WritePacket: load both indices and count the free slots. */
  function WStart(cfg: Config, c: Chan, pkt: seq<u8>): (w: Writer)
    ensures WriterOk(cfg, w)
  {
    var slot := if cfg.dir.M2S? then c.tail else c.head;
    var nFree := if cfg.dir.M2S? then U16(c.head - slot) else U16(cfg.Size() - slot + c.tail);
    if nFree == 0 then WIdle(0) else WFetch(pkt, slot, nFree, 0)
  }

  /** memcpy of chunk to the start of a buffer */
  function Overwrite(buf: seq<u8>, chunk: seq<u8>): seq<u8>
    requires |chunk| <= |buf|
  {
    chunk + buf[|chunk|..]
  }

  function SetBuf(c: Chan, s: nat, buf: seq<u8>): Chan
    requires s < |c.bufs|
  {
    c.(bufs := c.bufs[s := buf])
  }

  function SetDesc(c: Chan, s: nat, d: Desc): Chan
    requires s < |c.descs|
  {
    c.(descs := c.descs[s := d])
  }

  /** The next shared access of WritePacket. */
  function WStep(cfg: Config, c: Chan, w: Writer): (r: (Chan, Writer))
    requires cfg.Ok() && ChanOk(cfg, c) && WriterOk(cfg, w)
    ensures ChanOk(cfg, r.0) && WriterOk(cfg, r.1)
  {
    match w
    case WIdle(_) => (c, w)
    case WFetch(pkt, slot, nFree, n) =>
      var d := c.descs[cfg.At(slot)];
      var cap := if cfg.dir.M2S? then d.length else cfg.bufferSize;
      (c, WCopy(pkt, slot, nFree, n, d.(flags := 0, length := 0), cap))
    case WCopy(pkt, slot, nFree, n, desc, cap) =>
      var chunk := Chunk(cfg.corrected, pkt, n, cap);
      var s := cfg.At(slot);
      (SetBuf(c, s, Overwrite(c.bufs[s], chunk)), WPut(pkt, slot, nFree, n + |chunk|, desc.(length := |chunk|)))
    case WPut(pkt, slot, nFree, n, desc) =>
      if n < |pkt| then
        if nFree == 1 then (c, WIdle(0))
        else (SetDesc(c, cfg.At(slot), desc.(flags := DESC_FLAG_NEXT)), WFetch(pkt, slot + 1, nFree - 1, n))
      else (SetDesc(c, cfg.At(slot), desc), WPublish(pkt, slot + 1, n))
    case WPublish(pkt, slot, n) =>
      (if cfg.dir.M2S? then c.(tail := U16(slot)) else c.(head := U16(slot)), WIdle(n))
  }

  function WMeasure(w: Writer): nat {
    match w
    case WIdle(_) => 0
    case WFetch(_, _, nFree, _) => 3 * nFree + 3
    case WCopy(_, _, nFree, _, _, _) => 3 * nFree + 2
    case WPut(_, _, nFree, _, _) => 3 * nFree + 1
    case WPublish(_, _, _) => 1
  }

  /** A whole call of WritePacket during which the peer does not move. */
  function WriterRun(cfg: Config, c: Chan, w: Writer): (r: (Chan, Writer))
    requires cfg.Ok() && ChanOk(cfg, c) && WriterOk(cfg, w)
    ensures ChanOk(cfg, r.0) && r.1.WIdle?
    decreases WMeasure(w)
  {
    if w.WIdle? then (c, w) else var (c', w') := WStep(cfg, c, w); WriterRun(cfg, c', w')
  }

  // ---------------------------------------------------------------- reading

  /** The program counter and locals of ReadPacket. RIncomplete is the error return
      "Incomplete chained buffer"; `packets` is the packet read, if any, and RIdle holds what the
      last call returned (its int result is the length of that packet, or 0). */
  datatype ReaderPc =
    | RIdle(packets: seq<seq<u8>>)
    | RFetch(slot: nat, nSlots: nat, acc: seq<u8>)
    | RCopy(slot: nat, nSlots: nat, acc: seq<u8>, desc: Desc)
    | RRelease(slot: nat, packets: seq<seq<u8>>)
    | RRefill(head: nat, left: nat, packets: seq<seq<u8>>)
    | RIncomplete

  /** `last` is the reader's private index: lastHead of the master, lastTail of the slave. */
  datatype Reader = Reader(last: u16, pc: ReaderPc)

  predicate ReaderOk(cfg: Config, r: Reader) {
    match r.pc
    case RFetch(_, nSlots, _) => nSlots >= 1
    case RCopy(slot, nSlots, _, desc) => nSlots >= 1 && DescOk(cfg, cfg.At(slot), desc)
    case RRelease(_, packets) => |packets| <= 1
    case RRefill(_, _, _) => cfg.dir.M2S?
    case _ => true
  }

  /** Entry of ReadPacket: load the peer's index and count the unread slots. */
  function RStart(cfg: Config, c: Chan, last: u16): (r: Reader)
    ensures ReaderOk(cfg, r)
  {
    var lastSlot := if cfg.dir.S2M? then c.head else c.tail;
    var nSlots := U16(lastSlot - last);
    Reader(last, if nSlots == 0 then RRelease(last, []) else RFetch(last, nSlots, []))
  }

  /** The 16-bit store that setDescLength makes into a 32-bit length field. */
  function SetLow16(old32: u32, v: nat): u32 {
    old32 - old32 % 0x1_0000 + U16(v)
  }

  /** It restores a capacity that never exceeded a buffer below 2^16 bytes. */
  lemma RefillIsWhole(cfg: Config, old32: u32)
    requires cfg.Ok() && cfg.dir.M2S? && old32 <= cfg.bufferSize
    ensures U16(cfg.bufferSize) == cfg.bufferSize == SetLow16(old32, cfg.bufferSize)
  {
  }

  /** The next shared access of ReadPacket. */
  function RStep(cfg: Config, c: Chan, r: Reader): (res: (Chan, Reader))
    requires cfg.Ok() && ChanOk(cfg, c) && ReaderOk(cfg, r)
    ensures ChanOk(cfg, res.0) && ReaderOk(cfg, res.1)
  {
    match r.pc
    case RIdle(_) => (c, r)
    case RIncomplete => (c, r)
    case RFetch(slot, nSlots, acc) =>
      (c, r.(pc := RCopy(slot, nSlots, acc, c.descs[cfg.At(slot)])))
    case RCopy(slot, nSlots, acc, desc) =>
      var acc' := acc + c.bufs[cfg.At(slot)][..desc.length];
      (c, r.(pc := if !HasNext(desc) then RRelease(slot + 1, [acc'])
                   else if nSlots == 1 then RIncomplete
                   else RFetch(slot + 1, nSlots - 1, acc')))
    case RRelease(slot, packets) =>
      if cfg.dir.S2M? then
        (c.(tail := U16(slot)), Reader(U16(slot), RIdle(packets)))
      else
        (c, Reader(U16(slot), RRefill(c.head, U16(cfg.Size() - c.head + U16(slot)), packets)))
    case RRefill(head, left, packets) =>
      if left == 0 then
        (c.(head := U16(head)), r.(pc := RIdle(packets)))
      else
        var s := cfg.At(head);
        var d := c.descs[s];
        (SetDesc(c, s, d.(length := SetLow16(d.length, cfg.bufferSize))),
         r.(pc := RRefill(head + 1, left - 1, packets)))
  }

  function RPhase(r: Reader): nat {
    match r.pc
    case RFetch(_, _, _) => 2
    case RCopy(_, _, _, _) => 2
    case RRelease(_, _) => 1
    case RRefill(_, _, _) => 0
    case _ => 0
  }

  function RMeasure(r: Reader): nat {
    match r.pc
    case RFetch(_, nSlots, _) => 2 * nSlots + 1
    case RCopy(_, nSlots, _, _) => 2 * nSlots
    case RRelease(_, _) => 0
    case RRefill(_, left, _) => left + 1
    case _ => 0
  }

  /** A whole call of ReadPacket during which the peer does not move. */
  function ReaderRun(cfg: Config, c: Chan, r: Reader): (res: (Chan, Reader))
    requires cfg.Ok() && ChanOk(cfg, c) && ReaderOk(cfg, r)
    ensures ChanOk(cfg, res.0) && (res.1.pc.RIdle? || res.1.pc.RIncomplete?)
    decreases RPhase(r), RMeasure(r)
  {
    if r.pc.RIdle? || r.pc.RIncomplete? then (c, r) else var (c', r') := RStep(cfg, c, r); ReaderRun(cfg, c', r')
  }
}
