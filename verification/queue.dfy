/** The Queue object: WritePacket and ReadPacket on the bytes of the shared region. */
module Queues {
  import opened Bits
  import opened Ring
  import opened Memory

  // ------------------------------------------------------------ descBuf

  method PutUint16(b: array<u8>, at: nat, v: u16)
    requires at + 2 <= b.Length
    modifies b
    ensures Stored(old(b[..]), b[..], at, Le16(v))
  {
    b[at] := v % 0x100;
    b[at + 1] := v / 0x100;
  }

  method PutUint32(b: array<u8>, at: nat, v: u32)
    requires at + 4 <= b.Length
    modifies b
    ensures Stored(old(b[..]), b[..], at, Le32(v))
  {
    PutUint16(b, at, v % 0x1_0000);
    PutUint16(b, at + 2, v / 0x1_0000);
  }

  /** A 16-byte store leaves the other fields of the descriptor. */
  lemma OtherFields(m: seq<u8>, m': seq<u8>, at: nat, n: nat)
    requires |m| == DESC_SIZE && OnlyChanged(m, m', at, at + n)
    ensures 2 <= at ==> Un16(m', DESC_FLAGS_OFFSET) == Un16(m, DESC_FLAGS_OFFSET)
    ensures at + n <= 2 || 4 <= at ==> Un16(m', DESC_REGION_OFFSET) == Un16(m, DESC_REGION_OFFSET)
    ensures at + n <= 4 || 8 <= at ==> Un32(m', DESC_LENGTH_OFFSET) == Un32(m, DESC_LENGTH_OFFSET)
    ensures at + n <= 8 || 12 <= at ==> Un32(m', DESC_OFFSET_OFFSET) == Un32(m, DESC_OFFSET_OFFSET)
    ensures at + n <= 12 ==> Un32(m', DESC_METADATA_OFFSET) == Un32(m, DESC_METADATA_OFFSET)
  {
  }

  method SetFlags(db: array<u8>, val: nat)
    requires db.Length == DESC_SIZE
    modifies db
    ensures DescAt(db[..], 0) == old(DescAt(db[..], 0)).(flags := U16(val))
  {
    PutUint16(db, DESC_FLAGS_OFFSET, U16(val));
    Le16At(db[..], DESC_FLAGS_OFFSET, U16(val));
    OtherFields(old(db[..]), db[..], DESC_FLAGS_OFFSET, 2);
  }

  method SetLength(db: array<u8>, val: nat)
    requires db.Length == DESC_SIZE
    modifies db
    ensures DescAt(db[..], 0) == old(DescAt(db[..], 0)).(length := U32(val))
  {
    PutUint32(db, DESC_LENGTH_OFFSET, U32(val));
    Le32At(db[..], DESC_LENGTH_OFFSET, U32(val));
    OtherFields(old(db[..]), db[..], DESC_LENGTH_OFFSET, 4);
  }

  method SetOffset(db: array<u8>, val: nat)
    requires db.Length == DESC_SIZE
    modifies db
    ensures DescAt(db[..], 0) == old(DescAt(db[..], 0)).(offset := U32(val))
  {
    PutUint32(db, DESC_OFFSET_OFFSET, U32(val));
    Le32At(db[..], DESC_OFFSET_OFFSET, U32(val));
    OtherFields(old(db[..]), db[..], DESC_OFFSET_OFFSET, 4);
  }

  method GetFlags(db: array<u8>) returns (v: u16)
    requires db.Length == DESC_SIZE
    ensures v == DescAt(db[..], 0).flags
  {
    v := Un16(db[..], DESC_FLAGS_OFFSET);
  }

  method GetLength(db: array<u8>) returns (v: u32)
    requires db.Length == DESC_SIZE
    ensures v == DescAt(db[..], 0).length
  {
    v := Un32(db[..], DESC_LENGTH_OFFSET);
  }

  method GetOffset(db: array<u8>) returns (v: u32)
    requires db.Length == DESC_SIZE
    ensures v == DescAt(db[..], 0).offset
  {
    v := Un32(db[..], DESC_OFFSET_OFFSET);
  }

  // ------------------------------------------------------------ Go's copy

  /** copy(dst[at:at+room], src) */
  method CopyIn(dst: array<u8>, at: nat, room: nat, src: seq<u8>) returns (n: nat)
    requires at + room <= dst.Length
    modifies dst
    ensures n == Min(room, |src|)
    ensures Stored(old(dst[..]), dst[..], at, src[..n])
  {
    n := Min(room, |src|);
    forall k | 0 <= k < n {
      dst[at + k] := src[k];
    }
  }

  /** What a ReadPacket call does to its caller. A Go slice expression pkt[a:] with a > len(pkt)
      panics; that happens when an earlier buffer of a chain already overran the caller's slice. */
  datatype ReadOutcome = Bytes(n: nat) | IncompleteChain | Panic

  class Queue {
    const isMaster: bool
    const data: array<u8>          // regions[0].data, shared with the peer
    const offset: nat              // ring.offset
    const log2Size: nat            // ring.log2Size
    const size: nat                // ring.size
    const packetBufferSize: u32    // i.run.PacketBufferSize of this side
    const corrected: bool          // false: the code as written
    var lastHead: u16
    var lastTail: u16

    ghost const slaveBufferSize: nat
    ghost const bufferBase: nat

    constructor (isMaster: bool, data: array<u8>, offset: nat, log2Size: nat, packetBufferSize: u32, corrected: bool,
                 ghost slaveBufferSize: nat, ghost bufferBase: nat)
      ensures this.isMaster == isMaster && this.data == data && this.offset == offset && this.log2Size == log2Size
      ensures this.packetBufferSize == packetBufferSize && this.corrected == corrected
      ensures this.slaveBufferSize == slaveBufferSize && this.bufferBase == bufferBase
      ensures size == Pow2(log2Size) && lastHead == 0 && lastTail == 0
    {
      this.isMaster, this.data, this.offset, this.log2Size := isMaster, data, offset, log2Size;
      this.packetBufferSize, this.corrected := packetBufferSize, corrected;
      this.slaveBufferSize, this.bufferBase := slaveBufferSize, bufferBase;
      size := Pow2(log2Size);
      lastHead, lastTail := 0, 0;
    }

    /** The slave writes S2M rings, the master M2S rings; reading is the other way round. */
    ghost function WriteConfig(): Config {
      Config(if isMaster then M2S else S2M, log2Size, slaveBufferSize, bufferBase, corrected)
    }

    ghost function ReadConfig(): Config {
      Config(if isMaster then S2M else M2S, log2Size, slaveBufferSize, bufferBase, corrected)
    }

    /** The region holds this queue's ring, with slot-level view c. */
    ghost predicate Holds(cfg: Config, c: Chan)
      reads data
      ensures Holds(cfg, c) ==> cfg.Ok() && size == cfg.Size() && ChanOk(cfg, c)
      ensures Holds(cfg, c) ==> offset + RING_HEADER_SIZE <= data.Length
    {
      && (cfg == WriteConfig() || cfg == ReadConfig())
      && size == cfg.Size()
      && MemOk(data[..], offset, cfg)
      && View(data[..], offset, cfg) == c
      && (!isMaster ==> packetBufferSize == slaveBufferSize)
    }

    /** The bytes a call may change: head, tail, descriptors and buffers of this ring. */
    ghost predicate Mine(k: nat) {
      || offset + RING_HEAD_OFFSET <= k < offset + RING_HEAD_OFFSET + 2
      || offset + RING_TAIL_OFFSET <= k < offset + RING_TAIL_OFFSET + 2
      || DescPos(offset, 0) <= k < DescPos(offset, size)
      || bufferBase <= k < bufferBase + size * slaveBufferSize
    }

    // -------------------------------------------------------- index and descriptor accesses

    method ReadHead() returns (head: nat)
      requires offset + RING_HEADER_SIZE <= data.Length
      ensures head == Un16(data[..], offset + RING_HEAD_OFFSET)
    {
      head := data[offset + RING_HEAD_OFFSET] + 0x100 * (data[offset + RING_HEAD_OFFSET + 1] as int);
    }

    method ReadTail() returns (tail: nat)
      requires offset + RING_HEADER_SIZE <= data.Length
      ensures tail == Un16(data[..], offset + RING_TAIL_OFFSET)
    {
      tail := data[offset + RING_TAIL_OFFSET] + 0x100 * (data[offset + RING_TAIL_OFFSET + 1] as int);
    }

    method WriteHead(value: nat)
      requires offset + RING_HEADER_SIZE <= data.Length
      modifies data
      ensures Stored(old(data[..]), data[..], offset + RING_HEAD_OFFSET, Le16(U16(value)))
    {
      PutUint16(data, offset + RING_HEAD_OFFSET, U16(value));
    }

    method WriteTail(value: nat)
      requires offset + RING_HEADER_SIZE <= data.Length
      modifies data
      ensures Stored(old(data[..]), data[..], offset + RING_TAIL_OFFSET, Le16(U16(value)))
    {
      PutUint16(data, offset + RING_TAIL_OFFSET, U16(value));
    }

    /** As much of the descriptor as lies in the region; beyond the region the slice expression panics. */
    method GetDescBuf(slot: nat, db: array<u8>)
      requires DescPos(offset, slot) <= data.Length && db.Length == DESC_SIZE && db != data
      modifies db
      ensures var p := DescPos(offset, slot);
              var n := Min(DESC_SIZE, data.Length - p);
              db[..] == data[p..p + n] + old(db[..])[n..]
    {
      var p := offset + RING_HEADER_SIZE + slot * DESC_SIZE;
      var n := CopyIn(db, 0, DESC_SIZE, data[p..]);
      assert db[0..n] == data[p..][..n] == data[p..p + n];
      assert db[..] == db[0..n] + db[n..];
    }

    method PutDescBuf(slot: nat, db: array<u8>)
      requires DescPos(offset, slot) <= data.Length && db.Length == DESC_SIZE && db != data
      modifies data
      ensures var p := DescPos(offset, slot);
              Stored(old(data[..]), data[..], p, db[..Min(DESC_SIZE, data.Length - p)])
    {
      var p := offset + RING_HEADER_SIZE + slot * DESC_SIZE;
      var n := CopyIn(data, p, data.Length - p, db[..]);
      assert db[..][..n] == db[..n];
    }

    /** Stores 16 bits into the 32-bit length field. */
    method SetDescLength(slot: nat, length: nat)
      requires DescPos(offset, slot) + DESC_SIZE <= data.Length
      modifies data
      ensures Stored(old(data[..]), data[..], DescPos(offset, slot) + DESC_LENGTH_OFFSET, Le16(U16(length)))
    {
      var p := offset + RING_HEADER_SIZE + slot * DESC_SIZE;
      PutUint16(data, p + DESC_LENGTH_OFFSET, U16(length));
    }

    // -------------------------------------------------------- the same, on the slot-level view

    /** Fetches the descriptor of a slot, resets its flags and length, and tells how much its
        buffer takes. */
    method FetchFree(slot: nat, desc: array<u8>, ghost cfg: Config, ghost c: Chan) returns (cap: nat)
      requires Holds(cfg, c) && cfg == WriteConfig() && desc.Length == DESC_SIZE && desc != data
      modifies desc
      ensures DescAt(desc[..], 0) == c.descs[cfg.At(slot)].(flags := 0, length := 0)
      ensures cap == if cfg.dir.M2S? then c.descs[cfg.At(slot)].length else cfg.bufferSize
    {
      var mask := size - 1;
      MaskIsMod(slot, log2Size);
      DescInside(data[..], offset, cfg, cfg.At(slot));
      GetDescBuf(And(slot, mask), desc);
      LoadDesc(data[..], offset, cfg, cfg.At(slot), desc[..]);
      SetFlags(desc, 0);
      cap := packetBufferSize;
      if isMaster {
        cap := GetLength(desc);
      }
      SetLength(desc, 0);
    }

    /** Copies the next chunk into the buffer at `off`. */
    method CopyChunk(pkt: seq<u8>, n: nat, cap: nat, off: nat, ghost t: nat, ghost cfg: Config, ghost c: Chan)
      returns (tmp: nat)
      requires Holds(cfg, c) && cfg == WriteConfig()
      requires t < cfg.Size() && off == cfg.BufferOffset(t) && cap <= cfg.bufferSize
      modifies data
      ensures tmp == |Chunk(corrected, pkt, n, cap)|
      ensures Holds(cfg, SetBuf(c, t, Overwrite(c.bufs[t], Chunk(corrected, pkt, n, cap))))
      ensures forall k :: 0 <= k < data.Length && !Mine(k) ==> data[k] == old(data[k])
    {
      hide Chunk, View;
      BufferInside(data[..], offset, cfg, t);
      SourceChunk(corrected, pkt, n, cap);
      tmp := CopyIn(data, off, cap, Source(corrected, pkt, n));
      StoreChunk(old(data[..]), data[..], offset, cfg, t, Chunk(corrected, pkt, n, cap));
    }

    method Put(slot: nat, desc: array<u8>, ghost cfg: Config, ghost c: Chan)
      requires Holds(cfg, c) && desc.Length == DESC_SIZE && desc != data
      requires DescOk(cfg, cfg.At(slot), DescAt(desc[..], 0))
      modifies data
      ensures Holds(cfg, SetDesc(c, cfg.At(slot), DescAt(desc[..], 0))) && desc[..] == old(desc[..])
      ensures forall k :: 0 <= k < data.Length && !Mine(k) ==> data[k] == old(data[k])
    {
      var mask := size - 1;
      MaskIsMod(slot, log2Size);
      DescInside(data[..], offset, cfg, cfg.At(slot));
      hide View;
      PutDescBuf(And(slot, mask), desc);
      StoreDesc(old(data[..]), data[..], offset, cfg, cfg.At(slot), desc[..]);
    }

    method PublishHead(value: nat, ghost cfg: Config, ghost c: Chan)
      requires Holds(cfg, c)
      modifies data
      ensures Holds(cfg, c.(head := U16(value)))
      ensures forall k :: 0 <= k < data.Length && !Mine(k) ==> data[k] == old(data[k])
    {
      WriteHead(value);
      StoreHead(old(data[..]), data[..], offset, cfg, U16(value));
    }

    method PublishTail(value: nat, ghost cfg: Config, ghost c: Chan)
      requires Holds(cfg, c)
      modifies data
      ensures Holds(cfg, c.(tail := U16(value)))
      ensures forall k :: 0 <= k < data.Length && !Mine(k) ==> data[k] == old(data[k])
    {
      WriteTail(value);
      StoreTail(old(data[..]), data[..], offset, cfg, U16(value));
    }

    /** Loads both indices: the slot to write next and how many may be written. */
    method LoadFree(ghost cfg: Config, ghost c: Chan) returns (slot: nat, nFree: nat)
      requires Holds(cfg, c) && cfg == WriteConfig()
      ensures forall pkt :: WStart(cfg, c, pkt) == if nFree == 0 then WIdle(0) else WFetch(pkt, slot, nFree, 0)
    {
      if isMaster {
        slot := ReadTail();
        var head := ReadHead();
        nFree := U16(head - slot);
      } else {
        slot := ReadHead();
        var tail := ReadTail();
        nFree := U16(size - slot + tail);
      }
    }

    /** What WritePacket does for its first buffer and again for every further one: fetch the
        descriptor, copy the next chunk into its buffer, note the length. */
    method Fill(pkt: seq<u8>, slot: nat, n: nat, desc: array<u8>, ghost nFree: nat, ghost cfg: Config, ghost c: Chan)
      returns (tmp: nat, ghost c': Chan)
      requires Holds(cfg, c) && cfg == WriteConfig() && nFree >= 1 && desc.Length == DESC_SIZE && desc != data
      modifies data, desc
      ensures Holds(cfg, c') && DescOk(cfg, cfg.At(slot), DescAt(desc[..], 0)) && DescAt(desc[..], 0).flags == 0
      ensures WriterRun(cfg, c, WFetch(pkt, slot, nFree, n))
           == WriterRun(cfg, c', WPut(pkt, slot, nFree, n + tmp, DescAt(desc[..], 0)))
      ensures forall k :: 0 <= k < data.Length && !Mine(k) ==> data[k] == old(data[k])
    {
      hide Holds, Mine, DescAt, WriterRun, WStep, Pow2;
      var cap := FetchFree(slot, desc, cfg, c);
      var off := GetOffset(desc);
      ghost var db := desc[..];
      tmp := CopyChunk(pkt, n, cap, off, cfg.At(slot), cfg, c);
      assert desc[..] == db;
      SetLength(desc, tmp);
      c' := FillSteps(cfg, c, pkt, slot, nFree, n, DescAt(desc[..], 0));
    }

    /** WritePacket on the bytes of the region does what WriterRun says on the slots. */
    method WritePacket(pkt: seq<u8>, ghost c0: Chan) returns (n: nat)
      requires Holds(WriteConfig(), c0)
      modifies data
      ensures var (c, w) := WriterRun(WriteConfig(), c0, WStart(WriteConfig(), c0, pkt));
              Holds(WriteConfig(), c) && w == WIdle(n)
      ensures forall k :: 0 <= k < data.Length && !Mine(k) ==> data[k] == old(data[k])
    {
      hide Holds, Mine, DescAt, WriterRun, WStep;
      ghost var cfg, c := WriteConfig(), c0;
      ghost var goal := WriterRun(cfg, c0, WStart(cfg, c0, pkt));
      var slot, nFree := LoadFree(cfg, c);
      if nFree == 0 {
        RunIdle(cfg, c, 0);
        return 0;
      }
      var desc := new u8[DESC_SIZE];
      n, c := Fill(pkt, slot, 0, desc, nFree, cfg, c);
      while n < |pkt|
        invariant Holds(cfg, c) && nFree >= 1
        invariant DescOk(cfg, cfg.At(slot), DescAt(desc[..], 0)) && DescAt(desc[..], 0).flags == 0
        invariant goal == WriterRun(cfg, c, WPut(pkt, slot, nFree, n, DescAt(desc[..], 0)))
        invariant forall k :: 0 <= k < data.Length && !Mine(k) ==> data[k] == old(data[k])
        decreases nFree
      {
        nFree := nFree - 1;
        if nFree == 0 {
          RunAbort(cfg, c, pkt, slot, n, DescAt(desc[..], 0));
          return 0;
        }
        RunChain(cfg, c, pkt, slot, nFree + 1, n, DescAt(desc[..], 0));
        SetFlags(desc, DESC_FLAG_NEXT);
        Put(slot, desc, cfg, c);
        c := SetDesc(c, cfg.At(slot), DescAt(desc[..], 0));
        slot := slot + 1;
        var tmp;
        tmp, c := Fill(pkt, slot, n, desc, nFree, cfg, c);
        n := n + tmp;
      }
      RunLast(cfg, c, pkt, slot, nFree, n, DescAt(desc[..], 0));
      Put(slot, desc, cfg, c);
      c := SetDesc(c, cfg.At(slot), DescAt(desc[..], 0));
      slot := slot + 1;
      if isMaster {
        PublishTail(slot, cfg, c);
      } else {
        PublishHead(slot, cfg, c);
      }
    }

    // -------------------------------------------------------- ReadPacket

    /** Copies the bytes of the buffer at `off` out to pkt[at..], as far as pkt reaches. */
    method CopyOut(pkt: array<u8>, at: nat, off: nat, length: nat, ghost t: nat, ghost cfg: Config, ghost c: Chan)
      requires Holds(cfg, c) && pkt != data && at <= pkt.Length
      requires t < cfg.Size() && off == cfg.BufferOffset(t) && length <= cfg.bufferSize
      modifies pkt
      ensures Stored(old(pkt[..]), pkt[..], at, c.bufs[t][..Min(length, pkt.Length - at)])
    {
      hide View, MemOk;
      BufferInView(data[..], offset, cfg, t);
      assert data[off..off + length] == c.bufs[t][..length] by {
        assert data[..][off..off + cfg.bufferSize][..length] == data[off..off + length];
      }
      var n := CopyIn(pkt, at, pkt.Length - at, data[off..off + length]);
    }

    method Fetch(slot: nat, desc: array<u8>, ghost cfg: Config, ghost c: Chan)
      requires Holds(cfg, c) && desc.Length == DESC_SIZE && desc != data
      modifies desc
      ensures DescAt(desc[..], 0) == c.descs[cfg.At(slot)]
    {
      var mask := size - 1;
      MaskIsMod(slot, log2Size);
      DescInside(data[..], offset, cfg, cfg.At(slot));
      GetDescBuf(And(slot, mask), desc);
      LoadDesc(data[..], offset, cfg, cfg.At(slot), desc[..]);
    }

    /** The index this side keeps for itself: lastHead on the master, lastTail on the slave. */
    function Last(): u16
      reads this
    {
      if isMaster then lastHead else lastTail
    }

    method LoadUnread(ghost cfg: Config, ghost c: Chan) returns (slot: nat, nSlots: nat)
      requires Holds(cfg, c) && cfg == ReadConfig()
      ensures slot == Last()
      ensures RStart(cfg, c, Last())
           == Reader(Last(), if nSlots == 0 then RRelease(slot, []) else RFetch(slot, nSlots, []))
    {
      var lastSlot: nat;
      if isMaster {
        slot := lastHead;
        lastSlot := ReadHead();
      } else {
        slot := lastTail;
        lastSlot := ReadTail();
      }
      nSlots := U16(lastSlot - slot);
    }

    /** One buffer of the chain: fetch its descriptor, copy its bytes to pkt, add its length. */
    method Take(pkt: array<u8>, slot: nat, pktOffset: nat, desc: array<u8>,
                ghost acc: seq<u8>, ghost cfg: Config, ghost c: Chan)
      returns (length: nat, ghost acc': seq<u8>)
      requires Holds(cfg, c) && pkt != data && desc.Length == DESC_SIZE && desc != data && desc != pkt
      requires pktOffset == |acc| <= pkt.Length && pkt[..pktOffset] == acc
      modifies pkt, desc
      ensures DescAt(desc[..], 0) == c.descs[cfg.At(slot)]
      ensures length == DescAt(desc[..], 0).length && acc' == acc + c.bufs[cfg.At(slot)][..length]
      ensures |acc'| == pktOffset + length
      ensures Received(old(pkt[..]), pkt[..], acc')
    {
      Fetch(slot, desc, cfg, c);
      length := GetLength(desc);
      var off := GetOffset(desc);
      ghost var db := desc[..];
      CopyOut(pkt, pktOffset, off, length, cfg.At(slot), cfg, c);
      assert desc[..] == db;
      acc' := acc + c.bufs[cfg.At(slot)][..length];
      StoredIsReceived(old(pkt[..]), pkt[..], acc, c.bufs[cfg.At(slot)][..length]);
    }

    method RefillSlot(head: nat, ghost cfg: Config, ghost c: Chan)
      requires Holds(cfg, c) && cfg == ReadConfig() && cfg.dir.M2S?
      modifies data
      ensures var d := c.descs[cfg.At(head)];
              Holds(cfg, SetDesc(c, cfg.At(head), d.(length := SetLow16(d.length, cfg.bufferSize))))
      ensures forall k :: 0 <= k < data.Length && !Mine(k) ==> data[k] == old(data[k])
    {
      var mask := size - 1;
      MaskIsMod(head, log2Size);
      DescInside(data[..], offset, cfg, cfg.At(head));
      hide View, SetLow16, U16, And, MemOk, Pow2;
      SetDescLength(And(head, mask), packetBufferSize);
      StoreWholeLength(old(data[..]), data[..], offset, cfg, cfg.At(head));
    }

    method LoadRefill(ghost cfg: Config, ghost c: Chan) returns (head: nat, nSlots: nat)
      requires Holds(cfg, c)
      ensures head == c.head && nSlots == U16(cfg.Size() - c.head + lastTail)
    {
      head := ReadHead();
      nSlots := U16(size - head + lastTail);
    }

    /** The slave's end of a read: give every slot that is neither posted nor unread back to the
        master, with its whole capacity. */
    method Refill(slot: nat, ghost packets: seq<seq<u8>>, ghost cfg: Config, ghost c0: Chan) returns (ghost c: Chan)
      requires Holds(cfg, c0) && cfg == ReadConfig() && !isMaster && |packets| <= 1
      modifies data, `lastTail
      ensures lastTail == U16(slot) && Holds(cfg, c)
      ensures ReaderRun(cfg, c0, Reader(old(lastTail), RRelease(slot, packets)))
           == (c, Reader(lastTail, RIdle(packets)))
      ensures forall k :: 0 <= k < data.Length && !Mine(k) ==> data[k] == old(data[k])
    {
      hide Holds, Mine, ReaderRun, RStep;
      ghost var goal := ReaderRun(cfg, c0, Reader(lastTail, RRelease(slot, packets)));
      c := c0;
      lastTail := U16(slot);
      var head, nSlots := LoadRefill(cfg, c);
      ReleaseRun(cfg, c, old(lastTail), slot, packets);
      while nSlots > 0
        invariant Holds(cfg, c) && lastTail == U16(slot) && nSlots >= 0
        invariant goal == ReaderRun(cfg, c, Reader(lastTail, RRefill(head, nSlots, packets)))
        invariant forall k :: 0 <= k < data.Length && !Mine(k) ==> data[k] == old(data[k])
      {
        RefillRun(cfg, c, lastTail, head, nSlots, packets);
        RefillSlot(head, cfg, c);
        ghost var d := c.descs[cfg.At(head)];
        c := SetDesc(c, cfg.At(head), d.(length := SetLow16(d.length, cfg.bufferSize)));
        head := head + 1;
        nSlots := nSlots - 1;
      }
      RepostRun(cfg, c, lastTail, head, packets);
      PublishHead(head, cfg, c);
      c := c.(head := U16(head));
    }

    /** ReadPacket on the bytes of the region does what ReaderRun says on the slots: the caller gets
        the packet read, cut to the length of its slice, or an error and no change of state. Whatever
        comes of it, the slice holds the bytes of the buffers copied so far, and beyond them what it
        held before. */
    method ReadPacket(pkt: array<u8>, ghost c0: Chan) returns (out: ReadOutcome)
      requires Holds(ReadConfig(), c0) && pkt != data
      modifies data, pkt, `lastHead, `lastTail
      ensures var (c, r) := ReaderRun(ReadConfig(), c0, RStart(ReadConfig(), c0, old(Last())));
              match out
              case Bytes(n) =>
                && Holds(ReadConfig(), c) && r.pc.RIdle? && r.last == Last()
                && (r.pc.packets == [] ==> n == 0 && pkt[..] == old(pkt[..]))
                && (r.pc.packets != [] ==> n == |r.pc.packets[0]| && Received(old(pkt[..]), pkt[..], r.pc.packets[0]))
              case IncompleteChain =>
                && r.pc.RIncomplete? && Holds(ReadConfig(), c0) && Last() == old(Last())
                && var n := Unread(ReadConfig(), c0, old(Last()));
                   Received(old(pkt[..]), pkt[..], Gathered(ReadConfig(), c0, old(Last()), n))
              case Panic =>
                && Holds(ReadConfig(), c0) && Last() == old(Last())
                && (r.pc.RIdle? ==> r.pc.packets != [] && |r.pc.packets[0]| > pkt.Length)
                && (exists n :: 0 <= n <= Unread(ReadConfig(), c0, old(Last()))
                                && |Gathered(ReadConfig(), c0, old(Last()), n)| > pkt.Length
                                && Received(old(pkt[..]), pkt[..], Gathered(ReadConfig(), c0, old(Last()), n)))
      ensures if isMaster then lastTail == old(lastTail) else lastHead == old(lastHead)
      ensures out.Panic? <==> ReadOverruns(ReadConfig(), c0, old(Last()), pkt.Length)
      ensures forall k :: 0 <= k < data.Length && !Mine(k) ==> data[k] == old(data[k])
    {
      hide Holds, Mine, DescAt, ReaderRun, RStep, ChanOk, DescOk, Pow2, Received, Gathered;
      ghost var cfg, last := ReadConfig(), Last();
      ghost var goal := ReaderRun(cfg, c0, RStart(cfg, c0, last));
      ghost var packets: seq<seq<u8>> := [];
      var pktOffset := 0;
      var slot, nSlots := LoadUnread(cfg, c0);
      if nSlots != 0 {
        var desc := new u8[DESC_SIZE];
        ghost var acc: seq<u8> := [];
        var length;
        GatheredNext(cfg, c0, last, 0);
        length, acc := Take(pkt, slot, 0, desc, acc, cfg, c0);
        TakeRun(cfg, c0, last, slot, nSlots, [], DescAt(desc[..], 0));
        pktOffset := length;
        slot := slot + 1;
        nSlots := nSlots - 1;
        var flags := GetFlags(desc);
        while flags % 2 == DESC_FLAG_NEXT
          invariant Holds(cfg, c0) && lastHead == old(lastHead) && lastTail == old(lastTail)
          invariant nSlots >= 0 && pktOffset == |acc| && flags == DescAt(desc[..], 0).flags
          invariant Received(old(pkt[..]), pkt[..], acc) && slot >= last
          invariant acc == Gathered(cfg, c0, last, slot - last) && slot + nSlots == last + Unread(cfg, c0, last)
          invariant ReadOverruns(cfg, c0, last, pkt.Length)
               <==> OverrunsAfter(cfg, c0, slot, nSlots, pktOffset, pkt.Length, DescAt(desc[..], 0))
          invariant goal == ReaderRun(cfg, c0, Reader(last, Decide(slot, nSlots, acc, DescAt(desc[..], 0))))
          invariant data[..] == old(data[..])
          decreases nSlots
        {
          if nSlots == 0 {
            StopRun(cfg, c0, last);
            return IncompleteChain;
          }
          if pktOffset > pkt.Length {
            OnlyGrows(cfg, c0, last, slot, nSlots, acc);
            return Panic;
          }
          ghost var acc0, mid := acc, pkt[..];
          GatheredNext(cfg, c0, last, slot - last);
          ReceivedPrefix(old(pkt[..]), pkt[..], acc);
          length, acc := Take(pkt, slot, pktOffset, desc, acc, cfg, c0);
          ReceivedOn(old(pkt[..]), mid, pkt[..], acc0, acc);
          TakeRun(cfg, c0, last, slot, nSlots, acc0, DescAt(desc[..], 0));
          pktOffset := pktOffset + length;
          slot := slot + 1;
          nSlots := nSlots - 1;
          flags := GetFlags(desc);
        }
        packets := [acc];
      }
      if isMaster {
        MasterReleaseRun(cfg, c0, last, slot, packets);
        lastHead := U16(slot);
        PublishTail(slot, cfg, c0);
      } else {
        ghost var c := Refill(slot, packets, cfg, c0);
      }
      return Bytes(pktOffset);
    }
  }

  /** A slice after bytes were copied to its start, as far as it reaches. */
  ghost predicate Received(before: seq<u8>, after: seq<u8>, bytes: seq<u8>) {
    |after| == |before| && forall k :: 0 <= k < |after| ==> after[k] == if k < |bytes| then bytes[k] else before[k]
  }

  lemma StoredIsReceived(before: seq<u8>, after: seq<u8>, acc: seq<u8>, bytes: seq<u8>)
    requires |acc| <= |before| && before[..|acc|] == acc
    requires Stored(before, after, |acc|, bytes[..Min(|bytes|, |before| - |acc|)])
    ensures Received(before, after, acc + bytes)
  {
    var n := Min(|bytes|, |before| - |acc|);
    forall k | 0 <= k < |after|
      ensures after[k] == if k < |acc + bytes| then (acc + bytes)[k] else before[k]
    {
      if k < |acc| {
        assert before[..|acc|][k] == before[k];
      } else if k < |acc| + n {
        assert after[|acc|..|acc| + n][k - |acc|] == after[k];
      }
    }
  }

  lemma ReceivedOn(before: seq<u8>, mid: seq<u8>, after: seq<u8>, acc: seq<u8>, acc': seq<u8>)
    requires Received(before, mid, acc) && Received(mid, after, acc') && acc <= acc'
    ensures Received(before, after, acc')
  {
  }

  lemma ReceivedNothing(before: seq<u8>)
    ensures Received(before, before, [])
  {
  }

  lemma GatheredNext(cfg: Config, c: Chan, slot: nat, n: nat)
    requires cfg.Ok() && ChanOk(cfg, c)
    ensures Gathered(cfg, c, slot, 0) == []
    ensures var s := cfg.At(slot + n);
            Gathered(cfg, c, slot, n + 1) == Gathered(cfg, c, slot, n) + c.bufs[s][..c.descs[s].length]
  {
  }

  lemma ReceivedPrefix(before: seq<u8>, after: seq<u8>, bytes: seq<u8>)
    requires Received(before, after, bytes) && |bytes| <= |before|
    ensures after[..|bytes|] == bytes
  {
  }

  /** How many slots a read finds unread. */
  function Unread(cfg: Config, c: Chan, last: u16): u16 {
    U16((if cfg.dir.S2M? then c.head else c.tail) - last)
  }

  /** The bytes of the n buffers from a slot on, each as far as its descriptor counts it. */
  ghost function Gathered(cfg: Config, c: Chan, slot: nat, n: nat): seq<u8>
    requires cfg.Ok() && ChanOk(cfg, c)
  {
    if n == 0 then [] else
      var s := cfg.At(slot + n - 1);
      Gathered(cfg, c, slot, n - 1) + c.bufs[s][..c.descs[s].length]
  }

  /** The slice that a chunk is copied from: pkt[:] as written, pkt[n:] corrected. */
  function Source(corrected: bool, pkt: seq<u8>, n: nat): seq<u8> {
    if !corrected then pkt else if n < |pkt| then pkt[n..] else []
  }

  lemma SourceChunk(corrected: bool, pkt: seq<u8>, n: nat, cap: nat)
    ensures Source(corrected, pkt, n)[..Min(cap, |Source(corrected, pkt, n)|)] == Chunk(corrected, pkt, n, cap)
  {
  }

  lemma RunIdle(cfg: Config, c: Chan, n: nat)
    requires cfg.Ok() && ChanOk(cfg, c)
    ensures WriterRun(cfg, c, WIdle(n)) == (c, WIdle(n))
  {
  }

  /** How a call goes on from a filled buffer: give up, chain on, or publish. */
  lemma RunAbort(cfg: Config, c: Chan, pkt: seq<u8>, slot: nat, n: nat, d: Desc)
    requires cfg.Ok() && ChanOk(cfg, c) && DescOk(cfg, cfg.At(slot), d) && n < |pkt|
    ensures WriterRun(cfg, c, WPut(pkt, slot, 1, n, d)) == (c, WIdle(0))
  {
    assert WStep(cfg, c, WPut(pkt, slot, 1, n, d)) == (c, WIdle(0));
  }

  lemma RunChain(cfg: Config, c: Chan, pkt: seq<u8>, slot: nat, nFree: nat, n: nat, d: Desc)
    requires cfg.Ok() && ChanOk(cfg, c) && DescOk(cfg, cfg.At(slot), d) && n < |pkt| && nFree > 1
    ensures var c' := SetDesc(c, cfg.At(slot), d.(flags := DESC_FLAG_NEXT));
            ChanOk(cfg, c')
            && WriterRun(cfg, c, WPut(pkt, slot, nFree, n, d))
            == WriterRun(cfg, c', WFetch(pkt, slot + 1, nFree - 1, n))
  {
    assert WStep(cfg, c, WPut(pkt, slot, nFree, n, d)).1 == WFetch(pkt, slot + 1, nFree - 1, n);
  }

  lemma RunLast(cfg: Config, c: Chan, pkt: seq<u8>, slot: nat, nFree: nat, n: nat, d: Desc)
    requires cfg.Ok() && ChanOk(cfg, c) && DescOk(cfg, cfg.At(slot), d) && n >= |pkt| && nFree >= 1
    ensures var c' := SetDesc(c, cfg.At(slot), d);
            WriterRun(cfg, c, WPut(pkt, slot, nFree, n, d))
            == (if cfg.dir.M2S? then c'.(tail := U16(slot + 1)) else c'.(head := U16(slot + 1)), WIdle(n))
  {
    var c' := SetDesc(c, cfg.At(slot), d);
    assert WStep(cfg, c, WPut(pkt, slot, nFree, n, d)) == (c', WPublish(pkt, slot + 1, n));
    var c'' := if cfg.dir.M2S? then c'.(tail := U16(slot + 1)) else c'.(head := U16(slot + 1));
    assert WStep(cfg, c', WPublish(pkt, slot + 1, n)) == (c'', WIdle(n));
    RunIdle(cfg, c'', n);
  }

  /** Two steps at once: fetch a descriptor, copy a chunk. Returns the view they leave. */
  lemma FillSteps(cfg: Config, c: Chan, pkt: seq<u8>, slot: nat, nFree: nat, n: nat, d: Desc) returns (c': Chan)
    requires cfg.Ok() && ChanOk(cfg, c) && nFree >= 1
    requires var cap := if cfg.dir.M2S? then c.descs[cfg.At(slot)].length else cfg.bufferSize;
             d == c.descs[cfg.At(slot)].(flags := 0, length := |Chunk(cfg.corrected, pkt, n, cap)|)
    ensures ChanOk(cfg, c') && DescOk(cfg, cfg.At(slot), d)
    ensures var cap := if cfg.dir.M2S? then c.descs[cfg.At(slot)].length else cfg.bufferSize;
            c' == SetBuf(c, cfg.At(slot), Overwrite(c.bufs[cfg.At(slot)], Chunk(cfg.corrected, pkt, n, cap)))
    ensures WriterRun(cfg, c, WFetch(pkt, slot, nFree, n))
         == WriterRun(cfg, c', WPut(pkt, slot, nFree, n + d.length, d))
  {
    var cap := if cfg.dir.M2S? then c.descs[cfg.At(slot)].length else cfg.bufferSize;
    var w1 := WCopy(pkt, slot, nFree, n, c.descs[cfg.At(slot)].(flags := 0, length := 0), cap);
    assert WStep(cfg, c, WFetch(pkt, slot, nFree, n)) == (c, w1);
    c' := SetBuf(c, cfg.At(slot), Overwrite(c.bufs[cfg.At(slot)], Chunk(cfg.corrected, pkt, n, cap)));
    assert WStep(cfg, c, w1) == (c', WPut(pkt, slot, nFree, n + d.length, d));
  }

  /** Where ReadPacket goes from a copied buffer. */
  function Decide(slot: nat, nSlots: nat, acc: seq<u8>, d: Desc): ReaderPc {
    if !HasNext(d) then RRelease(slot, [acc]) else if nSlots == 0 then RIncomplete else RFetch(slot, nSlots, acc)
  }

  /** A read that goes on from this slot with `read` bytes already counted is going to slice pkt[pktOffset:] with
      pktOffset beyond a caller's slice of `room` bytes, and so to panic: some buffer before the last
      one already ends beyond it. A long last buffer is cut. */
  ghost predicate Overruns(cfg: Config, c: Chan, slot: nat, nSlots: nat, read: nat, room: nat)
    requires cfg.Ok() && ChanOk(cfg, c)
    decreases nSlots, 0
  {
    nSlots > 0 && OverrunsAfter(cfg, c, slot + 1, nSlots - 1, read + c.descs[cfg.At(slot)].length, room,
                                c.descs[cfg.At(slot)])
  }

  /** The same just after descriptor d was taken. */
  ghost predicate OverrunsAfter(cfg: Config, c: Chan, slot: nat, nSlots: nat, read: nat, room: nat, d: Desc)
    requires cfg.Ok() && ChanOk(cfg, c)
    decreases nSlots, 1
  {
    HasNext(d) && nSlots > 0 && (read > room || Overruns(cfg, c, slot, nSlots, read, room))
  }

  ghost predicate ReadOverruns(cfg: Config, c: Chan, last: u16, room: nat)
    requires cfg.Ok() && ChanOk(cfg, c)
  {
    var pc := RStart(cfg, c, last).pc;
    pc.RFetch? && Overruns(cfg, c, pc.slot, pc.nSlots, 0, room)
  }

  lemma TakeRun(cfg: Config, c: Chan, last: u16, slot: nat, nSlots: nat, acc: seq<u8>, d: Desc)
    requires cfg.Ok() && ChanOk(cfg, c) && nSlots >= 1 && d == c.descs[cfg.At(slot)]
    ensures ReaderRun(cfg, c, Reader(last, RFetch(slot, nSlots, acc)))
         == ReaderRun(cfg, c, Reader(last, Decide(slot + 1, nSlots - 1, acc + c.bufs[cfg.At(slot)][..d.length], d)))
  {
    var r1 := Reader(last, RCopy(slot, nSlots, acc, d));
    assert RStep(cfg, c, Reader(last, RFetch(slot, nSlots, acc))) == (c, r1);
    var acc' := acc + c.bufs[cfg.At(slot)][..d.length];
    assert RStep(cfg, c, r1) == (c, Reader(last, Decide(slot + 1, nSlots - 1, acc', d)));
  }

  lemma StopRun(cfg: Config, c: Chan, last: u16)
    requires cfg.Ok() && ChanOk(cfg, c)
    ensures ReaderRun(cfg, c, Reader(last, RIncomplete)) == (c, Reader(last, RIncomplete))
  {
  }

  lemma {:induction false} GatheredFront(cfg: Config, c: Chan, slot: nat, n: nat)
    requires cfg.Ok() && ChanOk(cfg, c) && n > 0
    ensures var s := cfg.At(slot);
            Gathered(cfg, c, slot, n) == c.bufs[s][..c.descs[s].length] + Gathered(cfg, c, slot + 1, n - 1)
  {
    if n == 1 {
      GatheredNext(cfg, c, slot, 0);
    } else {
      GatheredFront(cfg, c, slot, n - 1);
    }
  }

  /** Whatever the ring holds: a read takes the buffers up to the first one without the chain flag, and returns
      their bytes. */
  lemma {:induction false} ReadTakesOneChain(cfg: Config, c: Chan, last: u16,
                                             slot: nat, nSlots: nat, acc: seq<u8>, n: nat)
    requires cfg.Ok() && ChanOk(cfg, c) && n < nSlots && !HasNext(c.descs[cfg.At(slot + n)])
    requires forall i :: slot <= i < slot + n ==> HasNext(c.descs[cfg.At(i)])
    ensures ReaderRun(cfg, c, Reader(last, RFetch(slot, nSlots, acc))).1.pc
         == RIdle([acc + Gathered(cfg, c, slot, n + 1)])
    decreases n
  {
    hide ReaderRun, RStep, Gathered, Config.At, Pow2;
    GatheredNext(cfg, c, slot + 1, 0);
    var d := c.descs[cfg.At(slot)];
    var acc' := acc + c.bufs[cfg.At(slot)][..d.length];
    TakeRun(cfg, c, last, slot, nSlots, acc, d);
    GatheredFront(cfg, c, slot, n + 1);
    if n == 0 {
      assert acc' == acc + Gathered(cfg, c, slot, 1);
      ReleaseReturns(cfg, c, Reader(last, RRelease(slot + 1, [acc'])), [acc']);
    } else {
      assert HasNext(d);
      ReadTakesOneChain(cfg, c, last, slot + 1, nSlots - 1, acc', n - 1);
      assert acc' + Gathered(cfg, c, slot + 1, n) == acc + Gathered(cfg, c, slot, n + 1);
    }
  }

  /** And it is an error, "Incomplete chained buffer", exactly if all that is unread has the flag. */
  lemma {:induction false} ErrorExactlyIfChainEndless(cfg: Config, c: Chan, last: u16,
                                                      slot: nat, nSlots: nat, acc: seq<u8>)
    requires cfg.Ok() && ChanOk(cfg, c) && nSlots > 0
    ensures ReaderRun(cfg, c, Reader(last, RFetch(slot, nSlots, acc))).1.pc.RIncomplete?
       <==> forall i :: slot <= i < slot + nSlots ==> HasNext(c.descs[cfg.At(i)])
    decreases nSlots
  {
    hide ReaderRun, RStep;
    var d := c.descs[cfg.At(slot)];
    var acc' := acc + c.bufs[cfg.At(slot)][..d.length];
    TakeRun(cfg, c, last, slot, nSlots, acc, d);
    if !HasNext(d) {
      ReleaseReturns(cfg, c, Reader(last, RRelease(slot + 1, [acc'])), [acc']);
    } else if nSlots == 1 {
      StopRun(cfg, c, last);
    } else {
      ErrorExactlyIfChainEndless(cfg, c, last, slot + 1, nSlots - 1, acc');
    }
  }

  /** A packet under way never gets shorter. */
  lemma {:induction false} OnlyGrows(cfg: Config, c: Chan, last: u16, slot: nat, nSlots: nat, acc: seq<u8>)
    requires cfg.Ok() && ChanOk(cfg, c) && nSlots >= 1
    ensures var pc := ReaderRun(cfg, c, Reader(last, RFetch(slot, nSlots, acc))).1.pc;
            pc.RIdle? ==> pc.packets != [] && |pc.packets[0]| >= |acc|
    decreases nSlots
  {
    var d := c.descs[cfg.At(slot)];
    var acc' := acc + c.bufs[cfg.At(slot)][..d.length];
    TakeRun(cfg, c, last, slot, nSlots, acc, d);
    if !HasNext(d) {
      ReleaseReturns(cfg, c, Reader(last, RRelease(slot + 1, [acc'])), [acc']);
    } else if nSlots == 1 {
      StopRun(cfg, c, last);
    } else {
      OnlyGrows(cfg, c, last, slot + 1, nSlots - 1, acc');
    }
  }

  lemma {:induction false} ReleaseReturns(cfg: Config, c: Chan, r: Reader, packets: seq<seq<u8>>)
    requires cfg.Ok() && ChanOk(cfg, c) && ReaderOk(cfg, r)
    requires (r.pc.RRelease? || r.pc.RRefill? || r.pc.RIdle?) && r.pc.packets == packets
    ensures ReaderRun(cfg, c, r).1.pc == RIdle(packets)
    decreases RPhase(r), RMeasure(r)
  {
    if !r.pc.RIdle? {
      var (c', r') := RStep(cfg, c, r);
      ReleaseReturns(cfg, c', r', packets);
    }
  }

  lemma MasterReleaseRun(cfg: Config, c: Chan, last: u16, slot: nat, packets: seq<seq<u8>>)
    requires cfg.Ok() && ChanOk(cfg, c) && cfg.dir.S2M? && |packets| <= 1
    ensures ReaderRun(cfg, c, Reader(last, RRelease(slot, packets)))
         == (c.(tail := U16(slot)), Reader(U16(slot), RIdle(packets)))
  {
    var res := (c.(tail := U16(slot)), Reader(U16(slot), RIdle(packets)));
    assert RStep(cfg, c, Reader(last, RRelease(slot, packets))) == res;
    assert ReaderRun(cfg, res.0, res.1) == res;
  }

  lemma ReleaseRun(cfg: Config, c: Chan, last: u16, slot: nat, packets: seq<seq<u8>>)
    requires cfg.Ok() && ChanOk(cfg, c) && cfg.dir.M2S? && |packets| <= 1
    ensures ReaderRun(cfg, c, Reader(last, RRelease(slot, packets)))
         == ReaderRun(cfg, c, Reader(U16(slot), RRefill(c.head, U16(cfg.Size() - c.head + U16(slot)), packets)))
  {
    hide U16, ChanOk;
    var r := Reader(U16(slot), RRefill(c.head, U16(cfg.Size() - c.head + U16(slot)), packets));
    assert RStep(cfg, c, Reader(last, RRelease(slot, packets))) == (c, r);
  }

  lemma RefillRun(cfg: Config, c: Chan, last: u16, head: nat, left: nat, packets: seq<seq<u8>>)
    requires cfg.Ok() && ChanOk(cfg, c) && cfg.dir.M2S? && left > 0
    ensures var d := c.descs[cfg.At(head)];
            var c' := SetDesc(c, cfg.At(head), d.(length := SetLow16(d.length, cfg.bufferSize)));
            ChanOk(cfg, c')
            && ReaderRun(cfg, c, Reader(last, RRefill(head, left, packets)))
            == ReaderRun(cfg, c', Reader(last, RRefill(head + 1, left - 1, packets)))
  {
    assert RStep(cfg, c, Reader(last, RRefill(head, left, packets))).1
        == Reader(last, RRefill(head + 1, left - 1, packets));
  }

  lemma RepostRun(cfg: Config, c: Chan, last: u16, head: nat, packets: seq<seq<u8>>)
    requires cfg.Ok() && ChanOk(cfg, c) && cfg.dir.M2S?
    ensures ReaderRun(cfg, c, Reader(last, RRefill(head, 0, packets)))
         == (c.(head := U16(head)), Reader(last, RIdle(packets)))
  {
    var res := (c.(head := U16(head)), Reader(last, RIdle(packets)));
    assert RStep(cfg, c, Reader(last, RRefill(head, 0, packets))) == res;
    assert ReaderRun(cfg, res.0, res.1) == res;
  }
}
