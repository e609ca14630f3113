/** The shared memory region as bytes: little-endian fields, descriptors, one ring and its buffers,
    and what a store into each of them does to the slot-level view of module Ring. */
module Memory {
  import opened Bits
  import opened Ring

  const RING_HEADER_SIZE: nat := 128
  const RING_FLAGS_OFFSET: nat := 4
  const RING_HEAD_OFFSET: nat := 6
  const RING_TAIL_OFFSET: nat := 64
  const DESC_SIZE: nat := 16
  const DESC_FLAGS_OFFSET: nat := 0
  const DESC_REGION_OFFSET: nat := 2
  const DESC_LENGTH_OFFSET: nat := 4
  const DESC_OFFSET_OFFSET: nat := 8
  const DESC_METADATA_OFFSET: nat := 12
  const COOKIE: u32 := 0x3E31F20

  // ------------------------------------------------------------ little-endian fields

  function Le16(v: u16): (r: seq<u8>)
    ensures |r| == 2
  {
    [v % 0x100, v / 0x100]
  }

  function Le32(v: u32): (r: seq<u8>)
    ensures |r| == 4
  {
    Le16(v % 0x1_0000) + Le16(v / 0x1_0000)
  }

  function Un16(m: seq<u8>, at: nat): u16
    requires at + 2 <= |m|
  {
    var lo: int, hi: int := m[at], m[at + 1];
    lo + 0x100 * hi
  }

  function Un32(m: seq<u8>, at: nat): u32
    requires at + 4 <= |m|
  {
    var lo: int, hi: int := Un16(m, at), Un16(m, at + 2);
    lo + 0x1_0000 * hi
  }

  /** The number whose n bytes stand at `at`, the least significant first. */
  function Number(f: seq<u8>, at: nat, n: nat): nat
    requires at + n <= |f|
    decreases n
  {
    if n == 0 then 0 else
      var lo: int := f[at];
      lo + 0x100 * Number(f, at + 1, n - 1)
  }

  lemma WordIs(f: seq<u8>, at: nat)
    requires at + 2 <= |f|
    ensures Number(f, at, 2) == Un16(f, at)
  {
    assert Number(f, at + 1, 1) == f[at + 1] + 0x100 * Number(f, at + 2, 0);
  }

  lemma DoubleWordIs(f: seq<u8>, at: nat)
    requires at + 4 <= |f|
    ensures Number(f, at, 4) == Un32(f, at)
  {
    WordIs(f, at);
    WordIs(f, at + 2);
    assert Number(f, at + 1, 3) == f[at + 1] + 0x100 * Number(f, at + 2, 2);
  }

  /** m' agrees with m except in [lo, hi). */
  ghost predicate OnlyChanged(m: seq<u8>, m': seq<u8>, lo: nat, hi: nat) {
    |m'| == |m| && forall k :: 0 <= k < |m| && !(lo <= k < hi) ==> m'[k] == m[k]
  }

  /** m' is m with the bytes b stored at `at`. */
  ghost predicate Stored(m: seq<u8>, m': seq<u8>, at: nat, b: seq<u8>) {
    && at + |b| <= |m|
    && OnlyChanged(m, m', at, at + |b|)
    && m'[at..at + |b|] == b
  }

  /** The field at `at` holds the bytes b. */
  lemma Le16At(m: seq<u8>, at: nat, v: u16)
    requires at + 2 <= |m| && m[at..at + 2] == Le16(v)
    ensures Un16(m, at) == v
  {
    assert m[at] == m[at..at + 2][0] && m[at + 1] == m[at..at + 2][1];
  }

  lemma Le32At(m: seq<u8>, at: nat, v: u32)
    requires at + 4 <= |m| && m[at..at + 4] == Le32(v)
    ensures Un32(m, at) == v
  {
    assert m[at] == m[at..at + 4][0] && m[at + 1] == m[at..at + 4][1];
    assert m[at + 2] == m[at..at + 4][2] && m[at + 3] == m[at..at + 4][3];
  }

  // ------------------------------------------------------------ descriptors

  function DescAt(m: seq<u8>, p: nat): Desc
    requires p + DESC_SIZE <= |m|
  {
    Desc(Un16(m, p + DESC_FLAGS_OFFSET), Un16(m, p + DESC_REGION_OFFSET), Un32(m, p + DESC_LENGTH_OFFSET),
         Un32(m, p + DESC_OFFSET_OFFSET), Un32(m, p + DESC_METADATA_OFFSET))
  }

  function DescBytes(d: Desc): (r: seq<u8>)
    ensures |r| == DESC_SIZE
  {
    Le16(d.flags) + Le16(d.region) + Le32(d.length) + Le32(d.offset) + Le32(d.metadata)
  }

  lemma Between(s: seq<u8>, a: seq<u8>, b: seq<u8>, c: seq<u8>)
    requires s == a + b + c
    ensures |s| == |a| + |b| + |c| && s[|a|..|a| + |b|] == b
  {
  }

  /** Descriptor codec round trip. */
  lemma DescRoundTrip(d: Desc)
    ensures DescAt(DescBytes(d), 0) == d
  {
    hide Le32;
    var b := DescBytes(d);
    var length, offset, metadata := Le32(d.length), Le32(d.offset), Le32(d.metadata);
    Between(b, Le16(d.flags) + Le16(d.region), length, offset + metadata);
    Between(b, Le16(d.flags) + Le16(d.region) + length, offset, metadata);
    Between(b, Le16(d.flags) + Le16(d.region) + length + offset, metadata, []);
    Le32At(b, 4, d.length);
    Le32At(b, 8, d.offset);
    Le32At(b, 12, d.metadata);
  }

  /** A descriptor depends on its own sixteen bytes only. */
  lemma SameDesc(m: seq<u8>, p: nat, m': seq<u8>, p': nat)
    requires p + DESC_SIZE <= |m| && p' + DESC_SIZE <= |m'|
    requires m[p..p + DESC_SIZE] == m'[p'..p' + DESC_SIZE]
    ensures DescAt(m, p) == DescAt(m', p')
  {
    var d, d' := m[p..p + DESC_SIZE], m'[p'..p' + DESC_SIZE];
    assert m[p + 0] == d[0] && m[p + 1] == d[1] && m[p + 2] == d[2] && m[p + 3] == d[3];
    assert m[p + 4] == d[4] && m[p + 5] == d[5] && m[p + 6] == d[6] && m[p + 7] == d[7];
    assert m[p + 8] == d[8] && m[p + 9] == d[9] && m[p + 10] == d[10] && m[p + 11] == d[11];
    assert m[p + 12] == d[12] && m[p + 13] == d[13] && m[p + 14] == d[14] && m[p + 15] == d[15];
    assert m'[p' + 0] == d'[0] && m'[p' + 1] == d'[1] && m'[p' + 2] == d'[2] && m'[p' + 3] == d'[3];
    assert m'[p' + 4] == d'[4] && m'[p' + 5] == d'[5] && m'[p' + 6] == d'[6] && m'[p' + 7] == d'[7];
    assert m'[p' + 8] == d'[8] && m'[p' + 9] == d'[9] && m'[p' + 10] == d'[10] && m'[p' + 11] == d'[11];
    assert m'[p' + 12] == d'[12] && m'[p' + 13] == d'[13] && m'[p' + 14] == d'[14] && m'[p' + 15] == d'[15];
  }

  // ------------------------------------------------------------ one ring and its buffers

  function DescPos(off: nat, s: nat): nat {
    off + RING_HEADER_SIZE + s * DESC_SIZE
  }

  /** The ring at `off` ends before its buffers start, and both lie in the region. */
  predicate Fits(m: seq<u8>, off: nat, cfg: Config) {
    DescPos(off, cfg.Size()) <= cfg.base && cfg.BufferOffset(cfg.Size()) <= |m|
  }

  lemma BufferOrder(cfg: Config, s: nat, t: nat)
    requires s < t
    ensures cfg.BufferOffset(s) + cfg.bufferSize <= cfg.BufferOffset(t)
  {
    assert t * cfg.bufferSize == s * cfg.bufferSize + (t - s) * cfg.bufferSize;
    MulAtLeast(t - s, cfg.bufferSize);
  }

  function BufferAt(m: seq<u8>, off: nat, cfg: Config, s: nat): (b: seq<u8>)
    requires Fits(m, off, cfg) && s < cfg.Size()
    ensures |b| == cfg.bufferSize
  {
    BufferOrder(cfg, s, cfg.Size());
    m[cfg.BufferOffset(s)..cfg.BufferOffset(s) + cfg.bufferSize]
  }

  /** The slot-level view of a ring in memory. */
  function View(m: seq<u8>, off: nat, cfg: Config): (c: Chan)
    requires Fits(m, off, cfg)
    ensures |c.descs| == |c.bufs| == cfg.Size()
  {
    Chan(Un16(m, off + RING_HEAD_OFFSET), Un16(m, off + RING_TAIL_OFFSET),
         seq(cfg.Size(), s requires 0 <= s < cfg.Size() => DescAt(m, DescPos(off, s))),
         seq(cfg.Size(), s requires 0 <= s < cfg.Size() => BufferAt(m, off, cfg, s)))
  }

  /** The ring in memory, byte by byte: head and tail at 6 and 64, descriptors of 16 bytes from 128 on, with
      flags, region, length, offset and metadata in that order, all little-endian; and the buffers. */
  lemma RingFormat(m: seq<u8>, off: nat, cfg: Config, s: nat)
    requires Fits(m, off, cfg) && s < cfg.Size()
    ensures cfg.BufferOffset(s) == cfg.base + s * cfg.bufferSize
    ensures off + 128 + 16 * s + 16 <= |m| && cfg.BufferOffset(s) + cfg.bufferSize <= |m|
    ensures var c, at := View(m, off, cfg), off + 128 + 16 * s;
            && c.head == Number(m, off + 6, 2) && c.tail == Number(m, off + 64, 2)
            && c.descs[s].flags == Number(m, at, 2) && c.descs[s].region == Number(m, at + 2, 2)
            && c.descs[s].length == Number(m, at + 4, 4) && c.descs[s].offset == Number(m, at + 8, 4)
            && c.descs[s].metadata == Number(m, at + 12, 4)
            && c.bufs[s] == m[cfg.BufferOffset(s)..cfg.BufferOffset(s) + cfg.bufferSize]
  {
    hide Number, Un16, Un32;
    var at := off + 128 + 16 * s;
    BufferOrder(cfg, s, cfg.Size());
    WordIs(m, off + 6);
    WordIs(m, off + 64);
    WordIs(m, at);
    WordIs(m, at + 2);
    DoubleWordIs(m, at + 4);
    DoubleWordIs(m, at + 8);
    DoubleWordIs(m, at + 12);
  }

  lemma DescKept(m: seq<u8>, m': seq<u8>, p: nat, lo: nat, hi: nat)
    requires OnlyChanged(m, m', lo, hi) && p + DESC_SIZE <= |m| && (p + DESC_SIZE <= lo || hi <= p)
    ensures DescAt(m', p) == DescAt(m, p)
  {
    assert m'[p..p + DESC_SIZE] == m[p..p + DESC_SIZE];
    SameDesc(m', p, m, p);
  }

  lemma BufferKept(m: seq<u8>, m': seq<u8>, off: nat, cfg: Config, s: nat, lo: nat, hi: nat)
    requires OnlyChanged(m, m', lo, hi) && Fits(m, off, cfg) && s < cfg.Size()
    requires cfg.BufferOffset(s) + cfg.bufferSize <= lo || hi <= cfg.BufferOffset(s)
    ensures BufferAt(m', off, cfg, s) == BufferAt(m, off, cfg, s)
  {
    BufferOrder(cfg, s, cfg.Size());
    var lo', hi' := cfg.BufferOffset(s), cfg.BufferOffset(s) + cfg.bufferSize;
    assert m'[lo'..hi'] == m[lo'..hi'];
  }

  /** A store below the buffers leaves them all. */
  lemma BuffersKept(m: seq<u8>, m': seq<u8>, off: nat, cfg: Config, lo: nat, hi: nat)
    requires OnlyChanged(m, m', lo, hi) && Fits(m, off, cfg) && hi <= cfg.base
    ensures View(m', off, cfg).bufs == View(m, off, cfg).bufs
  {
    var v, v' := View(m, off, cfg), View(m', off, cfg);
    forall s | 0 <= s < cfg.Size() ensures v'.bufs[s] == v.bufs[s] {
      BufferKept(m, m', off, cfg, s, lo, hi);
    }
  }

  /** A store into the header or above the ring leaves every descriptor. */
  lemma DescsKept(m: seq<u8>, m': seq<u8>, off: nat, cfg: Config, lo: nat, hi: nat)
    requires OnlyChanged(m, m', lo, hi) && Fits(m, off, cfg)
    requires hi <= off + RING_HEADER_SIZE || DescPos(off, cfg.Size()) <= lo
    ensures View(m', off, cfg).descs == View(m, off, cfg).descs
  {
    var v, v' := View(m, off, cfg), View(m', off, cfg);
    forall s | 0 <= s < cfg.Size() ensures v'.descs[s] == v.descs[s] {
      DescKept(m, m', DescPos(off, s), lo, hi);
    }
  }

  /** A store into the ring header changes indices only. */
  lemma HeaderStore(m: seq<u8>, m': seq<u8>, off: nat, cfg: Config, lo: nat, hi: nat)
    requires OnlyChanged(m, m', lo, hi) && Fits(m, off, cfg) && hi <= off + RING_HEADER_SIZE
    ensures View(m', off, cfg).descs == View(m, off, cfg).descs
    ensures View(m', off, cfg).bufs == View(m, off, cfg).bufs
  {
    DescsKept(m, m', off, cfg, lo, hi);
    BuffersKept(m, m', off, cfg, lo, hi);
  }

  /** A store into the t-th descriptor changes that descriptor only. */
  lemma DescStore(m: seq<u8>, m': seq<u8>, off: nat, cfg: Config, t: nat)
    requires Fits(m, off, cfg) && t < cfg.Size()
    requires OnlyChanged(m, m', DescPos(off, t), DescPos(off, t + 1))
    ensures View(m', off, cfg) == SetDesc(View(m, off, cfg), t, DescAt(m', DescPos(off, t)))
  {
    var v, v' := View(m, off, cfg), View(m', off, cfg);
    forall s | 0 <= s < cfg.Size() && s != t ensures v'.descs[s] == v.descs[s] {
      DescKept(m, m', DescPos(off, s), DescPos(off, t), DescPos(off, t + 1));
    }
    assert v'.descs == v.descs[t := DescAt(m', DescPos(off, t))];
    BuffersKept(m, m', off, cfg, DescPos(off, t), DescPos(off, t + 1));
  }

  /** Copying a chunk to the start of the t-th buffer changes that buffer only. */
  lemma BufferStore(m: seq<u8>, m': seq<u8>, off: nat, cfg: Config, t: nat, chunk: seq<u8>)
    requires Fits(m, off, cfg) && t < cfg.Size() && |chunk| <= cfg.bufferSize
    requires Stored(m, m', cfg.BufferOffset(t), chunk)
    ensures View(m', off, cfg) == SetBuf(View(m, off, cfg), t, Overwrite(BufferAt(m, off, cfg, t), chunk))
  {
    var v, v', lo := View(m, off, cfg), View(m', off, cfg), cfg.BufferOffset(t);
    DescsKept(m, m', off, cfg, lo, lo + |chunk|);
    forall s | 0 <= s < cfg.Size() && s != t ensures v'.bufs[s] == v.bufs[s] {
      OtherBuffer(m, m', off, cfg, s, t, |chunk|);
    }
    BufferOverwritten(m, m', off, cfg, t, chunk);
    assert v'.bufs == v.bufs[t := Overwrite(BufferAt(m, off, cfg, t), chunk)];
    assert Un16(m', off + RING_HEAD_OFFSET) == Un16(m, off + RING_HEAD_OFFSET);
    assert Un16(m', off + RING_TAIL_OFFSET) == Un16(m, off + RING_TAIL_OFFSET);
  }

  lemma OtherBuffer(m: seq<u8>, m': seq<u8>, off: nat, cfg: Config, s: nat, t: nat, n: nat)
    requires Fits(m, off, cfg) && s < cfg.Size() && t < cfg.Size() && s != t && n <= cfg.bufferSize
    requires OnlyChanged(m, m', cfg.BufferOffset(t), cfg.BufferOffset(t) + n)
    ensures BufferAt(m', off, cfg, s) == BufferAt(m, off, cfg, s)
  {
    if s < t {
      BufferOrder(cfg, s, t);
    } else {
      BufferOrder(cfg, t, s);
    }
    BufferKept(m, m', off, cfg, s, cfg.BufferOffset(t), cfg.BufferOffset(t) + n);
  }

  lemma BufferOverwritten(m: seq<u8>, m': seq<u8>, off: nat, cfg: Config, t: nat, chunk: seq<u8>)
    requires Fits(m, off, cfg) && t < cfg.Size() && |chunk| <= cfg.bufferSize
    requires Stored(m, m', cfg.BufferOffset(t), chunk)
    ensures BufferAt(m', off, cfg, t) == Overwrite(BufferAt(m, off, cfg, t), chunk)
  {
    var b, b', lo := BufferAt(m, off, cfg, t), BufferAt(m', off, cfg, t), cfg.BufferOffset(t);
    BufferOrder(cfg, t, cfg.Size());
    forall k | 0 <= k < cfg.bufferSize ensures b'[k] == Overwrite(b, chunk)[k] {
      assert b'[k] == m'[lo + k] && b[k] == m[lo + k];
      if k < |chunk| {
        assert m'[lo..lo + |chunk|][k] == m'[lo + k];
      }
    }
  }

  // ------------------------------------------------------------ stores, at both levels

  /** The region holds a ring at `off` whose every descriptor names its slot's buffer. */
  ghost predicate MemOk(m: seq<u8>, off: nat, cfg: Config) {
    cfg.Ok() && Fits(m, off, cfg) && ChanOk(cfg, View(m, off, cfg))
  }

  lemma StoreHead(m: seq<u8>, m': seq<u8>, off: nat, cfg: Config, v: u16)
    requires MemOk(m, off, cfg) && Stored(m, m', off + RING_HEAD_OFFSET, Le16(v))
    ensures MemOk(m', off, cfg) && View(m', off, cfg) == View(m, off, cfg).(head := v)
  {
    Le16At(m', off + RING_HEAD_OFFSET, v);
    HeaderStore(m, m', off, cfg, off + RING_HEAD_OFFSET, off + RING_HEAD_OFFSET + 2);
    assert Un16(m', off + RING_TAIL_OFFSET) == Un16(m, off + RING_TAIL_OFFSET);
  }

  lemma StoreTail(m: seq<u8>, m': seq<u8>, off: nat, cfg: Config, v: u16)
    requires MemOk(m, off, cfg) && Stored(m, m', off + RING_TAIL_OFFSET, Le16(v))
    ensures MemOk(m', off, cfg) && View(m', off, cfg) == View(m, off, cfg).(tail := v)
  {
    Le16At(m', off + RING_TAIL_OFFSET, v);
    HeaderStore(m, m', off, cfg, off + RING_TAIL_OFFSET, off + RING_TAIL_OFFSET + 2);
    assert Un16(m', off + RING_HEAD_OFFSET) == Un16(m, off + RING_HEAD_OFFSET);
  }

  lemma DescInside(m: seq<u8>, off: nat, cfg: Config, t: nat)
    requires MemOk(m, off, cfg) && t < cfg.Size()
    ensures DescPos(off, t) + DESC_SIZE <= DescPos(off, cfg.Size()) <= |m|
  {
  }

  lemma LoadDesc(m: seq<u8>, off: nat, cfg: Config, t: nat, db: seq<u8>)
    requires MemOk(m, off, cfg) && t < cfg.Size() && |db| == DESC_SIZE
    requires DescPos(off, t) + DESC_SIZE <= |m| && db == m[DescPos(off, t)..DescPos(off, t) + DESC_SIZE]
    ensures DescAt(db, 0) == View(m, off, cfg).descs[t] && DescOk(cfg, t, DescAt(db, 0))
  {
    assert db[0..DESC_SIZE] == db;
    SameDesc(db, 0, m, DescPos(off, t));
  }

  lemma StoreDesc(m: seq<u8>, m': seq<u8>, off: nat, cfg: Config, t: nat, db: seq<u8>)
    requires MemOk(m, off, cfg) && t < cfg.Size() && |db| == DESC_SIZE && DescOk(cfg, t, DescAt(db, 0))
    requires Stored(m, m', DescPos(off, t), db)
    ensures MemOk(m', off, cfg) && View(m', off, cfg) == SetDesc(View(m, off, cfg), t, DescAt(db, 0))
  {
    assert db[0..DESC_SIZE] == db;
    SameDesc(m', DescPos(off, t), db, 0);
    DescStore(m, m', off, cfg, t);
  }

  lemma StoreLength(m: seq<u8>, m': seq<u8>, off: nat, cfg: Config, t: nat, v: u16)
    requires MemOk(m, off, cfg) && t < cfg.Size() && Stored(m, m', DescPos(off, t) + DESC_LENGTH_OFFSET, Le16(v))
    requires SetLow16(View(m, off, cfg).descs[t].length, v) <= cfg.bufferSize
    ensures var d := View(m, off, cfg).descs[t];
            MemOk(m', off, cfg)
            && View(m', off, cfg) == SetDesc(View(m, off, cfg), t, d.(length := SetLow16(d.length, v)))
  {
    DescInside(m, off, cfg, t);
    LowLength(m, m', DescPos(off, t), v);
    DescStore(m, m', off, cfg, t);
  }

  /** The slave's refill of slot t. */
  lemma StoreWholeLength(m: seq<u8>, m': seq<u8>, off: nat, cfg: Config, t: nat)
    requires MemOk(m, off, cfg) && t < cfg.Size() && cfg.dir.M2S?
    requires Stored(m, m', DescPos(off, t) + DESC_LENGTH_OFFSET, Le16(U16(cfg.bufferSize)))
    ensures var d := View(m, off, cfg).descs[t];
            MemOk(m', off, cfg)
            && View(m', off, cfg) == SetDesc(View(m, off, cfg), t, d.(length := SetLow16(d.length, cfg.bufferSize)))
  {
    assert DescOk(cfg, t, View(m, off, cfg).descs[t]);
    hide View, ChanOk, SetLow16;
    RefillIsWhole(cfg, View(m, off, cfg).descs[t].length);
    StoreLength(m, m', off, cfg, t, U16(cfg.bufferSize));
  }

  lemma LowLength(m: seq<u8>, m': seq<u8>, p: nat, v: u16)
    requires p + DESC_SIZE <= |m| && Stored(m, m', p + DESC_LENGTH_OFFSET, Le16(v))
    ensures DescAt(m', p) == DescAt(m, p).(length := SetLow16(DescAt(m, p).length, v))
  {
    Le16At(m', p + DESC_LENGTH_OFFSET, v);
    assert Un16(m', p + DESC_LENGTH_OFFSET + 2) == Un16(m, p + DESC_LENGTH_OFFSET + 2);
    assert Un32(m', p + DESC_OFFSET_OFFSET) == Un32(m, p + DESC_OFFSET_OFFSET);
    assert Un32(m', p + DESC_METADATA_OFFSET) == Un32(m, p + DESC_METADATA_OFFSET);
  }

  lemma BufferInside(m: seq<u8>, off: nat, cfg: Config, t: nat)
    requires MemOk(m, off, cfg) && t < cfg.Size()
    ensures cfg.base <= cfg.BufferOffset(t)
    ensures cfg.BufferOffset(t) + cfg.bufferSize <= cfg.BufferOffset(cfg.Size()) <= |m|
  {
    BufferOrder(cfg, t, cfg.Size());
  }

  lemma BufferInView(m: seq<u8>, off: nat, cfg: Config, t: nat)
    requires MemOk(m, off, cfg) && t < cfg.Size()
    ensures var lo := cfg.BufferOffset(t);
            lo + cfg.bufferSize <= |m| && View(m, off, cfg).bufs[t] == m[lo..lo + cfg.bufferSize]
  {
    BufferInside(m, off, cfg, t);
  }

  lemma StoreChunk(m: seq<u8>, m': seq<u8>, off: nat, cfg: Config, t: nat, chunk: seq<u8>)
    requires MemOk(m, off, cfg) && t < cfg.Size() && |chunk| <= cfg.bufferSize
    requires Stored(m, m', cfg.BufferOffset(t), chunk)
    ensures var v := View(m, off, cfg);
            MemOk(m', off, cfg) && View(m', off, cfg) == SetBuf(v, t, Overwrite(v.bufs[t], chunk))
  {
    BufferStore(m, m', off, cfg, t, chunk);
  }
}
