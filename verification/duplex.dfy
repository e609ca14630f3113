/** Both rings of a pair in the bytes of one region, with all four peers' steps interleaved. */
module Duplex {
  import opened Bits
  import opened Ring
  import opened RingSystem
  import opened RingInvariant
  import opened Memory
  import opened Layout
  import opened Setup
  import Sharing

  /** A ring and where it lies. */
  datatype Place = Place(off: nat, cfg: Config) {
    function RingEnd(): nat {
      DescPos(off, cfg.Size())
    }

    function BuffersEnd(): nat {
      cfg.BufferOffset(cfg.Size())
    }

    /** The bytes that its peers may store to; Queue.Mine of either peer. */
    predicate Owns(k: nat) {
      off + RING_HEAD_OFFSET <= k < RingEnd() || cfg.base <= k < BuffersEnd()
    }
  }

  /** p's peers may have stored to the region, and nobody else. */
  ghost predicate OnlyOwn(p: Place, m: seq<u8>, m': seq<u8>) {
    |m'| == |m| && forall k :: 0 <= k < |m| && !p.Owns(k) ==> m'[k] == m[k]
  }

  /** Rings apart from each other and below both rings' buffers. */
  predicate RingsApart(p: Place, q: Place) {
    && (p.RingEnd() <= q.off || q.RingEnd() <= p.off)
    && p.RingEnd() <= q.cfg.base && q.RingEnd() <= p.cfg.base
  }

  predicate Apart(p: Place, q: Place) {
    RingsApart(p, q) && (p.BuffersEnd() <= q.cfg.base || q.BuffersEnd() <= p.cfg.base)
  }

  // ------------------------------------------------------------ what one ring's peers do to the other ring

  lemma RingKept(m: seq<u8>, m': seq<u8>, p: Place, q: Place)
    requires Fits(m, p.off, p.cfg) && Fits(m, q.off, q.cfg) && RingsApart(p, q) && OnlyOwn(p, m, m')
    ensures Fits(m', q.off, q.cfg)
    ensures View(m', q.off, q.cfg) == View(m, q.off, q.cfg).(bufs := View(m', q.off, q.cfg).bufs)
  {
    var v, v' := View(m, q.off, q.cfg), View(m', q.off, q.cfg);
    assert forall k :: q.off <= k < q.RingEnd() ==> !p.Owns(k);
    forall s | 0 <= s < q.cfg.Size() ensures v'.descs[s] == v.descs[s] {
      var at := DescPos(q.off, s);
      assert m'[at..at + DESC_SIZE] == m[at..at + DESC_SIZE];
      SameDesc(m', at, m, at);
    }
    assert v'.descs == v.descs;
  }

  /** With buffers of its own, the other ring is left as it is. */
  lemma RingAndBuffersKept(m: seq<u8>, m': seq<u8>, p: Place, q: Place)
    requires Fits(m, p.off, p.cfg) && Fits(m, q.off, q.cfg) && Apart(p, q) && OnlyOwn(p, m, m')
    ensures Fits(m', q.off, q.cfg) && View(m', q.off, q.cfg) == View(m, q.off, q.cfg)
  {
    RingKept(m, m', p, q);
    var v, v' := View(m, q.off, q.cfg), View(m', q.off, q.cfg);
    assert forall k :: q.cfg.base <= k < q.BuffersEnd() ==> !p.Owns(k);
    forall s | 0 <= s < q.cfg.Size() ensures v'.bufs[s] == v.bufs[s] {
      BufferOrder(q.cfg, s, q.cfg.Size());
      var lo, hi := q.cfg.BufferOffset(s), q.cfg.BufferOffset(s) + q.cfg.bufferSize;
      assert m'[lo..hi] == m[lo..hi];
    }
    assert v'.bufs == v.bufs;
  }

  /** With the same buffers, as the code lays them out, the other ring has what was written to them:
      Sharing.Beside is what happens in the region. */
  lemma BuffersShared(m: seq<u8>, m': seq<u8>, p: Place, q: Place)
    requires Fits(m, p.off, p.cfg) && Fits(m, q.off, q.cfg) && RingsApart(p, q) && OnlyOwn(p, m, m')
    requires q.cfg == p.cfg.(dir := q.cfg.dir)
    ensures Fits(m', q.off, q.cfg) && Fits(m', p.off, p.cfg)
    ensures View(m', q.off, q.cfg) == Sharing.Beside(View(m, q.off, q.cfg), View(m', p.off, p.cfg).bufs)
  {
    RingKept(m, m', p, q);
    var v, w := View(m', q.off, q.cfg), View(m', p.off, p.cfg);
    forall s | 0 <= s < q.cfg.Size() ensures v.bufs[s] == w.bufs[s] {
      assert q.cfg.BufferOffset(s) == p.cfg.BufferOffset(s);
    }
    assert v.bufs == w.bufs;
  }

  // ------------------------------------------------------------ the four peers

  /** What is not in the region: the private state of a ring's two peers, and their history. */
  datatype Peers = Peers(writer: Writer, reader: Reader, h: History)

  /** The region, the peers of the first ring and those of the second. */
  datatype State = State(m: seq<u8>, one: Peers, two: Peers)

  ghost function SysAt(m: seq<u8>, p: Place, peers: Peers): Sys
    requires Fits(m, p.off, p.cfg)
  {
    Sys(View(m, p.off, p.cfg), peers.writer, peers.reader, peers.h)
  }

  /** Next is defined. */
  ghost predicate Ready(m: seq<u8>, p: Place, peers: Peers) {
    Fits(m, p.off, p.cfg) && p.cfg.Ok() && SysOk(p.cfg, SysAt(m, p, peers))
  }

  ghost predicate Holds(m: seq<u8>, p: Place, peers: Peers) {
    Fits(m, p.off, p.cfg) && Inv(p.cfg, SysAt(m, p, peers))
  }

  lemma HoldsIsReady(m: seq<u8>, p: Place, peers: Peers)
    ensures Holds(m, p, peers) ==> Ready(m, p, peers)
  {
  }

  /** One action on the ring at p, in the region: the ring's view and peers change as Next says, and no byte
      outside the ring and its buffers changes. */
  ghost predicate Acts(p: Place, m: seq<u8>, peers: Peers, a: Action, m': seq<u8>, peers': Peers)
    requires Ready(m, p, peers)
  {
    && OnlyOwn(p, m, m')
    && Fits(m', p.off, p.cfg) && SysAt(m', p, peers') == Next(p.cfg, SysAt(m, p, peers), a)
  }

  /** One action of the four peers: on the first or on the second ring. */
  ghost predicate Step(p: Place, q: Place, x: State, onFirst: bool, a: Action, y: State)
    requires Ready(x.m, p, x.one) && Ready(x.m, q, x.two)
  {
    if onFirst then Acts(p, x.m, x.one, a, y.m, y.one) && y.two == x.two
    else Acts(q, x.m, x.two, a, y.m, y.two) && y.one == x.one
  }

  lemma StepKeeps(p: Place, q: Place, x: State, onFirst: bool, a: Action, y: State)
    requires Apart(p, q) && Holds(x.m, p, x.one) && Holds(x.m, q, x.two)
    requires Ready(x.m, p, x.one) && Ready(x.m, q, x.two) && Step(p, q, x, onFirst, a, y)
    ensures Holds(y.m, p, y.one) && Holds(y.m, q, y.two)
  {
    hide View, Inv, Next, Apart, OnlyOwn;
    if onFirst {
      RingAndBuffersKept(x.m, y.m, p, q);
      NextKeeps(p.cfg, SysAt(x.m, p, x.one), a);
    } else {
      ApartEitherWay(p, q);
      RingAndBuffersKept(x.m, y.m, q, p);
      NextKeeps(q.cfg, SysAt(x.m, q, x.two), a);
    }
  }

  lemma ApartEitherWay(p: Place, q: Place)
    requires Apart(p, q)
    ensures Apart(q, p)
  {
  }

  /** A run: each state follows from the one before by one action on one of the rings. */
  ghost predicate IsRun(p: Place, q: Place, states: seq<State>, actions: seq<(bool, Action)>) {
    && |states| == |actions| + 1
    && forall i :: 0 <= i < |actions| ==>
         Ready(states[i].m, p, states[i].one) && Ready(states[i].m, q, states[i].two)
         ==> Step(p, q, states[i], actions[i].0, actions[i].1, states[i + 1])
  }

  lemma {:induction false} RunHolds(p: Place, q: Place, states: seq<State>, actions: seq<(bool, Action)>, i: nat)
    requires Apart(p, q) && IsRun(p, q, states, actions) && i < |states|
    requires Holds(states[0].m, p, states[0].one) && Holds(states[0].m, q, states[0].two)
    ensures Holds(states[i].m, p, states[i].one) && Holds(states[i].m, q, states[i].two)
  {
    hide Holds, Ready, Step, Apart;
    if i > 0 {
      RunHolds(p, q, states, actions, i - 1);
      HoldsIsReady(states[i - 1].m, p, states[i - 1].one);
      HoldsIsReady(states[i - 1].m, q, states[i - 1].two);
      StepKeeps(p, q, states[i - 1], actions[i - 1].0, actions[i - 1].1, states[i]);
    }
  }

  /** Two rings with buffers of their own in one region, both in the initial state. Whatever the four peers do,
      in whatever order, each ring stays a FIFO: its reads hand out, in order, what the first packets sent
      on it turn into. */
  lemma BothAreFifos(p: Place, q: Place, states: seq<State>, actions: seq<(bool, Action)>, i: nat)
    requires Apart(p, q) && p.cfg.Ok() && q.cfg.Ok() && IsRun(p, q, states, actions) && i < |states|
    requires Fits(states[0].m, p.off, p.cfg) && Initial(p.cfg, SysAt(states[0].m, p, states[0].one))
    requires Fits(states[0].m, q.off, q.cfg) && Initial(q.cfg, SysAt(states[0].m, q, states[0].two))
    ensures Delivered(p.cfg, states[i].one.h.sent, states[i].one.h.delivered) && !states[i].one.reader.pc.RIncomplete?
    ensures Delivered(q.cfg, states[i].two.h.sent, states[i].two.h.delivered) && !states[i].two.reader.pc.RIncomplete?
  {
    hide IsRun, Step, Initial, Apart;
    InitialInv(p.cfg, SysAt(states[0].m, p, states[0].one));
    InitialInv(q.cfg, SysAt(states[0].m, q, states[0].two));
    RunHolds(p, q, states, actions, i);
  }

  // ------------------------------------------------------------ shared buffers

  /** The ring at p and the one at q over the same buffers, as the code lays them out. */
  predicate Sharers(p: Place, q: Place) {
    RingsApart(p, q) && q.cfg == p.cfg.(dir := q.cfg.dir)
  }

  /** The writer of ring x is about to copy bytes into a slot that ring y holds something in. */
  ghost predicate Clash(cfg: Config, x: Sys, other: Config, y: Sys)
    requires other.bufferSize > 0
  {
    && x.writer.WCopy?
    && Chunk(cfg.corrected, x.writer.pkt, x.writer.n, x.writer.cap) != []
    && Sharing.Occupied(other, y, cfg.At(x.writer.slot))
  }

  /** The action makes such a copy. */
  ghost predicate Clashes(p: Place, q: Place, x: State, onFirst: bool, a: Action)
    requires Ready(x.m, p, x.one) && Ready(x.m, q, x.two)
  {
    var one, two := SysAt(x.m, p, x.one), SysAt(x.m, q, x.two);
    a.WriterStep? && if onFirst then Clash(p.cfg, one, q.cfg, two) else Clash(q.cfg, two, p.cfg, one)
  }

  /** An action without such a copy leaves the other ring intact. */
  lemma OtherRingIntact(m: seq<u8>, m': seq<u8>, p: Place, peers: Peers, peers': Peers,
                        q: Place, others: Peers, a: Action)
    requires Sharers(p, q) && Holds(m, p, peers) && Holds(m, q, others) && Ready(m, p, peers)
    requires Acts(p, m, peers, a, m', peers')
    requires a.WriterStep? ==> !Clash(p.cfg, SysAt(m, p, peers), q.cfg, SysAt(m, q, others))
    ensures Holds(m', q, others)
  {
    hide View, HistoryOk, IndicesOk, WindowOk, WriterInv, ReaderInv;
    var s, o := SysAt(m, p, peers), SysAt(m, q, others);
    BuffersShared(m, m, p, q);
    BuffersShared(m, m', p, q);
    var t := Next(p.cfg, s, a);
    assert SysAt(m', q, others) == o.(chan := Sharing.Beside(o.chan, t.chan.bufs));
    if a.WriterStep? && s.writer.WCopy? {
      var chunk := Chunk(p.cfg.corrected, s.writer.pkt, s.writer.n, s.writer.cap);
      var at := p.cfg.At(s.writer.slot);
      assert t.chan.bufs == s.chan.bufs[at := Overwrite(s.chan.bufs[at], chunk)];
      if chunk == [] {
        assert Overwrite(s.chan.bufs[at], chunk) == s.chan.bufs[at];
        assert t.chan.bufs == s.chan.bufs;
        assert SysAt(m', q, others) == o;
      } else {
        Sharing.Harmless(q.cfg, o, at, chunk);
        assert SysAt(m', q, others) == Sharing.Intruded(q.cfg, o, at, chunk);
      }
    } else {
      OnlyCopiesFill(p.cfg, s, a);
      assert SysAt(m', q, others) == o;
    }
  }

  lemma OnlyCopiesFill(cfg: Config, s: Sys, a: Action)
    requires cfg.Ok() && SysOk(cfg, s) && !(a.WriterStep? && s.writer.WCopy?)
    ensures Next(cfg, s, a).chan.bufs == s.chan.bufs
  {
  }

  lemma SharedStepKeeps(p: Place, q: Place, x: State, onFirst: bool, a: Action, y: State)
    requires Sharers(p, q) && Holds(x.m, p, x.one) && Holds(x.m, q, x.two)
    requires Ready(x.m, p, x.one) && Ready(x.m, q, x.two) && Step(p, q, x, onFirst, a, y)
    requires !Clashes(p, q, x, onFirst, a)
    ensures Holds(y.m, p, y.one) && Holds(y.m, q, y.two)
  {
    hide View, Inv, Next, OnlyOwn, Clash;
    if onFirst {
      OtherRingIntact(x.m, y.m, p, x.one, y.one, q, x.two, a);
      NextKeeps(p.cfg, SysAt(x.m, p, x.one), a);
    } else {
      OtherRingIntact(x.m, y.m, q, x.two, y.two, p, x.one, a);
      NextKeeps(q.cfg, SysAt(x.m, q, x.two), a);
    }
  }

  /** No action of the run clashes. */
  ghost predicate NoClash(p: Place, q: Place, states: seq<State>, actions: seq<(bool, Action)>)
    requires |states| == |actions| + 1
  {
    forall i :: 0 <= i < |actions| ==>
      Ready(states[i].m, p, states[i].one) && Ready(states[i].m, q, states[i].two)
      ==> !Clashes(p, q, states[i], actions[i].0, actions[i].1)
  }

  lemma {:induction false} SharedRunHolds(p: Place, q: Place, states: seq<State>, actions: seq<(bool, Action)>, i: nat)
    requires Sharers(p, q) && IsRun(p, q, states, actions) && NoClash(p, q, states, actions) && i < |states|
    requires Holds(states[0].m, p, states[0].one) && Holds(states[0].m, q, states[0].two)
    ensures Holds(states[i].m, p, states[i].one) && Holds(states[i].m, q, states[i].two)
  {
    hide Holds, Ready, Step, Sharers, Clashes;
    if i > 0 {
      SharedRunHolds(p, q, states, actions, i - 1);
      HoldsIsReady(states[i - 1].m, p, states[i - 1].one);
      HoldsIsReady(states[i - 1].m, q, states[i - 1].two);
      SharedStepKeeps(p, q, states[i - 1], actions[i - 1].0, actions[i - 1].1, states[i]);
    }
  }

  /** The layout as written: two rings over the same buffers, both in the initial state. In every run of the four
      peers in which no write copies bytes into a slot that the other ring holds unread bytes, or a chunk of a
      write under way, in, each ring stays a FIFO. By Sharing.CopyLeavesIntact the condition is exact, step
      by step. */
  lemma SharedAreFifosWithoutClash(p: Place, q: Place, states: seq<State>, actions: seq<(bool, Action)>, i: nat)
    requires Sharers(p, q) && p.cfg.Ok() && q.cfg.Ok() && IsRun(p, q, states, actions) && i < |states|
    requires NoClash(p, q, states, actions)
    requires Fits(states[0].m, p.off, p.cfg) && Initial(p.cfg, SysAt(states[0].m, p, states[0].one))
    requires Fits(states[0].m, q.off, q.cfg) && Initial(q.cfg, SysAt(states[0].m, q, states[0].two))
    ensures Delivered(p.cfg, states[i].one.h.sent, states[i].one.h.delivered) && !states[i].one.reader.pc.RIncomplete?
    ensures Delivered(q.cfg, states[i].two.h.sent, states[i].two.h.delivered) && !states[i].two.reader.pc.RIncomplete?
  {
    hide IsRun, Step, Initial, Sharers, NoClash;
    InitialInv(p.cfg, SysAt(states[0].m, p, states[0].one));
    InitialInv(q.cfg, SysAt(states[0].m, q, states[0].two));
    SharedRunHolds(p, q, states, actions, i);
  }

  // ------------------------------------------------------------ every action can be taken

  /** The accesses that a step may make to the shared part of a ring. */
  ghost predicate OneAccess(cfg: Config, c: Chan, c': Chan)
    requires ChanOk(cfg, c)
  {
    || c' == c
    || c' == c.(head := c'.head)
    || c' == c.(tail := c'.tail)
    || (exists t: nat, d: Desc :: t < cfg.Size() && DescOk(cfg, t, d) && c' == SetDesc(c, t, d))
    || (exists t: nat, chunk: seq<u8> :: t < cfg.Size() && |chunk| <= cfg.bufferSize
                                         && c' == SetBuf(c, t, Overwrite(c.bufs[t], chunk)))
  }

  lemma NextIsOneAccess(cfg: Config, s: Sys, a: Action)
    requires Inv(cfg, s)
    ensures OneAccess(cfg, s.chan, Next(cfg, s, a).chan)
  {
    hide HistoryOk, IndicesOk, WindowOk, WriterInv, ReaderInv;
    match a
    case SubmitPacket(_) =>
    case CallRead =>
    case WriterStep => WStepIsOneAccess(cfg, s.chan, s.writer);
    case ReaderStep => RStepIsOneAccess(cfg, s.chan, s.reader);
  }

  lemma WStepIsOneAccess(cfg: Config, c: Chan, w: Writer)
    requires cfg.Ok() && ChanOk(cfg, c) && WriterOk(cfg, w)
    ensures OneAccess(cfg, c, WStep(cfg, c, w).0)
  {
    match w
    case WCopy(pkt, slot, _, n, _, cap) =>
      var chunk := Chunk(cfg.corrected, pkt, n, cap);
      assert WStep(cfg, c, w).0 == SetBuf(c, cfg.At(slot), Overwrite(c.bufs[cfg.At(slot)], chunk));
    case WPut(pkt, slot, nFree, n, desc) =>
      if n < |pkt| && nFree > 1 {
        assert WStep(cfg, c, w).0 == SetDesc(c, cfg.At(slot), desc.(flags := DESC_FLAG_NEXT));
      } else if n >= |pkt| {
        assert WStep(cfg, c, w).0 == SetDesc(c, cfg.At(slot), desc);
      }
    case _ =>
  }

  lemma RStepIsOneAccess(cfg: Config, c: Chan, r: Reader)
    requires cfg.Ok() && ChanOk(cfg, c) && ReaderOk(cfg, r)
    ensures OneAccess(cfg, c, RStep(cfg, c, r).0)
  {
    if r.pc.RRefill? && r.pc.left > 0 {
      var s := cfg.At(r.pc.head);
      RefillIsWhole(cfg, c.descs[s].length);
      assert RStep(cfg, c, r).0 == SetDesc(c, s, c.descs[s].(length := SetLow16(c.descs[s].length, cfg.bufferSize)));
    }
  }

  /** The region with the bytes b stored at `at`. */
  function Store(m: seq<u8>, at: nat, b: seq<u8>): (m': seq<u8>)
    requires at + |b| <= |m|
    ensures Stored(m, m', at, b)
  {
    m[..at] + b + m[at + |b|..]
  }

  /** Each of them can be made in the region, within the ring's own bytes. */
  lemma AccessInRegion(m: seq<u8>, p: Place, c': Chan) returns (m': seq<u8>)
    requires MemOk(m, p.off, p.cfg) && OneAccess(p.cfg, View(m, p.off, p.cfg), c')
    ensures OnlyOwn(p, m, m') && MemOk(m', p.off, p.cfg) && View(m', p.off, p.cfg) == c'
  {
    hide View;
    var c := View(m, p.off, p.cfg);
    if c' == c {
      m' := m;
    } else if c' == c.(head := c'.head) {
      m' := Store(m, p.off + RING_HEAD_OFFSET, Le16(c'.head));
      StoreHead(m, m', p.off, p.cfg, c'.head);
    } else if c' == c.(tail := c'.tail) {
      m' := Store(m, p.off + RING_TAIL_OFFSET, Le16(c'.tail));
      StoreTail(m, m', p.off, p.cfg, c'.tail);
    } else if t: nat, d: Desc :| t < p.cfg.Size() && DescOk(p.cfg, t, d) && c' == SetDesc(c, t, d) {
      m' := DescInRegion(m, p, t, d);
    } else {
      var t: nat, chunk: seq<u8> :| t < p.cfg.Size() && |chunk| <= p.cfg.bufferSize
                                    && c' == SetBuf(c, t, Overwrite(c.bufs[t], chunk));
      m' := ChunkInRegion(m, p, t, chunk);
    }
  }

  lemma DescInRegion(m: seq<u8>, p: Place, t: nat, d: Desc) returns (m': seq<u8>)
    requires MemOk(m, p.off, p.cfg) && t < p.cfg.Size() && DescOk(p.cfg, t, d)
    ensures OnlyOwn(p, m, m') && MemOk(m', p.off, p.cfg)
    ensures View(m', p.off, p.cfg) == SetDesc(View(m, p.off, p.cfg), t, d)
  {
    hide View, ChanOk;
    DescRoundTrip(d);
    DescInside(m, p.off, p.cfg, t);
    m' := Store(m, DescPos(p.off, t), DescBytes(d));
    StoreDesc(m, m', p.off, p.cfg, t, DescBytes(d));
  }

  lemma ChunkInRegion(m: seq<u8>, p: Place, t: nat, chunk: seq<u8>) returns (m': seq<u8>)
    requires MemOk(m, p.off, p.cfg) && t < p.cfg.Size() && |chunk| <= p.cfg.bufferSize
    ensures OnlyOwn(p, m, m') && MemOk(m', p.off, p.cfg)
    ensures var c := View(m, p.off, p.cfg); View(m', p.off, p.cfg) == SetBuf(c, t, Overwrite(c.bufs[t], chunk))
  {
    hide View, ChanOk;
    BufferInside(m, p.off, p.cfg, t);
    m' := Store(m, p.cfg.BufferOffset(t), chunk);
    StoreChunk(m, m', p.off, p.cfg, t, chunk);
  }

  /** So from any state, each action on either ring is possible. */
  lemma EveryActionIsPossible(p: Place, m: seq<u8>, peers: Peers, a: Action) returns (m': seq<u8>, peers': Peers)
    requires Holds(m, p, peers)
    ensures Ready(m, p, peers) && Acts(p, m, peers, a, m', peers')
  {
    var t := Next(p.cfg, SysAt(m, p, peers), a);
    NextIsOneAccess(p.cfg, SysAt(m, p, peers), a);
    m' := AccessInRegion(m, p, t.chan);
    peers' := Peers(t.writer, t.reader, t.h);
  }

  // ------------------------------------------------------------ layouts

  /** The buffers of all rings of one direction. */
  function HalfOfBuffers(pairs: nat, log2: nat, bufferSize: nat): nat {
    (bufferSize * Pow2(log2)) * pairs
  }

  /** Queue 0 as the code lays it out, ... */
  function AsWritten(dir: Direction, pairs: u16, log2: nat, bufferSize: u32, corrected: bool): Place {
    Place(RingOffset(pairs, log2, dir, 0), QueueZero(dir, pairs, log2, bufferSize, corrected))
  }

  /** ... and with the corrected receive base: the M2S rings' buffers above all of the S2M rings', in the half
      of the region that addRegion reserves for them. */
  function CorrectedBase(dir: Direction, pairs: u16, log2: nat, bufferSize: u32, corrected: bool): Place {
    var p := AsWritten(dir, pairs, log2, bufferSize, corrected);
    if dir.S2M? then p
    else p.(cfg := p.cfg.(base := p.cfg.base + HalfOfBuffers(pairs, log2, bufferSize)))
  }

  /** The corrected layout has room in the region that the code allocates, and its rings are apart; the
      code's own are never. */
  lemma CorrectedLayoutIsApart(m: seq<u8>, pairs: u16, log2: nat, bufferSize: u32, corrected: bool)
    requires 0 < pairs && 0 < bufferSize < 0x1_0000 && NoOverflow(pairs, log2, bufferSize)
    requires |m| == RegionSize(pairs, log2, bufferSize)
    ensures var p, q := CorrectedBase(S2M, pairs, log2, bufferSize, corrected),
                        CorrectedBase(M2S, pairs, log2, bufferSize, corrected);
            p.cfg.Ok() && q.cfg.Ok() && Fits(m, p.off, p.cfg) && Fits(m, q.off, q.cfg) && Apart(p, q)
    ensures var p, q := AsWritten(S2M, pairs, log2, bufferSize, corrected),
                        AsWritten(M2S, pairs, log2, bufferSize, corrected);
            Fits(m, p.off, p.cfg) && Fits(m, q.off, q.cfg) && Sharers(p, q) && !Apart(p, q)
  {
    hide RegionSize, PacketBufferOffset, RingOffset, RingsEnd, RingBytes, Pow2;
    QueueZeroFits(m, S2M, pairs, log2, bufferSize, corrected);
    QueueZeroFits(m, M2S, pairs, log2, bufferSize, corrected);
    RegionIsRingsAndBuffers(pairs, log2, bufferSize);
    BuffersStartAfterRings(pairs, log2);
    TwoRingsBelow(pairs, log2);
    HalvesOfBuffers(pairs, bufferSize * Pow2(log2));
    MulSwap(bufferSize, Pow2(log2));
    AtLeastFactors(bufferSize, Pow2(log2));
  }

  lemma TwoRingsBelow(pairs: u16, log2: nat)
    requires pairs > 0
    ensures DescPos(RingOffset(pairs, log2, S2M, 0), Pow2(log2)) == RingBytes(log2)
            <= RingOffset(pairs, log2, M2S, 0) == pairs * RingBytes(log2)
    ensures DescPos(RingOffset(pairs, log2, M2S, 0), Pow2(log2)) <= RingsEnd(pairs, log2)
  {
    TwoRingsFit(pairs, RingBytes(log2));
    MulMono(1, pairs, RingBytes(log2));
  }

  lemma HalvesOfBuffers(pairs: u16, X: nat)
    requires pairs > 0
    ensures X <= X * pairs && X * (pairs + pairs) == X * pairs + X * pairs
  {
    MulMono(1, pairs, X);
    MulSwap(X, pairs);
  }

  /** What an initializeQueues with the corrected base leaves: the region of the code's own, but for the M2S
      descriptors of queue 0, each of which names a buffer in the other half. */
  lemma CorrectedRegion(m: seq<u8>, pairs: u16, log2: nat, bufferSize: u32, corrected: bool) returns (m': seq<u8>)
    requires 0 < pairs && 0 < bufferSize < 0x1_0000 && NoOverflow(pairs, log2, bufferSize)
    requires |m| == RegionSize(pairs, log2, bufferSize) && RingsOk(m, pairs, log2, pairs + pairs, bufferSize)
    ensures |m'| == |m|
    ensures var p, q := CorrectedBase(S2M, pairs, log2, bufferSize, corrected),
                        CorrectedBase(M2S, pairs, log2, bufferSize, corrected);
            && Apart(p, q) && Fits(m', p.off, p.cfg) && Fits(m', q.off, q.cfg) && p.cfg.Ok() && q.cfg.Ok()
            && Initial(p.cfg, Outset(p.cfg, View(m', p.off, p.cfg)))
            && Initial(q.cfg, Outset(q.cfg, View(m', q.off, q.cfg)))
  {
    var p, q := CorrectedBase(S2M, pairs, log2, bufferSize, corrected),
                CorrectedBase(M2S, pairs, log2, bufferSize, corrected);
    CorrectedLayoutIsApart(m, pairs, log2, bufferSize, corrected);
    QueueZeroStartsEmpty(m, S2M, pairs, log2, bufferSize, corrected);
    hide RegionSize, NoOverflow, RingsOk, DescsOk, View, InitialChan, Initial, Apart, Fits, HeaderOk, DescAt;
    assert HeaderOk(m, q.off) by { HeaderOfQueueZero(m, pairs, log2, bufferSize); }
    m' := Relocated(m, q, q.cfg.Size());
    KeptBelow(m, m', p, q);
    HeaderStays(m, m', q);
    FreshIsInitial(m', q.off, q.cfg);
    InitialFromFresh(m', q);
  }

  lemma HeaderOfQueueZero(m: seq<u8>, pairs: u16, log2: nat, bufferSize: u32)
    requires 0 < pairs && RingsOk(m, pairs, log2, pairs + pairs, bufferSize)
    ensures HeaderOk(m, RingOffset(pairs, log2, M2S, 0))
  {
    RingOffsetIs(pairs, log2, M2S, 0);
    assert HeaderOk(m, RingStart(log2, pairs));
  }

  /** The first n descriptors of the ring rewritten, and nothing else. */
  lemma {:induction false} Relocated(m: seq<u8>, q: Place, n: nat) returns (m': seq<u8>)
    requires Fits(m, q.off, q.cfg) && n <= q.cfg.Size() && q.cfg.bufferSize < 0x1_0000_0000
    ensures OnlyChanged(m, m', DescPos(q.off, 0), DescPos(q.off, n))
    ensures DescsOk(m', q.off, 0, n, q.cfg.base, q.cfg.bufferSize)
  {
    hide FreshDesc;
    if n == 0 {
      m' := m;
    } else {
      var m1 := Relocated(m, q, n - 1);
      var d := FreshDesc(q.cfg.base, q.cfg.bufferSize, n - 1);
      DescRoundTrip(d);
      m' := Store(m1, DescPos(q.off, n - 1), DescBytes(d));
      MoreDescs(m1, m', q.off, 0, n - 1, q.cfg.base, q.cfg.bufferSize, DescBytes(d));
    }
  }

  lemma KeptBelow(m: seq<u8>, m': seq<u8>, p: Place, q: Place)
    requires Fits(m, p.off, p.cfg) && Fits(m, q.off, q.cfg) && Apart(p, q)
    requires OnlyChanged(m, m', DescPos(q.off, 0), q.RingEnd())
    ensures Fits(m', p.off, p.cfg) && View(m', p.off, p.cfg) == View(m, p.off, p.cfg)
  {
    ApartEitherWay(p, q);
    RingAndBuffersKept(m, m', q, p);
  }

  lemma HeaderStays(m: seq<u8>, m': seq<u8>, q: Place)
    requires Fits(m, q.off, q.cfg) && HeaderOk(m, q.off)
    requires OnlyChanged(m, m', DescPos(q.off, 0), q.RingEnd())
    ensures Fits(m', q.off, q.cfg) && HeaderOk(m', q.off)
  {
    HeaderKept(m, m', q.off);
  }

  lemma InitialFromFresh(m: seq<u8>, q: Place)
    requires q.cfg.Ok() && Fits(m, q.off, q.cfg) && InitialChan(q.cfg, View(m, q.off, q.cfg))
    ensures Initial(q.cfg, Outset(q.cfg, View(m, q.off, q.cfg)))
  {
  }
}
