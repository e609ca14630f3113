/** A slave and a master connected by a reliable, ordered channel of 128-byte frames: the handshake as
    a whole, with either end free to disconnect or vanish at any moment. */
module Handshake {
  import opened Bits
  import opened Ring
  import opened Layout
  import opened Messages
  import opened Control
  import opened Effects
  import Memory

  /** The two programs. `slave` is the interface that asks for a connection, `offers` the master socket's
      free master interfaces in the order of its list. All are idle: new, or disconnected from an earlier
      peer. */
  datatype Programs = Programs(slaveApp: seq<u8>, masterApp: seq<u8>, slave: Iface, offers: seq<Iface>) {
    predicate Ok() {
      IsIdle(slave) && forall i :: i in offers ==> IsIdle(i) && i.args.isMaster
    }

    /** What the master has for the slave's id. */
    function Candidate(): Option<Iface> {
      FirstOffer(offers, slave.args.id)
    }

    /** What the master has for the id in a message. */
    function OfferFor(m: Msg): Option<Iface> {
      if m.Init? then FirstOffer(offers, m.id) else None
    }
  }

  type Parties = p: Programs | p.Ok()
    witness Programs([], [], Fresh(Args(0, false, [], Zeros(24), MemoryConfig(0, 0, 0))), [])

  /** Nothing of an earlier connection is left but the numbers it ran with. */
  predicate IsIdle(i: Iface) {
    i == Fresh(i.args).(run := i.run)
  }

  /** What is in flight is kept as messages; a frame, with arbitrary bytes after the message, is
      made and parsed when it is delivered. sent and taken count script messages. */
  datatype Net = Net(slave: Channel, master: Channel, toSlave: seq<Msg>, toMaster: seq<Msg>,
                     greeted: bool, sent: nat, taken: nat)

  /** RequestConnection on the slave, and the master's listener has accepted and greeted. */
  function Start(p: Parties): Net {
    Net(Channel(Some(p.slave), [], false, true, false), Channel(None, [], false, true, false),
        [HelloMsg(p.masterApp)], [], false, 0, 0)
  }

  datatype Action =
    | ToSlave(beyond: seq<u8>, text: Bytes96)
    | ToMaster(beyond: seq<u8>, text: Bytes96)
    | SlaveDisconnects(text: Bytes96)
    | MasterDisconnects(text: Bytes96)
    | SlaveHangsUp
    | MasterHangsUp

  /** The message at the head of a queue, after its trip as a frame. */
  function Arrived(m: Msg, beyond: seq<u8>): Parsed {
    Parse(Frame(m, beyond))
  }

  function Next(p: Parties, n: Net, a: Action): Net {
    match a
    case ToSlave(beyond, text) =>
      if !n.slave.open || n.toSlave == [] then n else
        var arrived := Arrived(n.toSlave[0], beyond);
        if arrived.Unknown? then n else
          var o := Receive(p.slaveApp, n.slave, arrived.msg, None, text);
          n.(slave := o.ch, toSlave := n.toSlave[1..], toMaster := n.toMaster + o.out,
             greeted := true, sent := n.sent + |o.out|)
    case ToMaster(beyond, text) =>
      if !n.master.open || n.toMaster == [] then n else
        var arrived := Arrived(n.toMaster[0], beyond);
        if arrived.Unknown? then n else
          var o := Receive(p.masterApp, n.master, arrived.msg, p.OfferFor(arrived.msg), text);
          n.(master := o.ch, toMaster := n.toMaster[1..], toSlave := n.toSlave + o.out, taken := n.taken + 1)
    case SlaveDisconnects(text) =>
      if !n.slave.open then n else
        var o := CloseAndTell(n.slave, text);
        n.(slave := o.ch, toMaster := n.toMaster + o.out)
    case MasterDisconnects(text) =>
      if !n.master.open then n else
        var o := CloseAndTell(n.master, text);
        n.(master := o.ch, toSlave := n.toSlave + o.out)
    case SlaveHangsUp => if n.slave.open then n.(slave := HungUp(n.slave)) else n
    case MasterHangsUp => if n.master.open then n.(master := HungUp(n.master)) else n
  }

  function Run(p: Parties, n: Net, actions: seq<Action>): Net
    decreases |actions|
  {
    if actions == [] then n else Run(p, Next(p, n, actions[0]), actions[1..])
  }

  // ------------------------------------------------------------ what the slave says, one by one

  /** The negotiated number of queue pairs. */
  function Pairs(p: Parties): nat {
    Min(p.slave.args.mem.pairs, 255)
  }

  /** The slave's interface once it has been greeted. */
  function SlaveIface(p: Parties): Iface {
    Ready(p.slave, HelloMsg(p.masterApp))
  }

  function ScriptLength(p: Parties): nat {
    2 * Pairs(p) + 3
  }

  /** The k-th message of the slave's script. */
  function Line(p: Parties, k: nat): Msg
    requires k < ScriptLength(p)
  {
    var N, i := Pairs(p), SlaveIface(p);
    if k == 0 then InitMsg(p.slaveApp, i)
    else if k == 1 then AddRegion(0, i.regions[0].size)
    else if k < 2 + N then AddRingMsg(i.tx[k - 2], k - 2)
    else if k < 2 + 2 * N then AddRingMsg(i.rx[k - 2 - N], k - 2 - N)
    else Connect(Fixed(i.args.name, 32))
  }

  lemma ScriptIsLines(p: Parties)
    ensures var s := Script(p.slaveApp, SlaveIface(p));
            |s| == ScriptLength(p) && forall k :: 0 <= k < |s| ==> s[k] == Line(p, k)
  {
  }

  // ------------------------------------------------------------ what the master makes of it

  function Clamp(x: int, n: nat): nat {
    if x < 0 then 0 else if x > n then n else x
  }

  /** The master's channel after k script messages. */
  function MasterAfter(p: Parties, k: nat): Channel
    requires k <= ScriptLength(p) && (k > 0 ==> p.Candidate().Some?)
  {
    var N := Pairs(p);
    if k == 0 then Channel(None, [], false, true, false) else
      var i := Bound(p.Candidate().value, InitMsg(p.slaveApp, SlaveIface(p)));
      var i1 := if k < 2 then i else i.(regions := [Region(SlaveIface(p).regions[0].size, false)]);
      var i2 := i1.(rx := SlaveIface(p).tx[..Clamp(k - 2, N)], tx := SlaveIface(p).rx[..Clamp(k - 2 - N, N)]);
      if k < ScriptLength(p) then Channel(Some(i2), [], false, true, false)
      else Channel(Some(ConnectedIface(i2, Fixed(p.slave.args.name, 32))), [], true, true, false)
  }

  /** How many script messages the master takes: all, unless it has no interface to offer, or one
      with a secret (the slave never sends one), or fewer queue pairs than the slave asks for. */
  function Limit(p: Parties): nat {
    if p.Candidate().None? || p.Candidate().value.args.secret != Zeros(24) then 0
    else if Pairs(p) <= p.Candidate().value.args.mem.pairs then ScriptLength(p)
    else 2 + p.Candidate().value.args.mem.pairs
  }

  /** The master's answer to the k-th line. */
  function Answer(p: Parties, k: nat): Msg
    requires k < ScriptLength(p) && p.Candidate().Some?
  {
    if k + 1 < ScriptLength(p) then Ack else Connected(Fixed(p.Candidate().value.args.name, 32))
  }

  /** Taking a line below the limit moves the master on and answers; the line at the limit makes it
      tell the slave and close. */
  lemma MasterTakes(p: Parties, k: nat, text: Bytes96)
    requires k <= Limit(p) && k < ScriptLength(p)
    ensures k > 0 ==> p.Candidate().Some?
    ensures var o := Receive(p.masterApp, MasterAfter(p, k), Line(p, k), p.OfferFor(Line(p, k)), text);
            if k < Limit(p) then p.Candidate().Some? && o == Outcome(MasterAfter(p, k + 1), [Answer(p, k)])
            else o == CloseAndTell(MasterAfter(p, k), text)
  {
    hide RegionSize, RingOffset;
    var N, i := Pairs(p), SlaveIface(p);
    if k < 2 {
      assert i.tx[..0] == [] && i.rx[..0] == [];
      assert Clamp(k - 1, N) == 0 && Clamp(k - 1 - N, N) == 0 && Clamp(k - 2, N) == 0 && Clamp(k - 2 - N, N) == 0;
      if k == 1 {
        assert [] + [Region(i.regions[0].size, false)] == [Region(i.regions[0].size, false)];
      }
    } else if k < 2 + N {
      MasterTakesS2M(p, k, text);
    } else if k < 2 + 2 * N {
      MasterTakesM2S(p, k, text);
    } else {
      assert Clamp(k - 2, N) == N && Clamp(k - 2 - N, N) == N;
    }
  }

  lemma MasterTakesS2M(p: Parties, k: nat, text: Bytes96)
    requires k <= Limit(p) && 2 <= k < 2 + Pairs(p)
    ensures p.Candidate().Some?
    ensures var o := Receive(p.masterApp, MasterAfter(p, k), Line(p, k), p.OfferFor(Line(p, k)), text);
            if k < Limit(p) then o == Outcome(MasterAfter(p, k + 1), [Ack])
            else o == CloseAndTell(MasterAfter(p, k), text)
  {
    hide RegionSize, RingOffset;
    var N, i := Pairs(p), SlaveIface(p);
    OffsetFits(p, S2M, k - 2);
    assert i.tx[..k - 2] + [i.tx[k - 2]] == i.tx[..k - 1];
    assert Clamp(k - 2, N) == k - 2 && Clamp(k - 1, N) == k - 1 && Clamp(k - 2 - N, N) == Clamp(k - 1 - N, N) == 0;
  }

  lemma MasterTakesM2S(p: Parties, k: nat, text: Bytes96)
    requires k <= Limit(p) && 2 + Pairs(p) <= k < 2 + 2 * Pairs(p)
    ensures p.Candidate().Some? && k < Limit(p)
    ensures Receive(p.masterApp, MasterAfter(p, k), Line(p, k), p.OfferFor(Line(p, k)), text)
         == Outcome(MasterAfter(p, k + 1), [Ack])
  {
    hide RegionSize, RingOffset;
    var N, i := Pairs(p), SlaveIface(p);
    var j := k - 2 - N;
    OffsetFits(p, M2S, j);
    assert i.rx[..j] + [i.rx[j]] == i.rx[..j + 1];
    assert Clamp(k - 2, N) == N == Clamp(k - 1, N) && Clamp(k - 2 - N, N) == j && Clamp(k - 1 - N, N) == j + 1;
  }

  /** Ring offsets survive the 32-bit field. */
  lemma OffsetFits(p: Parties, dir: Direction, k: nat)
    requires k < Pairs(p)
    ensures var offset := RingOffset(Pairs(p), SlaveIface(p).run.log2, dir, k);
            U32(offset) == offset
  {
    hide RingOffset, RegionSize;
    OffsetBound(Pairs(p), SlaveIface(p).run.log2, dir, k);
  }

  lemma OffsetBound(pairs: nat, log2: nat, dir: Direction, k: nat)
    requires k < pairs <= 255 && log2 <= 14
    ensures RingOffset(pairs, log2, dir, k) < 0x1_0000_0000
  {
    RingBytesBound(log2);
    RingOffsetIs(pairs, log2, dir, k);
    MulMono(RingNumber(pairs, dir, k), 510, RingBytes(log2));
  }

  lemma RingBytesBound(log2: nat)
    requires log2 <= 14
    ensures RingBytes(log2) <= 0x4_0080
  {
    Pow2Monotone(log2, 14);
    assert Pow2(7) == 128;
    Pow2Sum(7, 7);
  }

  // ------------------------------------------------------------ the slave, line by line

  /** The slave's channel when it has sent the first k lines. */
  function SlaveAfter(p: Parties, k: nat): Channel
    requires k <= ScriptLength(p)
  {
    ScriptIsLines(p);
    Channel(Some(SlaveIface(p)), Script(p.slaveApp, SlaveIface(p))[k..], false, true, false)
  }

  function SlaveDone(p: Parties): Channel
    requires p.Candidate().Some?
  {
    Channel(Some(ConnectedIface(SlaveIface(p), Fixed(p.Candidate().value.args.name, 32))), [], true, true, false)
  }

  lemma SlaveGreeted(p: Parties, text: Bytes96)
    ensures Receive(p.slaveApp, Start(p).slave, HelloMsg(p.masterApp), None, text)
         == Outcome(SlaveAfter(p, 1), [Line(p, 0)])
  {
    hide RegionSize, RingOffset;
    ScriptIsLines(p);
    var s := Script(p.slaveApp, SlaveIface(p));
    assert [] + s == s;
  }

  lemma SlaveAcked(p: Parties, k: nat, text: Bytes96)
    requires 0 < k < ScriptLength(p)
    ensures Receive(p.slaveApp, SlaveAfter(p, k), Ack, None, text) == Outcome(SlaveAfter(p, k + 1), [Line(p, k)])
  {
    hide RegionSize, RingOffset;
    ScriptIsLines(p);
    var s := Script(p.slaveApp, SlaveIface(p));
    assert s[k..] != [] && s[k..][0] == s[k] && s[k..][1..] == s[k + 1..];
  }

  lemma SlaveConnects(p: Parties, text: Bytes96)
    requires p.Candidate().Some?
    ensures var m := Connected(Fixed(p.Candidate().value.args.name, 32));
            Receive(p.slaveApp, SlaveAfter(p, ScriptLength(p)), m, None, text) == Outcome(SlaveDone(p), [])
  {
    hide RegionSize, RingOffset;
    ScriptIsLines(p);
  }

  // ------------------------------------------------------------ every run

  /** The line on its way to the master, if there is one. */
  function Pending(p: Parties, n: Net): seq<Msg> {
    if n.sent == n.taken + 1 && n.taken < ScriptLength(p) then [Line(p, n.taken)] else []
  }

  /** While the master is open, it has taken a prefix of the slave's script, and what is on its way to
      it is the next line, then at most the news that the slave is gone. */
  ghost predicate MasterSide(p: Parties, n: Net) {
    && n.taken <= n.sent <= n.taken + 1 && n.sent <= ScriptLength(p) && n.taken <= Limit(p)
    && (n.taken > 0 ==> p.Candidate().Some?)
    && n.master == MasterAfter(p, n.taken)
    && (n.toMaster == Pending(p, n)
        || (!n.slave.open && exists d: Msg :: d.Disconnect? && n.toMaster == Pending(p, n) + [d]))
  }

  /** While both are open, exactly one message is in flight until both are connected. */
  ghost predicate Turn(p: Parties, n: Net)
    requires MasterSide(p, n)
  {
    || (!n.greeted && n.sent == 0 && n.slave == Start(p).slave && n.toSlave == [HelloMsg(p.masterApp)])
    || (n.greeted && n.sent == n.taken + 1 && n.slave == SlaveAfter(p, n.sent) && n.toSlave == [])
    || (n.greeted && n.sent == n.taken > 0 && n.slave == SlaveAfter(p, n.sent) && n.toSlave == [Answer(p, n.taken - 1)])
    || Done(p, n)
  }

  ghost predicate Done(p: Parties, n: Net) {
    && n.greeted && n.sent == n.taken == ScriptLength(p) && n.toSlave == [] && n.toMaster == []
    && p.Candidate().Some? && n.slave == SlaveDone(p) && n.master == MasterAfter(p, ScriptLength(p))
  }

  ghost predicate Inv(p: Parties, n: Net) {
    && n.slave.iface.Some? && !n.slave.panicked
    && (n.master.open ==> MasterSide(p, n))
    && (n.master.open && n.slave.open ==> Turn(p, n))
  }

  lemma StartInv(p: Parties)
    ensures Inv(p, Start(p))
  {
  }

  /** An interface, once bound, stays, and then nothing panics. */
  lemma BoundStays(app: seq<u8>, ch: Channel, m: Msg, candidate: Option<Iface>, text: Bytes96)
    requires ch.iface.Some? && !ch.panicked
    ensures var o := Receive(app, ch, m, candidate, text);
            o.ch.iface.Some? && !o.ch.panicked && (o.ch.open ==> ch.open)
  {
  }

  lemma ToSlaveKeeps(p: Parties, n: Net, beyond: seq<u8>, text: Bytes96)
    requires Inv(p, n) && n.slave.open && n.toSlave != []
    ensures Inv(p, Next(p, n, ToSlave(beyond, text)))
  {
    hide Receive, Encode, Parse, Script, SlaveIface, MasterAfter, Line;
    var m := n.toSlave[0];
    RoundTrip(m, Frame(m, beyond));
    BoundStays(p.slaveApp, n.slave, m, None, text);
    if n.master.open {
      if !n.greeted {
        SlaveGreeted(p, text);
      } else if n.taken < ScriptLength(p) {
        SlaveAcked(p, n.sent, text);
      } else {
        SlaveConnects(p, text);
      }
    }
  }

  lemma ToMasterKeeps(p: Parties, n: Net, beyond: seq<u8>, text: Bytes96)
    requires Inv(p, n) && n.master.open && n.toMaster != []
    ensures Inv(p, Next(p, n, ToMaster(beyond, text)))
  {
    hide Receive, Encode, Parse, Script, SlaveIface, MasterAfter, Line;
    var m := n.toMaster[0];
    RoundTrip(m, Frame(m, beyond));
    if n.sent == n.taken + 1 {
      MasterTakes(p, n.taken, text);
      if n.taken < Limit(p) { NoPanicAfter(p, n.taken + 1); }
      var rest := n.toMaster[1..];
      if n.toMaster != Pending(p, n) {
        var d: Msg :| d.Disconnect? && n.toMaster == Pending(p, n) + [d];
        assert rest == [d] == [] + [d];
      }
    } else {
      MasterToldGone(p, n.taken, m, text);
    }
  }

  lemma NoPanicAfter(p: Parties, k: nat)
    requires k <= ScriptLength(p) && (k > 0 ==> p.Candidate().Some?)
    ensures !MasterAfter(p, k).panicked && MasterAfter(p, k).open
  {
  }

  lemma MasterToldGone(p: Parties, k: nat, m: Msg, text: Bytes96)
    requires k <= ScriptLength(p) && (k > 0 ==> p.Candidate().Some?) && m.Disconnect?
    ensures var ch := Receive(p.masterApp, MasterAfter(p, k), m, p.OfferFor(m), text).ch;
            !ch.open && !ch.panicked
  {
  }

  lemma NextKeeps(p: Parties, n: Net, a: Action)
    requires Inv(p, n)
    ensures Inv(p, Next(p, n, a))
  {
    match a
    case ToSlave(beyond, text) => if n.slave.open && n.toSlave != [] { ToSlaveKeeps(p, n, beyond, text); }
    case ToMaster(beyond, text) => if n.master.open && n.toMaster != [] { ToMasterKeeps(p, n, beyond, text); }
    case SlaveDisconnects(text) =>
      if n.slave.open {
        var n' := Next(p, n, a);
        assert n'.toMaster == n.toMaster + [Disconnect(0, text)];
        assert Pending(p, n') == Pending(p, n);
      }
    case MasterDisconnects(_) =>
    case SlaveHangsUp =>
    case MasterHangsUp =>
  }

  lemma {:induction false} RunKeeps(p: Parties, n: Net, actions: seq<Action>)
    requires Inv(p, n)
    ensures Inv(p, Run(p, n, actions))
    decreases |actions|
  {
    if actions != [] {
      NextKeeps(p, n, actions[0]);
      RunKeeps(p, Next(p, n, actions[0]), actions[1..]);
    }
  }

  // ------------------------------------------------------------ what it comes to

  ghost predicate BothConnected(n: Net) {
    n.slave.open && n.slave.connected && n.master.open && n.master.connected
  }

  /** What two connected ends have in common. */
  ghost predicate Agree(p: Parties, s: Iface, m: Iface) {
    var N: nat := s.run.pairs;
    && s.args == p.slave.args && m.args.id == s.args.id && m.args.isMaster
    && (exists i :: i in p.offers && i.args == m.args)
    && N == Min(s.args.mem.pairs, 255) && s.run.log2 == Min(s.args.mem.log2, 14)
    && s.run.bufferSize == s.args.mem.bufferSize && m.run == m.args.mem && N <= m.run.pairs
    && m.rx == s.tx && |s.tx| == N && (forall k :: 0 <= k < N ==> IsRing(s.tx[k], S2M, s.run, k))
    && m.tx == s.rx && |s.rx| == N && (forall k :: 0 <= k < N ==> IsRing(s.rx[k], M2S, s.run, k))
    && m.regions == s.regions == [Region(RegionSize(N, s.run.log2, s.run.bufferSize), true)]
    && IsName(m.remoteName, p.slaveApp, 32) && IsName(s.remoteName, p.masterApp, 32)
    && IsName(m.peerName, s.args.name, 32) && IsName(s.peerName, m.args.name, 32)
  }

  /** Agreement: in every reachable state in which both ends are connected, the master's end is the interface
      with the slave's id; each side's receive queues are the other side's transmit queues, ring by ring in
      type, size and offset, where the layout puts them; there are as many as negotiated, of the negotiated
      size; and both have exactly the one region, of the same size and mapped. */
  lemma Agreement(p: Parties, actions: seq<Action>)
    ensures var n := Run(p, Start(p), actions);
            BothConnected(n) ==> n.slave.iface.Some? && n.master.iface.Some?
                                 && Agree(p, n.slave.iface.value, n.master.iface.value)
  {
    hide Agree;
    StartInv(p);
    RunKeeps(p, Start(p), actions);
    var n := Run(p, Start(p), actions);
    if BothConnected(n) {
      DoneAgrees(p, n);
    }
  }

  lemma DoneAgrees(p: Parties, n: Net)
    requires Done(p, n) && Limit(p) == ScriptLength(p)
    ensures Agree(p, n.slave.iface.value, n.master.iface.value)
  {
    hide RegionSize, RingOffset, IsRing, IsName, Fixed;
    var N, i := Pairs(p), SlaveIface(p);
    assert i.tx == NewRings(i.run, S2M, N) && i.rx == NewRings(i.run, M2S, N);
    assert i.tx[..N] == i.tx && i.rx[..N] == i.rx;
    RingsAreWhere(i.tx, S2M, i.run);
    RingsAreWhere(i.rx, M2S, i.run);
    FixedIsName(p.slaveApp, 32);
    FixedIsName(p.masterApp, 32);
    FixedIsName(p.slave.args.name, 32);
    FixedIsName(p.Candidate().value.args.name, 32);
  }

  lemma RingsAreWhere(rs: seq<RingInfo>, dir: Direction, run: MemoryConfig)
    requires rs == NewRings(run, dir, run.pairs)
    ensures |rs| == run.pairs && forall k :: 0 <= k < |rs| ==> IsRing(rs[k], dir, run, k)
  {
    RingsAre([], dir, run);
    assert [] + rs == rs;
  }

  /** The first frame that reaches the master, with any padding, in any run: news that the slave is gone, or an
      Init of version 2.0, byte by byte, that asks for the slave's own id, without a secret, in the
      application's name. */
  lemma FirstFrame(p: Parties, actions: seq<Action>, beyond: seq<u8>)
    ensures var n := Run(p, Start(p), actions);
            n.master.open && n.taken == 0 && n.toMaster != [] ==>
              var f := Frame(n.toMaster[0], beyond);
              || Memory.Number(f, 0, 2) == 8
              || (Memory.Number(f, 0, 2) == 3 && Memory.Number(f, 2, 2) == 0x200
                  && Memory.Number(f, 4, 4) == p.slave.args.id && f[8] == 0
                  && (forall k :: 9 <= k < 33 ==> f[k] == 0) && IsName(f[33..65], p.slaveApp, 32))
  {
    StartInv(p);
    RunKeeps(p, Start(p), actions);
    var n := Run(p, Start(p), actions);
    if n.master.open && n.taken == 0 && n.toMaster != [] {
      FixedIsName(p.slaveApp, 32);
      hide Inv, Memory.Number, Encode, IsName, Turn;
      var m := n.toMaster[0];
      WireFormat(m, Frame(m, beyond));
      FirstMessage(p, n);
      if m.Init? {
        var f := Frame(m, beyond);
        assert f[9..33] == Zeros(24);
        forall k | 9 <= k < 33 ensures f[k] == 0 {
          assert f[k] == f[9..33][k - 9];
        }
      }
    }
  }

  lemma FirstMessage(p: Parties, n: Net)
    requires Inv(p, n) && n.master.open && n.taken == 0 && n.toMaster != []
    ensures n.toMaster[0].Disconnect?
            || n.toMaster[0] == Init(0x200, p.slave.args.id, 0, Zeros(24), Fixed(p.slaveApp, 32))
  {
    hide RegionSize, RingOffset;
    if n.toMaster != Pending(p, n) {
      var d: Msg :| d.Disconnect? && n.toMaster == Pending(p, n) + [d];
    }
  }

  /** Turn-taking: as long as neither end has gone, exactly one message is in flight until both are
      connected, and none after. */
  lemma TurnTaking(p: Parties, actions: seq<Action>)
    ensures var n := Run(p, Start(p), actions);
            n.slave.open && n.master.open ==> |n.toSlave| + |n.toMaster| == if BothConnected(n) then 0 else 1
  {
    StartInv(p);
    RunKeeps(p, Start(p), actions);
    var n := Run(p, Start(p), actions);
    if n.slave.open && n.master.open {
      ConnectedAtTheEnd(p, n.taken);
    }
  }

  /** No message of a peer that runs this code makes either end use an interface it does not have. Only
      one thing does: a hang-up that the master sees before it has bound an interface. */
  lemma PanicsOnlyOnEarlyHangUp(p: Parties, actions: seq<Action>, a: Action)
    ensures var n := Run(p, Start(p), actions);
            var n' := Next(p, n, a);
            && !n'.slave.panicked
            && (n'.master.panicked && !n.master.panicked <==> a.MasterHangsUp? && n.master.open && n.master.iface.None?)
            && (n.master.open ==> (n.master.iface.None? <==> n.taken == 0))
  {
    hide Receive, MasterAfter, SlaveAfter, Line, Answer, Turn, Deliver;
    StartInv(p);
    RunKeeps(p, Start(p), actions);
    var n := Run(p, Start(p), actions);
    NextKeeps(p, n, a);
    if n.master.open {
      BoundFromFirstLine(p, n.taken);
      if a.ToMaster? && n.toMaster != [] {
        DeliveredToMaster(p, n, a.beyond, a.text);
      }
    }
  }

  lemma DeliveredToMaster(p: Parties, n: Net, beyond: seq<u8>, text: Bytes96)
    requires Inv(p, n) && n.master.open && n.toMaster != []
    ensures !Next(p, n, ToMaster(beyond, text)).master.panicked
  {
    hide Receive, Encode, Parse, Script, SlaveIface, MasterAfter, Line;
    RoundTrip(n.toMaster[0], Frame(n.toMaster[0], beyond));
    BoundFromFirstLine(p, n.taken);
    if n.sent == n.taken + 1 {
      MasterTakes(p, n.taken, text);
      if n.taken < Limit(p) { NoPanicAfter(p, n.taken + 1); }
    } else {
      MasterToldGone(p, n.taken, n.toMaster[0], text);
    }
  }

  lemma BoundFromFirstLine(p: Parties, k: nat)
    requires k <= ScriptLength(p) && (k > 0 ==> p.Candidate().Some?)
    ensures MasterAfter(p, k).iface.None? <==> k == 0
    ensures !MasterAfter(p, k).panicked
  {
  }

  /** Disconnecting leaves nothing of a connection behind exactly when all regions are mapped. */
  lemma CleanExactlyWhenMapped(i: Iface)
    ensures IsIdle(Disconnected(i)) <==> AllMapped(i.regions)
  {
    if i.regions != [] {
      assert i.regions[0] in i.regions;
    }
  }

  /** So at any point of the handshake a closing slave is fit for another connection, and a closing
      master is unless it closes between the region message and the last one. The slave's three states
      are before the Hello, with k lines said, and connected. */
  lemma WhoIsFitAfterClosing(p: Parties, k: nat)
    requires 0 < k <= ScriptLength(p) && p.Candidate().Some?
    ensures IsIdle(Closed(MasterAfter(p, k)).iface.value) <==> k < 2 || k == ScriptLength(p)
    ensures IsIdle(Closed(Start(p).slave).iface.value)
    ensures IsIdle(Closed(SlaveAfter(p, k)).iface.value)
    ensures IsIdle(Closed(SlaveDone(p)).iface.value)
  {
    CleanExactlyWhenMapped(p.slave);
    CleanExactlyWhenMapped(SlaveDone(p).iface.value);
    CleanExactlyWhenMapped(MasterAfter(p, k).iface.value);
    CleanExactlyWhenMapped(SlaveIface(p));
    MappedWhen(p, k);
  }

  lemma MappedWhen(p: Parties, k: nat)
    requires 0 < k <= ScriptLength(p) && p.Candidate().Some?
    ensures AllMapped(SlaveIface(p).regions) && AllMapped(SlaveDone(p).iface.value.regions)
    ensures AllMapped(MasterAfter(p, k).iface.value.regions) <==> k < 2 || k == ScriptLength(p)
  {
    hide RegionSize, RingOffset;
    var rs := MasterAfter(p, k).iface.value.regions;
    assert k >= 2 ==> |rs| == 1 && rs[0].mapped == (k == ScriptLength(p));
  }

  lemma ConnectedAtTheEnd(p: Parties, k: nat)
    requires k <= ScriptLength(p) && (k > 0 ==> p.Candidate().Some?)
    ensures MasterAfter(p, k).connected <==> k == ScriptLength(p)
  {
  }

  /** If the master's limit lies inside the script, no run whatever connects both ends. */
  lemma NeverConnected(p: Parties, actions: seq<Action>)
    requires Limit(p) < ScriptLength(p)
    ensures !BothConnected(Run(p, Start(p), actions))
  {
    StartInv(p);
    RunKeeps(p, Start(p), actions);
    var n := Run(p, Start(p), actions);
    if n.slave.open && n.master.open {
      ConnectedAtTheEnd(p, n.taken);
    }
  }

  // ------------------------------------------------------------ undisturbed runs

  /** Deliver whatever is in flight, with any padding. */
  function Deliver(p: Parties, n: Net, beyond: seq<u8>, text: Bytes96): Net {
    if n.toSlave != [] then Next(p, n, ToSlave(beyond, text)) else Next(p, n, ToMaster(beyond, text))
  }

  /** k deliveries in a row, the k-th with padding beyond(k). */
  function Deliveries(p: Parties, k: nat, beyond: nat -> seq<u8>, text: Bytes96): Net {
    if k == 0 then Start(p) else Deliver(p, Deliveries(p, k - 1, beyond, text), beyond(k - 1), text)
  }

  /** The j-th line is on its way, and nothing else. */
  ghost predicate LineSent(p: Parties, n: Net, j: nat) {
    && j < ScriptLength(p) && n.greeted && n.sent == j + 1 && n.taken == j <= Limit(p)
    && n.slave == SlaveAfter(p, j + 1) && n.toMaster == [Line(p, j)] && n.toSlave == []
    && (j > 0 ==> p.Candidate().Some?) && n.master == MasterAfter(p, j)
  }

  /** The answer to the j-th line is on its way, and nothing else. */
  ghost predicate Answered(p: Parties, n: Net, j: nat) {
    && j < ScriptLength(p) && n.greeted && n.sent == n.taken == j + 1 <= Limit(p)
    && n.slave == SlaveAfter(p, j + 1) && n.toMaster == []
    && p.Candidate().Some? && n.toSlave == [Answer(p, j)] && n.master == MasterAfter(p, j + 1)
  }

  /** The state after k deliveries of a handshake that goes well. */
  ghost predicate OnCourse(p: Parties, n: Net, k: nat) {
    if k == 0 then n == Start(p)
    else if k % 2 == 1 then LineSent(p, n, k / 2)
    else Answered(p, n, k / 2 - 1)
  }

  lemma HelloBringsFirstLine(p: Parties, beyond: seq<u8>, text: Bytes96)
    ensures LineSent(p, Deliver(p, Start(p), beyond, text), 0)
  {
    hide Receive, Encode, Parse, Script, SlaveIface, MasterAfter, Line;
    MasterOpen(p, 0);
    RoundTrip(HelloMsg(p.masterApp), Frame(HelloMsg(p.masterApp), beyond));
    SlaveGreeted(p, text);
  }

  lemma LineIsAnswered(p: Parties, n: Net, j: nat, beyond: seq<u8>, text: Bytes96)
    requires LineSent(p, n, j) && j < Limit(p)
    ensures Answered(p, Deliver(p, n, beyond, text), j)
  {
    hide Receive, Encode, Parse, Script, SlaveIface, MasterAfter, SlaveAfter, Line, Limit, ScriptLength;
    RoundTrip(Line(p, j), Frame(Line(p, j), beyond));
    MasterOpen(p, j);
    MasterTakes(p, j, text);
  }

  lemma AnswerBringsLine(p: Parties, n: Net, j: nat, beyond: seq<u8>, text: Bytes96)
    requires Answered(p, n, j) && j + 1 < ScriptLength(p)
    ensures LineSent(p, Deliver(p, n, beyond, text), j + 1)
  {
    hide Receive, Encode, Parse, Script, SlaveIface, MasterAfter, Line, Limit, ScriptLength;
    RoundTrip(Answer(p, j), Frame(Answer(p, j), beyond));
    SlaveAcked(p, j + 1, text);
  }

  lemma DeliverStaysOnCourse(p: Parties, n: Net, k: nat, beyond: seq<u8>, text: Bytes96)
    requires OnCourse(p, n, k) && k < 2 * ScriptLength(p) && k < 2 * Limit(p) + 1
    ensures OnCourse(p, Deliver(p, n, beyond, text), k + 1)
  {
    hide Deliver, LineSent, Answered, Limit, ScriptLength, Start;
    if k == 0 {
      HelloBringsFirstLine(p, beyond, text);
    } else if k % 2 == 1 {
      LineIsAnswered(p, n, k / 2, beyond, text);
    } else {
      AnswerBringsLine(p, n, k / 2 - 1, beyond, text);
    }
  }

  lemma MasterOpen(p: Parties, k: nat)
    requires k <= ScriptLength(p) && (k > 0 ==> p.Candidate().Some?)
    ensures MasterAfter(p, k).open && MasterAfter(p, 0) == Start(p).master
  {
  }

  lemma StartOnCourse(p: Parties)
    ensures OnCourse(p, Start(p), 0)
  {
  }

  lemma OnCourseIsNotThere(p: Parties, n: Net, k: nat)
    requires OnCourse(p, n, k)
    ensures !BothConnected(n)
  {
  }

  lemma {:induction false} DeliveriesStayOnCourse(p: Parties, k: nat, beyond: nat -> seq<u8>, text: Bytes96)
    requires k <= 2 * ScriptLength(p) && k <= 2 * Limit(p) + 1
    ensures OnCourse(p, Deliveries(p, k, beyond, text), k)
  {
    hide OnCourse, Deliver, Start, Limit, ScriptLength;
    if k == 0 {
      StartOnCourse(p);
    } else {
      DeliveriesStayOnCourse(p, k - 1, beyond, text);
      DeliverStaysOnCourse(p, Deliveries(p, k - 1, beyond, text), k - 1, beyond(k - 1), text);
    }
  }

  /** Progress and outcome, undisturbed: if the master has a matching free interface without a secret
      and at least as many queue pairs as the slave negotiates, the handshake connects both ends with
      the delivery of exactly message number 4 * pairs + 7, and not before. */
  lemma Completes(p: Parties, beyond: nat -> seq<u8>, text: Bytes96)
    requires Limit(p) == ScriptLength(p)
    ensures var n := Deliveries(p, 4 * Pairs(p) + 7, beyond, text);
            BothConnected(n) && n.toSlave == [] && n.toMaster == []
    ensures forall k :: 0 <= k < 4 * Pairs(p) + 7 ==> !BothConnected(Deliveries(p, k, beyond, text))
  {
    hide OnCourse, Deliver, Receive, Script, SlaveIface, MasterAfter, Start;
    var L := ScriptLength(p);
    DeliveriesStayOnCourse(p, 2 * L, beyond, text);
    var n := Deliveries(p, 2 * L, beyond, text);
    ReachedLast(p, n, L);
    LastDelivery(p, n, beyond(2 * L), text);
    assert Deliveries(p, 2 * L + 1, beyond, text) == Deliver(p, n, beyond(2 * L), text);
    forall k | 0 <= k < 2 * L + 1 ensures !BothConnected(Deliveries(p, k, beyond, text)) {
      DeliveriesStayOnCourse(p, k, beyond, text);
      OnCourseIsNotThere(p, Deliveries(p, k, beyond, text), k);
    }
  }

  lemma ReachedLast(p: Parties, n: Net, j: nat)
    requires j > 0 && OnCourse(p, n, 2 * j)
    ensures Answered(p, n, j - 1)
  {
  }

  lemma LastDelivery(p: Parties, n: Net, beyond: seq<u8>, text: Bytes96)
    requires Answered(p, n, ScriptLength(p) - 1)
    ensures Done(p, Deliver(p, n, beyond, text)) && BothConnected(Deliver(p, n, beyond, text))
  {
    hide Receive, Encode, Parse, Script, SlaveIface, Line;
    var j := ScriptLength(p) - 1;
    RoundTrip(Answer(p, j), Frame(Answer(p, j), beyond));
    SlaveConnects(p, text);
    ConnectedAtTheEnd(p, ScriptLength(p));
    MasterOpen(p, ScriptLength(p));
  }

  /** The master, at its limit, refuses the next line and tells the slave. */
  lemma Refuses(p: Parties, n: Net, beyond: seq<u8>, text: Bytes96)
    requires Limit(p) < ScriptLength(p) && LineSent(p, n, Limit(p))
    ensures var n' := Deliver(p, n, beyond, text);
            && !n'.master.open && n'.master == Closed(MasterAfter(p, Limit(p)))
            && n'.slave == SlaveAfter(p, Limit(p) + 1) && n'.toSlave == [Disconnect(0, text)]
  {
    hide Receive, Encode, Parse, Script, SlaveIface, Line;
    var j := Limit(p);
    RoundTrip(Line(p, j), Frame(Line(p, j), beyond));
    MasterOpen(p, j);
    MasterTakes(p, j, text);
  }

  /** Otherwise the master closes on the first line it cannot take (with too few queue pairs, the S2M
      ring whose index is their number) and the slave on being told so. */
  lemma Fails(p: Parties, beyond: nat -> seq<u8>, text: Bytes96)
    requires Limit(p) < ScriptLength(p)
    ensures var n := Deliveries(p, 2 * Limit(p) + 2, beyond, text);
            !n.master.open && n.slave.open && n.toSlave == [Disconnect(0, text)]
            && n.master == Closed(MasterAfter(p, Limit(p)))
    ensures var n := Deliveries(p, 2 * Limit(p) + 3, beyond, text);
            !n.master.open && !n.slave.open
  {
    hide Deliver, LineSent, MasterAfter, SlaveAfter, Limit;
    var j := Limit(p);
    DeliveriesStayOnCourse(p, 2 * j + 1, beyond, text);
    assert LineSent(p, Deliveries(p, 2 * j + 1, beyond, text), j);
    Refuses(p, Deliveries(p, 2 * j + 1, beyond, text), beyond(2 * j + 1), text);
    SlaveLearns(p, Deliveries(p, 2 * j + 2, beyond, text), j + 1, beyond(2 * j + 2), text);
  }

  lemma SlaveLearns(p: Parties, n: Net, k: nat, beyond: seq<u8>, text: Bytes96)
    requires 0 < k <= ScriptLength(p) && n.slave == SlaveAfter(p, k)
    requires !n.master.open && n.toSlave == [Disconnect(0, text)]
    ensures n.slave.open
    ensures var n' := Deliver(p, n, beyond, text);
            !n'.master.open && !n'.slave.open
  {
    hide Receive, Encode, Parse, Script, SlaveIface, Line;
    RoundTrip(n.toSlave[0], Frame(n.toSlave[0], beyond));
    SlaveToldGone(p, k, text);
  }

  /** Told that the master is gone, the slave closes, and yet sends the next line of its script, if
      any is left, into the closed channel. */
  lemma SlaveToldGone(p: Parties, k: nat, text: Bytes96)
    requires 0 < k <= ScriptLength(p)
    ensures var o := Receive(p.slaveApp, SlaveAfter(p, k), Disconnect(0, text), None, text);
            !o.ch.open && o.out == if k < ScriptLength(p) then [Line(p, k)] else []
  {
    hide RegionSize, RingOffset;
    ScriptIsLines(p);
  }

  /** The line that a master with too few queue pairs refuses is the S2M ring of that index. */
  lemma RefusedLine(p: Parties)
    requires 2 <= Limit(p) < ScriptLength(p)
    ensures Line(p, Limit(p)) == AddRingMsg(SlaveIface(p).tx[Limit(p) - 2], p.Candidate().value.args.mem.pairs)
    ensures Line(p, Limit(p)).flags == FLAG_S2M && Line(p, Limit(p)).index == p.Candidate().value.args.mem.pairs
  {
  }

  /** The k-th of the master's offers is the first with the slave's id; it has no secret, and at least as many
      queue pairs as the slave negotiates. */
  ghost predicate Serves(p: Parties, k: nat) {
    && k < |p.offers| && p.offers[k].args.id == p.slave.args.id
    && (forall j :: 0 <= j < k ==> p.offers[j].args.id != p.slave.args.id)
    && (forall b :: b in p.offers[k].args.secret ==> b == 0)
    && Min(p.slave.args.mem.pairs, 255) <= p.offers[k].args.mem.pairs
  }

  /** Outcome: an undisturbed handshake connects both ends if and only if one of the master's offers serves. */
  lemma OutcomeIff(p: Parties, beyond: nat -> seq<u8>, text: Bytes96)
    ensures (exists k :: BothConnected(Deliveries(p, k, beyond, text))) <==> exists k :: Serves(p, k)
  {
    CandidateServes(p);
    if Limit(p) == ScriptLength(p) {
      Completes(p, beyond, text);
    } else {
      forall k: nat ensures !BothConnected(Deliveries(p, k, beyond, text)) {
        DeliveriesAreARun(p, k, beyond, text);
      }
    }
  }

  lemma CandidateServes(p: Parties)
    ensures Limit(p) == ScriptLength(p) <==> exists k :: Serves(p, k)
  {
    OfferIsFirst(p.offers, p.slave.args.id);
    if p.Candidate().Some? {
      ZerosOnly(p.Candidate().value.args.secret);
      var k :| && 0 <= k < |p.offers| && p.offers[k] == p.Candidate().value && p.offers[k].args.id == p.slave.args.id
               && forall j :: 0 <= j < k ==> p.offers[j].args.id != p.slave.args.id;
      assert Limit(p) == ScriptLength(p) ==> Serves(p, k);
    }
    if k :| Serves(p, k) {
      FirstOfferIsFirst(p.offers, p.slave.args.id, k);
    }
  }

  lemma ZerosOnly(s: Bytes24)
    ensures (forall b :: b in s ==> b == 0) <==> s == Zeros(24)
  {
    if forall b :: b in s ==> b == 0 {
      forall k | 0 <= k < 24 ensures s[k] == Zeros(24)[k] {
        assert s[k] in s;
      }
    }
  }

  lemma {:induction false} OfferIsFirst(offers: seq<Iface>, id: u32)
    ensures var r := FirstOffer(offers, id);
            r.Some? ==> exists k :: 0 <= k < |offers| && offers[k] == r.value && offers[k].args.id == id
                                    && forall j :: 0 <= j < k ==> offers[j].args.id != id
  {
    if offers != [] && offers[0].args.id != id {
      OfferIsFirst(offers[1..], id);
      var r := FirstOffer(offers[1..], id);
      if r.Some? {
        var k :| 0 <= k < |offers[1..]| && offers[1..][k] == r.value && offers[1..][k].args.id == id
                 && forall j :: 0 <= j < k ==> offers[1..][j].args.id != id;
        assert offers[k + 1] == r.value;
        forall j | 0 <= j < k + 1 ensures offers[j].args.id != id {
          if j > 0 { assert offers[j] == offers[1..][j - 1]; }
        }
      }
    }
  }

  lemma {:induction false} DeliveriesAreARun(p: Parties, k: nat, beyond: nat -> seq<u8>, text: Bytes96)
    requires Limit(p) < ScriptLength(p)
    ensures !BothConnected(Deliveries(p, k, beyond, text))
    ensures Inv(p, Deliveries(p, k, beyond, text))
  {
    if k == 0 {
      StartInv(p);
    } else {
      DeliveriesAreARun(p, k - 1, beyond, text);
      var n := Deliveries(p, k - 1, beyond, text);
      NextKeeps(p, n, if n.toSlave != [] then ToSlave(beyond(k - 1), text) else ToMaster(beyond(k - 1), text));
      var n' := Deliveries(p, k, beyond, text);
      if n'.slave.open && n'.master.open {
        ConnectedAtTheEnd(p, n'.taken);
      }
    }
  }
}
