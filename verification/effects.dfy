/** What one received message does, field by field, and what the messages sent say. */
module Effects {
  import opened Bits
  import opened Ring
  import opened Layout
  import opened Messages
  import opened Control

  // ------------------------------------------------------------ what is sent

  lemma HelloSays(app: seq<u8>)
    ensures var m := HelloMsg(app);
            && m.Hello? && m.versionMin == 0x200 && m.versionMax == 0x200 && IsName(m.name, app, 32)
            && m.maxRegion == 255 && m.maxRingM2S == 255 && m.maxRingS2M == 255 && m.maxLog2RingSize == 14
  {
    FixedIsName(app, 32);
  }

  /** Message number k of a greeted slave: it asks for the interface with its own id, without a secret, then
      describes its regions, its transmit rings as S2M rings and its receive rings as M2S rings, each kind
      numbered from 0, and connects. */
  ghost predicate SaysAt(app: seq<u8>, i: Iface, k: nat, m: Msg)
    requires i.run.pairs <= |i.tx| && i.run.pairs <= |i.rx|
  {
    var R, N: nat := |i.regions|, i.run.pairs;
    if k == 0 then
      && m.Init? && m.version == 0x200 && m.id == i.args.id && m.mode == 0
      && (forall b :: b in m.secret ==> b == 0) && IsName(m.name, app, 32)
    else if k < 1 + R then
      m.AddRegion? && m.index == k - 1 && m.size == i.regions[k - 1].size
    else if k < 1 + R + N then
      var r := i.tx[k - 1 - R];
      && m.AddRing? && m.flags == 1 && m.index == k - 1 - R && m.region == 0
      && m.offset == r.offset && m.ringSizeLog2 == r.log2 && m.privateHdrSize == 0
    else if k < 1 + R + N + N then
      var r := i.rx[k - 1 - R - N];
      && m.AddRing? && m.flags == 0 && m.index == k - 1 - R - N && m.region == 0
      && m.offset == r.offset && m.ringSizeLog2 == r.log2 && m.privateHdrSize == 0
    else m.Connect? && IsName(m.name, i.args.name, 32)
  }

  lemma ScriptSays(app: seq<u8>, i: Iface)
    requires i.run.pairs <= |i.tx| && i.run.pairs <= |i.rx| && |i.regions| < 0x1_0000
    requires forall k :: 0 <= k < i.run.pairs ==> i.tx[k].dir.S2M? && i.tx[k].offset < 0x1_0000_0000
    requires forall k :: 0 <= k < i.run.pairs ==> i.rx[k].dir.M2S? && i.rx[k].offset < 0x1_0000_0000
    ensures var s := Script(app, i);
            && |s| == 2 + |i.regions| + i.run.pairs + i.run.pairs
            && forall k :: 0 <= k < |s| ==> SaysAt(app, i, k, s[k])
  {
    hide SaysAt, Script;
    ScriptParts(app, i);
    forall k | 0 <= k < |Script(app, i)| ensures SaysAt(app, i, k, Script(app, i)[k]) {
      PartSays(app, i, k);
    }
  }

  function Part(app: seq<u8>, i: Iface, k: nat): Msg
    requires i.run.pairs <= |i.tx| && i.run.pairs <= |i.rx|
  {
    var R, N: nat := |i.regions|, i.run.pairs;
    if k == 0 then InitMsg(app, i)
    else if k < 1 + R then AddRegion(U16(k - 1), i.regions[k - 1].size)
    else if k < 1 + R + N then AddRingMsg(i.tx[k - 1 - R], k - 1 - R)
    else if k < 1 + R + N + N then AddRingMsg(i.rx[k - 1 - R - N], k - 1 - R - N)
    else Connect(Fixed(i.args.name, 32))
  }

  lemma ScriptParts(app: seq<u8>, i: Iface)
    requires i.run.pairs <= |i.tx| && i.run.pairs <= |i.rx|
    ensures |Script(app, i)| == 2 + |i.regions| + i.run.pairs + i.run.pairs
    ensures forall k :: 0 <= k < |Script(app, i)| ==> Script(app, i)[k] == Part(app, i, k)
  {
    hide InitMsg, AddRingMsg, Fixed;
  }

  lemma PartSays(app: seq<u8>, i: Iface, k: nat)
    requires i.run.pairs <= |i.tx| && i.run.pairs <= |i.rx| && |i.regions| < 0x1_0000
    requires forall k :: 0 <= k < i.run.pairs ==> i.tx[k].dir.S2M? && i.tx[k].offset < 0x1_0000_0000
    requires forall k :: 0 <= k < i.run.pairs ==> i.rx[k].dir.M2S? && i.rx[k].offset < 0x1_0000_0000
    ensures SaysAt(app, i, k, Part(app, i, k))
  {
    FixedIsName(app, 32);
    FixedIsName(i.args.name, 32);
    hide IsName, Fixed;
  }

  // ------------------------------------------------------------ what is received

  /** The first queued message goes out, if there is one. */
  ghost predicate Sends(queue: seq<Msg>, o: Outcome) {
    if queue == [] then o.out == [] && o.ch.queue == [] else o.out == [queue[0]] && o.ch.queue == queue[1..]
  }

  /** The channel closes, its interface disconnects, and the peer is told. */
  ghost predicate Refuses(ch: Channel, o: Outcome, text: Bytes96) {
    && !o.ch.open && o.ch.queue == [] && o.out == [Disconnect(0, text)]
    && o.ch.connected == ch.connected && o.ch.panicked == ch.panicked
    && (ch.iface.None? ==> o.ch.iface.None?)
    && (ch.iface.Some? ==> o.ch.iface.Some? && Drops(ch.iface.value, o.ch.iface.value))
  }

  /** Disconnecting forgets the queues; and, if every region is mapped, also the regions and the peer's names. */
  ghost predicate Drops(i: Iface, i': Iface) {
    && i'.args == i.args && i'.run == i.run && i'.tx == [] && i'.rx == []
    && (if forall r :: r in i.regions ==> r.mapped then i'.regions == [] && i'.remoteName == [] && i'.peerName == []
        else i'.regions == i.regions && i'.remoteName == i.remoteName && i'.peerName == i.peerName)
  }

  /** The channel stays open, with this interface. */
  ghost predicate Stays(ch: Channel, o: Outcome, i: Iface, connected: bool) {
    o.ch.open == ch.open && o.ch.panicked == ch.panicked && o.ch.connected == connected && o.ch.iface == Some(i)
  }

  lemma AckDoes(app: seq<u8>, ch: Channel, candidate: Option<Iface>, text: Bytes96)
    ensures var o := Receive(app, ch, Ack, candidate, text);
            Sends(ch.queue, o) && o.ch == ch.(queue := o.ch.queue)
  {
  }

  /** A Hello is taken exactly if version 2.0 is within its limits. The slave then runs with the lesser of its own
      and the peer's numbers, adds one region and its rings, and queues its script. */
  lemma HelloDoes(app: seq<u8>, ch: Channel, m: Msg, text: Bytes96)
    requires m.Hello? && ch.iface.Some?
    ensures var i, o := ch.iface.value, Receive(app, ch, m, None, text);
            if m.versionMin <= 0x200 <= m.versionMax then
              && o.ch.iface.Some?
              && var i' := o.ch.iface.value;
                 && Stays(ch, o, i', ch.connected) && i'.args == i.args
                 && i'.remoteName == m.name && i'.peerName == i.peerName
                 && i'.run.pairs == Min(i.args.mem.pairs, m.maxRingM2S)
                 && i'.run.log2 == Min(i.args.mem.log2, m.maxLog2RingSize)
                 && i'.run.bufferSize == i.args.mem.bufferSize
                 && i'.regions == i.regions + [Region(RegionSize(i'.run.pairs, i'.run.log2, i'.run.bufferSize), true)]
                 && RingsAdded(i.tx, i'.tx, S2M, i'.run) && RingsAdded(i.rx, i'.rx, M2S, i'.run)
                 && Sends(ch.queue + Script(app, i'), o)
            else Refuses(ch, o, text)
  {
    hide Script, RegionSize;
    if m.versionMin <= 0x200 <= m.versionMax {
      var i := Negotiated(ch.iface.value, m);
      RingsAre(ch.iface.value.tx, S2M, i.run);
      RingsAre(ch.iface.value.rx, M2S, i.run);
    }
  }

  /** Ring number k of a kind, where the layout puts it. */
  predicate IsRing(r: RingInfo, dir: Direction, run: MemoryConfig, k: nat) {
    && r.dir == dir && r.log2 == run.log2
    && r.offset == (if dir.S2M? then k else run.pairs + k) * (128 + 16 * Pow2(run.log2))
  }

  ghost predicate RingsAdded(rs: seq<RingInfo>, rs': seq<RingInfo>, dir: Direction, run: MemoryConfig) {
    && |rs'| == |rs| + run.pairs && rs'[..|rs|] == rs
    && forall x :: |rs| <= x < |rs'| ==> IsRing(rs'[x], dir, run, x - |rs|)
  }

  lemma RingsAre(rs: seq<RingInfo>, dir: Direction, run: MemoryConfig)
    ensures RingsAdded(rs, rs + NewRings(run, dir, run.pairs), dir, run)
  {
    var rs' := rs + NewRings(run, dir, run.pairs);
    forall x | |rs| <= x < |rs'| ensures IsRing(rs'[x], dir, run, x - |rs|) {
      RingPlaces(run.pairs, run.log2, x - |rs|);
      assert rs'[x] == NewRings(run, dir, run.pairs)[x - |rs|];
    }
  }

  /** An Init is taken exactly if its version is 2.0, there is an interface to offer and its secret is the same.
      The interface is bound with its configured numbers. */
  lemma InitDoes(app: seq<u8>, ch: Channel, m: Msg, candidate: Option<Iface>, text: Bytes96)
    requires m.Init?
    ensures var o := Receive(app, ch, m, candidate, text);
            if m.version == 0x200 && candidate.Some? && candidate.value.args.secret == m.secret then
              && Stays(ch, o, candidate.value.(run := candidate.value.args.mem, remoteName := m.name), ch.connected)
              && Sends(ch.queue + [Ack], o)
            else Refuses(ch, o, text)
  {
  }

  lemma AddRegionDoes(app: seq<u8>, ch: Channel, m: Msg, text: Bytes96)
    requires m.AddRegion? && ch.iface.Some?
    ensures var i, o := ch.iface.value, Receive(app, ch, m, None, text);
            if m.index <= 255 then
              && Stays(ch, o, i.(regions := i.regions + [Region(m.size, false)]), ch.connected)
              && Sends(ch.queue + [Ack], o)
            else Refuses(ch, o, text)
  {
  }

  /** An S2M ring becomes a receive queue, an M2S ring a transmit queue. */
  lemma AddRingDoes(app: seq<u8>, ch: Channel, m: Msg, text: Bytes96)
    requires m.AddRing? && ch.iface.Some?
    ensures var i, o := ch.iface.value, Receive(app, ch, m, None, text);
            if m.index < i.run.pairs then
              && Stays(ch, o, if m.flags % 2 == 1 then i.(rx := i.rx + [RingInfo(S2M, m.ringSizeLog2, m.offset)])
                              else i.(tx := i.tx + [RingInfo(M2S, m.ringSizeLog2, m.offset)]), ch.connected)
              && Sends(ch.queue + [Ack], o)
            else Refuses(ch, o, text)
  {
  }

  /** Connect is answered, Connected is not; either maps all regions and takes the peer's name. */
  lemma ConnectDoes(app: seq<u8>, ch: Channel, m: Msg, text: Bytes96)
    requires (m.Connect? || m.Connected?) && ch.iface.Some?
    ensures var i, o := ch.iface.value, Receive(app, ch, m, None, text);
            && o.ch.iface.Some?
            && var i' := o.ch.iface.value;
               && Stays(ch, o, i', true) && i' == i.(regions := i'.regions, peerName := m.name)
               && |i'.regions| == |i.regions|
               && (forall k :: 0 <= k < |i.regions| ==> i'.regions[k] == Region(i.regions[k].size, true))
               && (m.Connected? ==> Sends(ch.queue, o))
               && (m.Connect? ==> exists name: Bytes32 :: IsName(name, i.args.name, 32)
                                                          && Sends(ch.queue + [Connected(name)], o))
  {
    FixedIsName(ch.iface.value.args.name, 32);
    var reply := Connected(Fixed(ch.iface.value.args.name, 32));
    assert m.Connect? ==> Sends(ch.queue + [reply], Receive(app, ch, m, None, text));
  }

  /** A Disconnect closes the channel, and what is queued first still goes out; if a region cannot be unmapped, the
      queue is dropped and the peer told instead. */
  lemma DisconnectDoes(app: seq<u8>, ch: Channel, m: Msg, text: Bytes96)
    requires m.Disconnect?
    ensures var o := Receive(app, ch, m, None, text);
            if ch.iface.Some? && exists r :: r in ch.iface.value.regions && !r.mapped then Refuses(ch, o, text)
            else
              && !o.ch.open && o.ch.connected == ch.connected && Sends(ch.queue, o)
              && (ch.iface.Some? ==> o.ch.iface.Some? && Drops(ch.iface.value, o.ch.iface.value))
              && (ch.iface.None? ==> o.ch.iface.None?)
  {
  }

  /** A hang-up, or an error on the channel, closes it and says nothing; without an interface it then panics. */
  lemma HangUpDoes(ch: Channel)
    ensures var c := HungUp(ch);
            && !c.open && c.queue == ch.queue && c.connected == ch.connected
            && (ch.iface.Some? ==> c.iface.Some? && Drops(ch.iface.value, c.iface.value) && c.panicked == ch.panicked)
            && (ch.iface.None? ==> c.iface.None? && c.panicked)
  {
  }

  lemma UserDisconnectDoes(ch: Channel, text: Bytes96)
    ensures Refuses(ch, CloseAndTell(ch, text), text)
  {
  }

  /** Without an interface, a message that is about one panics, and no other. */
  lemma PanicsWithoutInterface(ch: Channel, m: Msg)
    ensures Panics(ch, m) <==>
            && ch.iface.None?
            && ((m.Hello? && m.versionMin <= 0x200 <= m.versionMax) || (m.AddRegion? && m.index <= 255)
                || m.AddRing? || m.Connect? || m.Connected?)
  {
  }
}
