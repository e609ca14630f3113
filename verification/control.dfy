/** What one end of a control channel does with a message, as a function on its state. */
module Control {
  import opened Bits
  import opened Ring
  import opened Layout
  import opened Messages

  datatype Option<+T> = None | Some(value: T)

  datatype MemoryConfig = MemoryConfig(pairs: u16, log2: u8, bufferSize: u32)

  datatype Args = Args(id: u32, isMaster: bool, name: seq<u8>, secret: Bytes24, mem: MemoryConfig)

  /** The ring struct without its header copy; its region is always 0. */
  datatype RingInfo = RingInfo(dir: Direction, log2: u8, offset: nat)

  datatype Region = Region(size: u64, mapped: bool)

  /** An interface, but for the reference to its channel. */
  datatype Iface = Iface(
    args: Args, run: MemoryConfig, regions: seq<Region>, tx: seq<RingInfo>, rx: seq<RingInfo>,
    remoteName: seq<u8>, peerName: seq<u8>)

  /** A control channel with the interface bound to it. `open`: still in the socket's list.
      `panicked`: a message that needs an interface met a channel without one. */
  datatype Channel = Channel(iface: Option<Iface>, queue: seq<Msg>, connected: bool, open: bool, panicked: bool)

  /** The channel afterwards, and what went out. */
  datatype Outcome = Outcome(ch: Channel, out: seq<Msg>)

  /** copy(dst[:], s) for a zeroed array of n bytes */
  function Fixed(s: seq<u8>, n: nat): (r: seq<u8>)
    ensures |r| == n
  {
    if |s| >= n then s[..n] else s + Zeros(n - |s|)
  }

  /** A fixed-size name: cut, or padded with zeros. */
  predicate IsName(r: seq<u8>, s: seq<u8>, n: nat) {
    |r| == n && forall k :: 0 <= k < n ==> r[k] == if k < |s| then s[k] else 0
  }

  lemma FixedIsName(s: seq<u8>, n: nat)
    ensures IsName(Fixed(s, n), s, n)
  {
  }

  function Fresh(args: Args): Iface {
    Iface(args, MemoryConfig(0, 0, 0), [], [], [], [], [])
  }

  /** parseInit's search: the first of a socket's free master interfaces that has the id. */
  function FirstOffer(offers: seq<Iface>, id: u32): (r: Option<Iface>)
    ensures r.Some? ==> r.value in offers && r.value.args.id == id
  {
    if offers == [] then None
    else if offers[0].args.id == id then Some(offers[0])
    else FirstOffer(offers[1..], id)
  }

  lemma {:induction false} FirstOfferIsFirst(offers: seq<Iface>, id: u32, k: nat)
    requires k < |offers| && offers[k].args.id == id && forall j :: 0 <= j < k ==> offers[j].args.id != id
    ensures FirstOffer(offers, id) == Some(offers[k])
  {
    if k > 0 {
      assert offers[0].args.id != id;
      FirstOfferIsFirst(offers[1..], id, k - 1);
    }
  }

  // ------------------------------------------------------------ messages enqueued

  function HelloMsg(app: seq<u8>): Msg {
    Hello(Fixed(app, 32), VERSION, VERSION, 255, 255, 255, 14)
  }

  function InitMsg(app: seq<u8>, i: Iface): Msg {
    Init(VERSION, i.args.id, 0, Zeros(24), Fixed(app, 32))
  }

  function AddRingMsg(r: RingInfo, index: nat): Msg {
    AddRing(if r.dir.S2M? then FLAG_S2M else 0, U16(index), 0, U32(r.offset), r.log2, 0)
  }

  function AddRegionMsgs(regions: seq<Region>): seq<Msg> {
    seq(|regions|, k requires 0 <= k < |regions| => AddRegion(U16(k), regions[k].size))
  }

  function AddRingMsgs(rings: seq<RingInfo>, n: nat): seq<Msg>
    requires n <= |rings|
  {
    seq(n, k requires 0 <= k < n => AddRingMsg(rings[k], k))
  }

  // ------------------------------------------------------------ the slave on Hello

  /** parseHello: the M2S limit is applied to the configured count, so the S2M limit is lost. */
  function Negotiated(i: Iface, h: Msg): Iface
    requires h.Hello?
  {
    i.(run := i.args.mem.(pairs := Min(i.args.mem.pairs, h.maxRingM2S),
                          log2 := Min(i.args.mem.log2, h.maxLog2RingSize)),
       remoteName := h.name)
  }

  /** The slave runs with the lesser of its own and the peer's numbers, and its own buffer size. Of the peer's
      limits on pairs the M2S one is always kept, the S2M one exactly if the slave is configured within it or
      the M2S limit implies it. */
  lemma NegotiatedWithinLimits(i: Iface, h: Msg)
    requires h.Hello?
    ensures var run, own := Negotiated(i, h).run, i.args.mem;
            && run.pairs <= h.maxRingM2S && run.pairs <= own.pairs
            && (run.pairs == h.maxRingM2S || run.pairs == own.pairs)
            && run.log2 <= h.maxLog2RingSize && run.log2 <= own.log2
            && (run.log2 == h.maxLog2RingSize || run.log2 == own.log2)
            && run.bufferSize == own.bufferSize
            && Negotiated(i, h).args == i.args && Negotiated(i, h).remoteName == h.name
    ensures Negotiated(i, h).run.pairs <= h.maxRingS2M
       <==> i.args.mem.pairs <= h.maxRingS2M || h.maxRingM2S <= h.maxRingS2M
  {
  }

  /** A slave configured for two pairs, told one S2M ring and two M2S rings, takes two of each. */
  lemma S2MLimitIsLost()
    ensures var i := Fresh(Args(0, false, [], Zeros(24), MemoryConfig(2, 10, 2048)));
            var h := Hello(Zeros(32), VERSION, VERSION, 255, 2, 1, 14);
            h.maxRingS2M == 1 && Negotiated(i, h).run.pairs == 2
  {
  }

  function InitializedRegions(i: Iface): Iface {
    i.(regions := i.regions + [Region(RegionSize(i.run.pairs, i.run.log2, i.run.bufferSize), true)])
  }

  function NewRings(run: MemoryConfig, dir: Direction, n: nat): seq<RingInfo> {
    seq(n, k requires 0 <= k => RingInfo(dir, run.log2, RingOffset(run.pairs, run.log2, dir, k)))
  }

  function InitializedQueues(i: Iface): Iface {
    i.(tx := i.tx + NewRings(i.run, S2M, i.run.pairs), rx := i.rx + NewRings(i.run, M2S, i.run.pairs))
  }

  function Ready(i: Iface, h: Msg): Iface
    requires h.Hello?
  {
    InitializedQueues(InitializedRegions(Negotiated(i, h)))
  }

  /** Everything the slave then has to say. */
  function Script(app: seq<u8>, i: Iface): seq<Msg>
    requires i.run.pairs <= |i.tx| && i.run.pairs <= |i.rx|
  {
    [InitMsg(app, i)] + AddRegionMsgs(i.regions) + AddRingMsgs(i.tx, i.run.pairs) + AddRingMsgs(i.rx, i.run.pairs)
    + [Connect(Fixed(i.args.name, 32))]
  }

  // ------------------------------------------------------------ the master

  function Bound(i: Iface, m: Msg): Iface
    requires m.Init?
  {
    i.(run := i.args.mem, remoteName := m.name)
  }

  function WithRing(i: Iface, m: Msg): Iface
    requires m.AddRing?
  {
    if m.flags % 2 == 1 then i.(rx := i.rx + [RingInfo(S2M, m.ringSizeLog2, m.offset)])
    else i.(tx := i.tx + [RingInfo(M2S, m.ringSizeLog2, m.offset)])
  }

  /** connect(): map what is not mapped; cookies and callback are taken to succeed. */
  function ConnectedIface(i: Iface, name: seq<u8>): Iface {
    i.(peerName := name, regions := seq(|i.regions|, k requires 0 <= k < |i.regions| => i.regions[k].(mapped := true)))
  }

  predicate AllMapped(regions: seq<Region>) {
    forall r :: r in regions ==> r.mapped
  }

  /** disconnect(): the queues go; then unmapping a region that was never mapped is an error, on which
      everything else stays as it is. */
  function Disconnected(i: Iface): Iface {
    if AllMapped(i.regions) then i.(regions := [], tx := [], rx := [], peerName := [], remoteName := [])
    else i.(tx := [], rx := [])
  }

  // ------------------------------------------------------------ one event

  /** Whether parseMsg takes the message. `candidate` is the first free master interface with the id
      that an Init asks for. A Disconnect is an error when the interface's disconnect() is. */
  predicate Accepts(ch: Channel, m: Msg, candidate: Option<Iface>) {
    match m
    case Hello(_, vmin, vmax, _, _, _, _) => !(vmin > VERSION || vmax < VERSION)
    case Init(version, _, _, secret, _) =>
      version == VERSION && candidate.Some? && candidate.value.args.secret == secret
    case AddRegion(index, _) => index <= 255
    case AddRing(_, index, _, _, _, _) => ch.iface.Some? && index < ch.iface.value.run.pairs
    case Disconnect(_, _) => ch.iface.Some? ==> AllMapped(ch.iface.value.regions)
    case _ => true
  }

  /** A nil interface is dereferenced. */
  predicate Panics(ch: Channel, m: Msg) {
    && ch.iface.None?
    && match m
       case Hello(_, vmin, vmax, _, _, _, _) => !(vmin > VERSION || vmax < VERSION)
       case AddRegion(index, _) => index <= 255
       case AddRing(_, _, _, _, _, _) => true
       case Connect(_) => true
       case Connected(_) => true
       case _ => false
  }

  /** close(sendMsg, text) */
  function Closed(ch: Channel): Channel {
    ch.(open := false, iface := if ch.iface.Some? then Some(Disconnected(ch.iface.value)) else None)
  }

  /** close(true, text), and likewise an error after a failed close(false): the second close tells the
      peer and then finds the channel's event gone. */
  function CloseAndTell(ch: Channel, text: Bytes96): Outcome {
    Outcome(Closed(ch).(queue := []), [Disconnect(0, text)])
  }

  /** handleEvent on a hang-up: after a close that succeeds, the name of the interface is looked up. */
  function HungUp(ch: Channel): Channel {
    Closed(ch).(panicked := ch.panicked || ch.iface.None?)
  }

  /** The successful branches of parseMsg. */
  function Handled(app: seq<u8>, ch: Channel, m: Msg, candidate: Option<Iface>): Channel
    requires Accepts(ch, m, candidate) && !Panics(ch, m)
  {
    match m
    case Ack => ch
    case Hello(_, _, _, _, _, _, _) =>
      var i := Ready(ch.iface.value, m);
      ch.(iface := Some(i), queue := ch.queue + Script(app, i))
    case Init(_, _, _, _, _) => ch.(iface := Some(Bound(candidate.value, m)), queue := ch.queue + [Ack])
    case AddRegion(_, size) =>
      var i := ch.iface.value;
      ch.(iface := Some(i.(regions := i.regions + [Region(size, false)])), queue := ch.queue + [Ack])
    case AddRing(_, _, _, _, _, _) => ch.(iface := Some(WithRing(ch.iface.value, m)), queue := ch.queue + [Ack])
    case Connect(name) =>
      var i := ConnectedIface(ch.iface.value, name);
      ch.(iface := Some(i), connected := true, queue := ch.queue + [Connected(Fixed(i.args.name, 32))])
    case Connected(name) => ch.(iface := Some(ConnectedIface(ch.iface.value, name)), connected := true)
    case Disconnect(_, _) => Closed(ch)
  }

  /** sendMsg: at most one message an event. */
  function Sent(ch: Channel): Outcome {
    if ch.queue == [] then Outcome(ch, []) else Outcome(ch.(queue := ch.queue[1..]), [ch.queue[0]])
  }

  /** handleEvent on a received message: parse, then send one message; or, on an error, tell the
      peer and close. `text` stands for the error's text. */
  function Receive(app: seq<u8>, ch: Channel, m: Msg, candidate: Option<Iface>, text: Bytes96): Outcome {
    if Panics(ch, m) then Outcome(ch.(open := false, panicked := true), [])
    else if !Accepts(ch, m, candidate) then CloseAndTell(ch, text)
    else Sent(Handled(app, ch, m, candidate))
  }
}
