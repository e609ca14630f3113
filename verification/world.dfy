/** A socket's interfaces and channels as values, and what one event does to them. Interfaces are named by
    their place in the socket's list, which never loses one; channels by theirs. */
module Worlds {
  import opened Bits
  import opened Messages
  import opened Control

  /** What the user of a socket may ask for, and what polling may find. */
  datatype Event =
    | Create(args: Args)
    | Request(which: nat)
    | UserDisconnects(which: nat, text: Bytes96)
    | Found(what: Polled)

  datatype Polled = Incoming | Received(channel: nat, m: Msg, text: Bytes96) | HangsUp(channel: nat)

  const DEFAULT_QUEUE_PAIRS: u16 := 1
  const DEFAULT_LOG2_RING_SIZE: u8 := 10
  const DEFAULT_PACKET_BUFFER_SIZE: u32 := 2048

  function WithDefaults(a: Args): Args {
    var m := a.mem;
    a.(mem := MemoryConfig(
      if m.pairs == 0 then DEFAULT_QUEUE_PAIRS else m.pairs,
      if m.log2 == 0 then DEFAULT_LOG2_RING_SIZE else m.log2,
      if m.bufferSize == 0 then DEFAULT_PACKET_BUFFER_SIZE else m.bufferSize))
  }

  predicate SameKey(a: Args, b: Args) {
    a.id == b.id && a.isMaster == b.isMaster
  }

  /** A listed channel, with the place of its interface. */
  datatype Line = Line(queue: seq<Msg>, connected: bool, iface: Option<nat>)

  /** held: the interface has a channel, listed or not. */
  datatype World = World(ifaces: seq<Iface>, held: seq<bool>, lines: seq<Line>) {
    predicate Ok() {
      |held| == |ifaces| && forall j :: 0 <= j < |lines| && lines[j].iface.Some? ==> lines[j].iface.value < |ifaces|
    }

    /** The place, from j on, of the listed channel that the interface at place k has. */
    function LineFrom(k: nat, j: nat): (r: Option<nat>)
      requires j <= |lines|
      ensures r.Some? ==> j <= r.value < |lines| && lines[r.value].iface == Some(k)
      ensures r.None? ==> forall l :: j <= l < |lines| ==> lines[l].iface != Some(k)
      decreases |lines| - j
    {
      if j == |lines| then None else if lines[j].iface == Some(k) then Some(j) else LineFrom(k, j + 1)
    }

    function ChannelAt(j: nat): Channel
      requires Ok() && j < |lines|
    {
      var l := lines[j];
      Channel(if l.iface.Some? then Some(ifaces[l.iface.value]) else None, l.queue, l.connected, true, false)
    }

    /** The place of the first free master interface with this id, from place k on. */
    function FirstFreeFrom(id: u32, k: nat): Option<nat>
      requires Ok() && k <= |ifaces|
      ensures FirstFreeFrom(id, k).Some? ==> FirstFreeFrom(id, k).value < |ifaces|
      decreases |ifaces| - k
    {
      if k == |ifaces| then None
      else if ifaces[k].args.id == id && ifaces[k].args.isMaster && !held[k] then Some(k)
      else FirstFreeFrom(id, k + 1)
    }

    /** The place of the interface that an Init is given, and that interface. */
    function PlaceFor(m: Msg): Option<nat>
      requires Ok()
    {
      if m.Init? then FirstFreeFrom(m.id, 0) else None
    }

    function CandidateFor(m: Msg): Option<Iface>
      requires Ok()
    {
      if PlaceFor(m).Some? then Some(ifaces[PlaceFor(m).value]) else None
    }

    /** The place of the channel's interface after the message. */
    function PlaceAfter(j: nat, m: Msg): (k: Option<nat>)
      requires Ok() && j < |lines|
      ensures k.Some? ==> k.value < |ifaces|
    {
      if !m.Init? then lines[j].iface
      else if Accepts(ChannelAt(j), m, CandidateFor(m)) then PlaceFor(m) else None
    }

    /** Line j's channel is now ch, with the interface at place k, if any. A closed channel leaves the list;
        its interface is held on only if a region could not be unmapped. */
    function With(j: nat, ch: Channel, k: Option<nat>): (w: World)
      requires Ok() && j < |lines| && (k.Some? ==> k.value < |ifaces| && ch.iface.Some?)
      ensures w.Ok()
    {
      World(
        if k.Some? then ifaces[k.value := ch.iface.value] else ifaces,
        if k.Some? then held[k.value := ch.open || !AllMapped(ch.iface.value.regions)] else held,
        if ch.open then lines[j := Line(ch.queue, ch.connected, k)] else lines[..j] + lines[j + 1..])
    }
  }

  datatype Effect = Effect(world: World, out: seq<Msg>, panicked: bool)

  /** A received message goes to the channel it came on. Passed over is an Init for a channel that has an
      interface. */
  function AfterMessage(app: seq<u8>, w: World, j: nat, m: Msg, text: Bytes96): (r: Effect)
    requires w.Ok()
    ensures r.world.Ok()
  {
    if j >= |w.lines| || (m.Init? && w.lines[j].iface.Some?) then Effect(w, [], false)
    else
      var ch := w.ChannelAt(j);
      if Panics(ch, m) then Effect(w, [], true)
      else
        var o := Receive(app, ch, m, w.CandidateFor(m), text);
        Effect(w.With(j, o.ch, w.PlaceAfter(j, m)), o.out, false)
  }

  lemma PassedOver(app: seq<u8>, w: World, j: nat, m: Msg, text: Bytes96)
    requires w.Ok() && (j >= |w.lines| || (m.Init? && w.lines[j].iface.Some?))
    ensures AfterMessage(app, w, j, m, text) == Effect(w, [], false)
  {
  }

  lemma NotPassedOver(app: seq<u8>, w: World, j: nat, m: Msg, text: Bytes96)
    requires w.Ok() && j < |w.lines| && (m.Init? ==> w.lines[j].iface.None?)
    ensures var o := Receive(app, w.ChannelAt(j), m, w.CandidateFor(m), text);
            if Panics(w.ChannelAt(j), m) then AfterMessage(app, w, j, m, text) == Effect(w, [], true)
            else
              && (w.PlaceAfter(j, m).Some? ==> o.ch.iface.Some?)
              && AfterMessage(app, w, j, m, text) == Effect(w.With(j, o.ch, w.PlaceAfter(j, m)), o.out, false)
  {
  }

  function AfterPolled(app: seq<u8>, w: World, e: Polled): (r: Effect)
    requires w.Ok()
    ensures r.world.Ok()
  {
    match e
    case Incoming => Effect(w.(lines := w.lines + [Line([], false, None)]), [HelloMsg(app)], false)
    case Received(j, m, text) => AfterMessage(app, w, j, m, text)
    case HangsUp(j) =>
      if j >= |w.lines| then Effect(w, [], false)
      else Effect(w.With(j, HungUp(w.ChannelAt(j)), w.lines[j].iface), [], HungUp(w.ChannelAt(j)).panicked)
  }

  function AfterDisconnect(w: World, k: nat, text: Bytes96): (r: Effect)
    requires w.Ok()
    ensures r.world.Ok()
  {
    if k >= |w.ifaces| || !w.held[k] then Effect(w, [], false)
    else
      var j := w.LineFrom(k, 0);
      if j.None? then Effect(w, [Disconnect(0, text)], false)
      else Effect(w.With(j.value, Closed(w.ChannelAt(j.value)), Some(k)), [Disconnect(0, text)], false)
  }

  /** Passed over are places there are none of, and a request of an interface that has a listed channel. */
  function After(app: seq<u8>, w: World, e: Event): (r: Effect)
    requires w.Ok()
    ensures r.world.Ok()
  {
    match e
    case Create(args) =>
      if exists i :: i in w.ifaces && i.args.id == args.id && i.args.isMaster == args.isMaster then Effect(w, [], false)
      else Effect(w.(ifaces := w.ifaces + [Fresh(WithDefaults(args))], held := w.held + [false]), [], false)
    case Request(k) =>
      if k >= |w.ifaces| || w.ifaces[k].args.isMaster || w.LineFrom(k, 0).Some? then Effect(w, [], false)
      else Effect(w.(held := w.held[k := true], lines := w.lines + [Line([], false, Some(k))]), [], false)
    case UserDisconnects(k, text) => AfterDisconnect(w, k, text)
    case Found(what) => AfterPolled(app, w, what)
  }

  /** One event after another, up to a panic. */
  function AfterAll(app: seq<u8>, w: World, events: seq<Event>): (World, seq<seq<Msg>>, bool)
    requires w.Ok()
    decreases |events|
  {
    if events == [] then (w, [], false)
    else
      var a := After(app, w, events[0]);
      if a.panicked then (a.world, [a.out], true)
      else
        var (v, outs, panicked) := AfterAll(app, a.world, events[1..]);
        (v, [a.out] + outs, panicked)
  }

  /** A message concerns the channel it came on, the interface of that channel, and, for an Init, the one that is
      then bound: those end as Receive says; every other channel and interface stays as it was. */
  lemma MessageStaysOnItsChannel(app: seq<u8>, w: World, j: nat, m: Msg, text: Bytes96)
    requires w.Ok() && j < |w.lines| && (m.Init? ==> w.lines[j].iface.None?) && !Panics(w.ChannelAt(j), m)
    ensures var a, o := AfterMessage(app, w, j, m, text), Receive(app, w.ChannelAt(j), m, w.CandidateFor(m), text);
            && a.out == o.out && !a.panicked
            && (forall l :: 0 <= l < j ==> a.world.lines[l] == w.lines[l])
            && (if o.ch.open then
                  && |a.world.lines| == |w.lines| && a.world.ChannelAt(j) == o.ch.(panicked := false)
                  && forall l :: j < l < |w.lines| ==> a.world.lines[l] == w.lines[l]
                else
                  && |a.world.lines| == |w.lines| - 1
                  && forall l :: j < l < |w.lines| ==> a.world.lines[l - 1] == w.lines[l])
            && |a.world.ifaces| == |w.ifaces|
            && forall x :: 0 <= x < |w.ifaces| && Some(x) != w.lines[j].iface && Some(x) != w.PlaceFor(m) ==>
                 a.world.ifaces[x] == w.ifaces[x] && a.world.held[x] == w.held[x]
  {
    var o := Receive(app, w.ChannelAt(j), m, w.CandidateFor(m), text);
    BoundOrNot(app, w, j, m, text);
    hide Receive, Accepts, Panics;
    WithIs(w, j, o.ch, w.PlaceAfter(j, m));
  }

  lemma WithIs(w: World, j: nat, ch: Channel, k: Option<nat>)
    requires w.Ok() && j < |w.lines| && (k.Some? ==> k.value < |w.ifaces|) && (k.Some? <==> ch.iface.Some?)
    ensures var v := w.With(j, ch, k);
            && (forall l :: 0 <= l < j ==> v.lines[l] == w.lines[l])
            && (if ch.open then
                  && |v.lines| == |w.lines| && v.ChannelAt(j) == ch.(panicked := false)
                  && forall l :: j < l < |w.lines| ==> v.lines[l] == w.lines[l]
                else
                  |v.lines| == |w.lines| - 1 && forall l :: j < l < |w.lines| ==> v.lines[l - 1] == w.lines[l])
            && |v.ifaces| == |w.ifaces|
            && forall x :: 0 <= x < |w.ifaces| && Some(x) != k ==> v.ifaces[x] == w.ifaces[x] && v.held[x] == w.held[x]
  {
  }

  lemma BoundOrNot(app: seq<u8>, w: World, j: nat, m: Msg, text: Bytes96)
    requires w.Ok() && j < |w.lines| && (m.Init? ==> w.lines[j].iface.None?) && !Panics(w.ChannelAt(j), m)
    ensures var ch := Receive(app, w.ChannelAt(j), m, w.CandidateFor(m), text).ch;
            (w.PlaceAfter(j, m).Some? <==> ch.iface.Some?) && !ch.panicked
    ensures w.PlaceAfter(j, m) == w.lines[j].iface || w.PlaceAfter(j, m) == w.PlaceFor(m)
  {
    hide Script, Ready;
  }

  /** The interface that an Init is given is the first that has the id, is a master's and has no channel. */
  lemma FirstFreeIsFirst(w: World, id: u32, k: nat)
    requires w.Ok() && k <= |w.ifaces|
    ensures var p := w.FirstFreeFrom(id, k);
            if p.None? then
              forall x :: k <= x < |w.ifaces| && w.ifaces[x].args.id == id && w.ifaces[x].args.isMaster ==> w.held[x]
            else
              && k <= p.value && !w.held[p.value]
              && w.ifaces[p.value].args.id == id && w.ifaces[p.value].args.isMaster
              && forall x :: k <= x < p.value && w.ifaces[x].args.id == id && w.ifaces[x].args.isMaster ==> w.held[x]
    decreases |w.ifaces| - k
  {
    if k < |w.ifaces| && w.FirstFreeFrom(id, k) != Some(k) {
      FirstFreeIsFirst(w, id, k + 1);
    }
  }

  /** The free master interfaces from place k on: what a handshake with this socket is offered. */
  function OffersFrom(w: World, k: nat): seq<Iface>
    requires w.Ok() && k <= |w.ifaces|
    decreases |w.ifaces| - k
  {
    if k == |w.ifaces| then []
    else if w.ifaces[k].args.isMaster && !w.held[k] then [w.ifaces[k]] + OffersFrom(w, k + 1)
    else OffersFrom(w, k + 1)
  }

  lemma CandidateIsFirstOffer(w: World, m: Msg, k: nat)
    requires w.Ok() && m.Init? && k <= |w.ifaces|
    ensures var p := w.FirstFreeFrom(m.id, k);
            FirstOffer(OffersFrom(w, k), m.id) == if p.Some? then Some(w.ifaces[p.value]) else None
    ensures k == 0 ==> w.CandidateFor(m) == FirstOffer(OffersFrom(w, 0), m.id)
    decreases |w.ifaces| - k
  {
    if k < |w.ifaces| {
      CandidateIsFirstOffer(w, m, k + 1);
      if w.ifaces[k].args.isMaster && !w.held[k] {
        assert OffersFrom(w, k)[1..] == OffersFrom(w, k + 1);
      }
    }
  }

  /** The first k events lead from w to v, and have yielded outs. */
  predicate Leads(app: seq<u8>, w: World, events: seq<Event>, k: nat, v: World, outs: seq<seq<Msg>>)
    requires w.Ok() && v.Ok() && k <= |events|
  {
    var (x, said, died) := AfterAll(app, v, events[k..]);
    AfterAll(app, w, events) == (x, outs + said, died)
  }

  lemma LeadsOn(app: seq<u8>, w: World, events: seq<Event>, k: nat, v: World, outs: seq<seq<Msg>>)
    requires w.Ok() && v.Ok() && k < |events| && Leads(app, w, events, k, v, outs)
    ensures var a := After(app, v, events[k]);
            if a.panicked then AfterAll(app, w, events) == (a.world, outs + [a.out], true)
            else Leads(app, w, events, k + 1, a.world, outs + [a.out])
  {
    hide After;
    var a := After(app, v, events[k]);
    assert events[k..][0] == events[k] && events[k..][1..] == events[k + 1..];
    var said := AfterAll(app, a.world, events[k + 1..]).1;
    assert outs + ([a.out] + said) == (outs + [a.out]) + said;
  }

  lemma LeadsFromTo(app: seq<u8>, w: World, events: seq<Event>, v: World, outs: seq<seq<Msg>>)
    requires w.Ok() && v.Ok()
    ensures Leads(app, w, events, 0, w, [])
    ensures Leads(app, w, events, |events|, v, outs) ==> AfterAll(app, w, events) == (v, outs, false)
  {
    hide After;
    assert events[0..] == events && [] + AfterAll(app, w, events).1 == AfterAll(app, w, events).1;
    assert outs + [] == outs;
  }
}
