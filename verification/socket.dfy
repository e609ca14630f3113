/** Sockets, interfaces and control channels as objects: creation, connection requests, the message
    handlers and disconnection, and what they keep true of a socket's two lists. */
module Sockets {
  import opened Bits
  import opened Ring
  import opened Layout
  import opened Messages
  import opened Control
  import opened Worlds

  class Interface {
    const socket: Socket
    const args: Args
    var run: MemoryConfig
    var regions: seq<Region>
    var txQueues: seq<RingInfo>
    var rxQueues: seq<RingInfo>
    var remoteName: seq<u8>
    var peerName: seq<u8>
    var cc: ControlChannel?

    constructor (socket: Socket, args: Args)
      ensures this.socket == socket && Value() == Fresh(args) && cc == null
    {
      this.socket, this.args, run := socket, args, MemoryConfig(0, 0, 0);
      regions, txQueues, rxQueues, remoteName, peerName := [], [], [], [], [];
      cc := null;
    }

    function Value(): Iface
      reads this
    {
      Iface(args, run, regions, txQueues, rxQueues, remoteName, peerName)
    }

    /** Nothing of an earlier connection is left. */
    predicate Idle()
      reads this
    {
      Value() == Fresh(args).(run := run)
    }

    /** The slave's newRing. */
    function NewRing(dir: Direction, index: nat): RingInfo
      reads this
    {
      RingInfo(dir, run.log2, RingOffset(run.pairs, run.log2, dir, index))
    }

    method InitializeRegions()
      modifies this
      ensures Value() == InitializedRegions(old(Value())) && cc == old(cc)
    {
      regions := regions + [Region(RegionSize(run.pairs, run.log2, run.bufferSize), true)];
    }

    method InitializeQueues()
      modifies this
      ensures Value() == InitializedQueues(old(Value())) && cc == old(cc)
    {
      var tx0, rx0 := txQueues, rxQueues;
      for qid := 0 to run.pairs
        invariant Value() == old(Value()).(tx := tx0 + NewRings(run, S2M, qid)) && cc == old(cc)
      {
        txQueues := txQueues + [NewRing(S2M, qid)];
        assert NewRings(run, S2M, qid + 1) == NewRings(run, S2M, qid) + [NewRing(S2M, qid)];
      }
      var tx1 := txQueues;
      for qid := 0 to run.pairs
        invariant Value() == old(Value()).(tx := tx1, rx := rx0 + NewRings(run, M2S, qid)) && cc == old(cc)
      {
        rxQueues := rxQueues + [NewRing(M2S, qid)];
        assert NewRings(run, M2S, qid + 1) == NewRings(run, M2S, qid) + [NewRing(M2S, qid)];
      }
    }

    /** connect(): maps the regions that are not mapped yet. `proceeds`: the ring headers hold the cookie and
        the user's callback returns no error. */
    method Connect(name: seq<u8>, proceeds: bool) returns (ok: bool)
      modifies this
      ensures ok == proceeds && Value() == ConnectedIface(old(Value()), name) && cc == old(cc)
    {
      peerName := name;
      var rs := regions;
      for rid := 0 to |regions|
        invariant |regions| == |rs| && Value() == old(Value()).(peerName := name, regions := regions) && cc == old(cc)
        invariant forall k :: 0 <= k < |rs| ==> regions[k] == if k < rid then rs[k].(mapped := true) else rs[k]
      {
        if !regions[rid].mapped {
          regions := regions[rid := regions[rid].(mapped := true)];
        }
      }
      assert regions == ConnectedIface(old(Value()), name).regions;
      return proceeds;
    }

    /** A slave asks for a connection. The code does not look whether it has one already; the socket stays
        valid exactly if it has no listed one. */
    method RequestConnection() returns (ok: bool)
      requires socket.Valid() && this in socket.interfaceList
      modifies this`cc, socket`ccList
      ensures socket.Valid() <==> args.isMaster || !old(cc in socket.ccList)
      ensures ok == !args.isMaster && (old(cc) == null ==> old(Idle()))
      ensures !ok ==> cc == old(cc) && socket.ccList == old(socket.ccList)
      ensures ok ==> cc != null && fresh(cc) && socket.ccList == old(socket.ccList) + [cc]
      ensures ok ==> cc.View() == Channel(Some(old(Value())), [], false, true, false)
    {
      if args.isMaster {
        return false;
      }
      cc := new ControlChannel(socket, this);
      socket.ccList := socket.ccList + [cc];
      return true;
    }

    /** Disconnect() of the interface's user. The interface is free again exactly when all its regions are
        mapped; otherwise it keeps a channel that is in no list, and stays so. */
    method UserDisconnect(text: Bytes96) returns (out: seq<Msg>)
      requires socket.Valid() && this in socket.interfaceList
      modifies this, socket`ccList, cc
      ensures socket.Valid()
      ensures cc == null <==> old(cc) == null || (old(cc in socket.ccList) && AllMapped(old(regions)))
      ensures Value() == if old(cc in socket.ccList) then Disconnected(old(Value())) else old(Value())
      ensures old(cc) != null ==> old(cc).i == this
      ensures cc == null ==> Idle()
      ensures cc != null ==> cc == old(cc) && cc !in socket.ccList
      ensures old(cc) != null ==>
                socket.ccList == Without(old(socket.ccList), old(cc)) && out == [Msg.Disconnect(0, text)]
      ensures old(cc) == null ==> socket.ccList == old(socket.ccList) && out == []
    {
      out := [];
      if cc != null {
        var c := cc;
        var ok;
        ok, out := c.Close(true, text);
        if !old(cc in socket.ccList) {
          WithoutAbsent(socket.ccList, c);
        }
      }
    }

    /** disconnect(): close the queues, unmap the regions, forget the channel. Unmapping a region that
        was never mapped is an error. */
    method Disconnect() returns (ok: bool)
      modifies this
      ensures ok == (old(cc) == null || AllMapped(old(regions)))
      ensures cc == if ok then null else old(cc)
      ensures Value() == if old(cc) == null then old(Value()) else Disconnected(old(Value()))
    {
      if cc == null {
        return true;
      }
      txQueues, rxQueues := [], [];
      for k := 0 to |regions|
        invariant Value() == old(Value()).(tx := [], rx := []) && cc == old(cc)
        invariant forall r :: r in regions[..k] ==> r.mapped
      {
        if !regions[k].mapped {
          return false;
        }
        assert regions[..k + 1] == regions[..k] + [regions[k]];
      }
      assert regions[..|regions|] == regions;
      regions := [];
      cc := null;
      peerName, remoteName := [], [];
      return true;
    }
  }

  class ControlChannel {
    const socket: Socket
    var i: Interface?
    var msgQueue: seq<Msg>
    var isConnected: bool

    constructor (socket: Socket, i: Interface?)
      ensures this.socket == socket && this.i == i && msgQueue == [] && !isConnected
    {
      this.socket, this.i, msgQueue, isConnected := socket, i, [], false;
    }

    function View(): Channel
      reads this, i, socket
    {
      Channel(if i == null then None else Some(i.Value()), msgQueue, isConnected, this in socket.ccList, false)
    }

    method SendMsg() returns (out: seq<Msg>)
      modifies this`msgQueue
      ensures out == (if old(msgQueue) == [] then [] else [old(msgQueue)[0]])
      ensures msgQueue == (if old(msgQueue) == [] then [] else old(msgQueue)[1..])
    {
      if |msgQueue| < 1 {
        return [];
      }
      out := [msgQueue[0]];
      msgQueue := msgQueue[1..];
    }

    method EnqueueRings(rings: seq<RingInfo>, n: nat)
      requires n <= |rings|
      modifies this`msgQueue
      ensures msgQueue == old(msgQueue) + AddRingMsgs(rings, n)
    {
      for k := 0 to n
        invariant msgQueue == old(msgQueue) + AddRingMsgs(rings, k)
      {
        msgQueue := msgQueue + [AddRingMsg(rings[k], k)];
        assert AddRingMsgs(rings, k + 1) == AddRingMsgs(rings, k) + [AddRingMsg(rings[k], k)];
      }
    }

    /** Everything a greeted slave has to say, in order. */
    method EnqueueScript()
      requires i != null && i.run.pairs <= |i.txQueues| && i.run.pairs <= |i.rxQueues|
      modifies this`msgQueue
      ensures msgQueue == old(msgQueue) + Script(socket.appName, i.Value())
    {
      var q0 := msgQueue;
      var v := i.Value();
      msgQueue := msgQueue + [InitMsg(socket.appName, v)];
      var q1 := msgQueue;
      for k := 0 to |i.regions|
        invariant msgQueue == q1 + AddRegionMsgs(v.regions)[..k]
      {
        msgQueue := msgQueue + [AddRegion(U16(k), i.regions[k].size)];
        assert AddRegionMsgs(v.regions)[..k + 1]
            == AddRegionMsgs(v.regions)[..k] + [AddRegion(U16(k), i.regions[k].size)];
      }
      var q2 := msgQueue;
      assert q2 == q1 + AddRegionMsgs(v.regions);
      EnqueueRings(i.txQueues, i.run.pairs);
      EnqueueRings(i.rxQueues, i.run.pairs);
      msgQueue := msgQueue + [Msg.Connect(Fixed(i.args.name, 32))];
    }

    /** close(): tell the peer if asked to, leave the socket's list, disconnect the interface. A channel
        that has left the list already has no event to delete, which is an error. */
    method Close(send: bool, text: Bytes96) returns (ok: bool, out: seq<Msg>)
      requires socket.Valid()
      requires this in socket.ccList || (i != null && i in socket.interfaceList && i.cc == this)
      modifies this, socket`ccList, i
      ensures socket.Valid() && i == old(i)
      ensures ok == (old(this in socket.ccList) && (i == null || AllMapped(old(i.regions))))
      ensures i != null ==> i.cc == if ok then null else this
      ensures View() == (if old(this in socket.ccList) then Closed(old(View())) else old(View()))
                        .(queue := if send then [] else old(msgQueue))
      ensures socket.ccList
           == if old(this in socket.ccList) then Without(old(socket.ccList), this) else old(socket.ccList)
      ensures out == if send then [Msg.Disconnect(0, text)] else []
    {
      out := [];
      if send {
        msgQueue := [];
        msgQueue := msgQueue + [Msg.Disconnect(0, text)];
        out := SendMsg();
      }
      if this !in socket.ccList {
        return false, out;
      }
      ok := Leave();
    }

    method Leave() returns (ok: bool)
      requires socket.Valid() && this in socket.ccList
      modifies socket`ccList, i
      ensures socket.Valid() && ok == (i == null || AllMapped(old(i.regions)))
      ensures i != null ==> i.cc == if ok then null else this
      ensures View() == Closed(old(View())) && socket.ccList == Without(old(socket.ccList), this)
    {
      hide Without, AllMapped;
      WithoutDrops(socket.ccList, this);
      socket.ccList := Without(socket.ccList, this);
      ok := true;
      if i != null {
        ok := i.Disconnect();
      }
    }

    method Bind(x: Interface, m: Msg)
      requires socket.Valid() && this in socket.ccList && m.Init? && x in socket.interfaceList && x.cc == null
      modifies this`i, x
      ensures socket.Valid() <==> old(i) == null
      ensures i == x && x.cc == this && x.Value() == Bound(old(x.Value()), m)
    {
      x.cc := this;
      i := x;
      i.run := i.args.mem;
      i.remoteName := m.name;
      if old(i) != null {
        assert old(i).cc == this && old(i) != i;
      }
    }

    /** parseInit: bind the first free master interface with the id asked for, if its secret fits. The code
        does not look whether the channel has an interface already; the socket stays valid exactly
        if it does not bind a second one. */
    method ParseInit(m: Msg) returns (ok: bool)
      requires socket.Valid() && this in socket.ccList && m.Init?
      modifies this, socket.interfaceList
      ensures socket.Valid() <==> !ok || old(i) == null
      ensures ok == Accepts(old(View()), m, old(Candidate(socket.interfaceList, m.id)))
      ensures msgQueue == old(msgQueue) && isConnected == old(isConnected)
      ensures !ok ==> i == old(i) && forall x :: x in socket.interfaceList ==> unchanged(x)
      ensures ok ==> i != null && i.cc == this && i == old(FirstFree(socket.interfaceList, m.id))
      ensures ok ==> i.Value() == Bound(old(Candidate(socket.interfaceList, m.id)).value, m)
      ensures ok ==> forall x :: x in socket.interfaceList && x != i ==> unchanged(x)
    {
      if m.version != VERSION {
        return false;
      }
      var list := socket.interfaceList;
      for k := 0 to |list|
        invariant FirstFree(list, m.id) == FirstFree(list[k..], m.id)
      {
        var x := list[k];
        assert list[k..][1..] == list[k + 1..];
        if IsFree(x, m.id) {
          if x.args.secret != m.secret {
            return false;
          }
          Bind(x, m);
          return true;
        }
      }
      return false;
    }

    /** The branches of parseMsg that change only this channel and its interface. */
    method ParseBound(m: Msg) returns (ok: bool)
      requires !Panics(View(), m) && (m.Hello? || m.AddRegion? || m.AddRing? || m.Connect? || m.Connected?)
      modifies this`msgQueue, this`isConnected, i
      ensures ok == Accepts(old(View()), m, None)
      ensures View() == if ok then Handled(socket.appName, old(View()), m, None) else old(View())
      ensures i != null ==> i.cc == old(i.cc)
    {
      match m
      case Hello(name, vmin, vmax, _, m2s, s2m, log2) =>
        if vmin > VERSION || vmax < VERSION {
          return false;
        }
        i.run := i.args.mem;
        i.run := i.run.(pairs := Min(i.args.mem.pairs, s2m));
        i.run := i.run.(pairs := Min(i.args.mem.pairs, m2s));
        i.run := i.run.(log2 := Min(i.args.mem.log2, log2));
        i.remoteName := name;
        i.InitializeRegions();
        i.InitializeQueues();
        EnqueueScript();
        return true;
      case AddRegion(index, size) =>
        if index > 255 {
          return false;
        }
        i.regions := i.regions + [Region(size, false)];
        msgQueue := msgQueue + [Ack];
        return true;
      case AddRing(flags, index, _, offset, log2, _) =>
        if index >= i.run.pairs {
          return false;
        }
        if flags % 2 == FLAG_S2M {
          i.rxQueues := i.rxQueues + [RingInfo(S2M, log2, offset)];
        } else {
          i.txQueues := i.txQueues + [RingInfo(M2S, log2, offset)];
        }
        msgQueue := msgQueue + [Ack];
        return true;
      case Connect(name) =>
        var _ := i.Connect(name, true);
        isConnected := true;
        msgQueue := msgQueue + [Msg.Connected(Fixed(i.args.name, 32))];
        return true;
      case Connected(name) =>
        var _ := i.Connect(name, true);
        isConnected := true;
        return true;
    }

    /** handleEvent on a received message, for a channel in the list: Receive says what becomes of the
        channel and what goes out, and whether a missing interface is dereferenced. No other interface
        changes. The socket stays valid exactly unless a second Init is accepted. */
    method HandleMessage(m: Msg, text: Bytes96) returns (out: seq<Msg>, panicked: bool)
      requires socket.Valid() && this in socket.ccList
      modifies this, socket`ccList, i, socket.interfaceList
      ensures socket.Valid() <==>
              !(m.Init? && old(i) != null && Accepts(old(View()), m, old(Candidate(socket.interfaceList, m.id))))
      ensures i == if m.Init? && Accepts(old(View()), m, old(Candidate(socket.interfaceList, m.id)))
                   then old(FirstFree(socket.interfaceList, m.id)) else old(i)
      ensures socket.ccList == old(socket.ccList) || socket.ccList == Without(old(socket.ccList), this)
      ensures i != null ==> i.cc == null || i.cc == this
      ensures panicked == Panics(old(View()), m)
      ensures panicked ==> View() == old(View()) && out == []
      ensures !panicked ==> Outcome(View(), out) == Receive(socket.appName, old(View()), m,
                old(if m.Init? then Candidate(socket.interfaceList, m.id) else None), text)
      ensures forall x :: x in socket.interfaceList && x != i ==> unchanged(x)
    {
      hide Without, Candidate;
      if Panics(View(), m) {
        return [], true;
      }
      panicked := false;
      match m
      case Ack => out := SendMsg();
      case Disconnect(_, str) => out := HandleDisconnect(m, text);
      case Init(_, _, _, _, _) => out := HandleInit(m, text);
      case _ => out := HandleBound(m, text);
    }

    method HandleDisconnect(m: Msg, text: Bytes96) returns (out: seq<Msg>)
      requires socket.Valid() && this in socket.ccList && m.Disconnect?
      modifies this, socket`ccList, i
      ensures socket.Valid() && i == old(i) && socket.ccList == Without(old(socket.ccList), this)
      ensures i != null ==> i.cc == null || i.cc == this
      ensures Outcome(View(), out) == Receive(socket.appName, old(View()), m, None, text)
    {
      hide Without, AllMapped;
      var ok;
      ok, out := Close(false, m.text);
      if !ok {
        ok, out := Close(true, text);
        return;
      }
      out := SendMsg();
    }

    /** handleEvent on a hang-up or an error event. */
    method HandleHangUp() returns (panicked: bool)
      requires socket.Valid() && this in socket.ccList
      modifies this, socket`ccList, i
      ensures socket.Valid() && i == old(i) && socket.ccList == Without(old(socket.ccList), this)
      ensures i != null ==> i.cc == null || i.cc == this
      ensures View().(panicked := panicked) == HungUp(old(View()))
    {
      var ok, _ := Close(false, Zeros(96));
      panicked := ok && i == null;
    }

    method HandleInit(m: Msg, text: Bytes96) returns (out: seq<Msg>)
      requires socket.Valid() && this in socket.ccList && m.Init?
      modifies this, socket`ccList, i, socket.interfaceList
      ensures socket.Valid() <==>
              !(old(i) != null && Accepts(old(View()), m, old(Candidate(socket.interfaceList, m.id))))
      ensures socket.ccList == old(socket.ccList) || socket.ccList == Without(old(socket.ccList), this)
      ensures i == if Accepts(old(View()), m, old(Candidate(socket.interfaceList, m.id)))
                   then old(FirstFree(socket.interfaceList, m.id)) else old(i)
      ensures i != null ==> i.cc == null || i.cc == this
      ensures Outcome(View(), out)
           == Receive(socket.appName, old(View()), m, old(Candidate(socket.interfaceList, m.id)), text)
      ensures forall x :: x in socket.interfaceList && x != i ==> unchanged(x)
    {
      hide Candidate, Without, AllMapped;
      var ok := ParseInit(m);
      if !ok {
        ok, out := Close(true, text);
        return;
      }
      out := SendAck();
    }

    method SendAck() returns (out: seq<Msg>)
      modifies this`msgQueue
      ensures socket.Valid() == old(socket.Valid())
      ensures out == [(old(msgQueue) + [Ack])[0]] && msgQueue == (old(msgQueue) + [Ack])[1..]
    {
      msgQueue := msgQueue + [Ack];
      out := SendMsg();
    }

    method HandleBound(m: Msg, text: Bytes96) returns (out: seq<Msg>)
      requires socket.Valid() && this in socket.ccList && !Panics(View(), m)
      requires m.Hello? || m.AddRegion? || m.AddRing? || m.Connect? || m.Connected?
      modifies this, socket`ccList, i
      ensures socket.Valid() && i == old(i)
      ensures socket.ccList == old(socket.ccList) || socket.ccList == Without(old(socket.ccList), this)
      ensures i != null ==> i.cc == null || i.cc == this
      ensures Outcome(View(), out) == Receive(socket.appName, old(View()), m, None, text)
    {
      hide Accepts, Handled, Panics, Closed;
      var ok := ParseBound(m);
      if !ok {
        ok, out := Close(true, text);
        return;
      }
      out := SendMsg();
    }
  }

  predicate IsFree(x: Interface, id: u32)
    reads x
  {
    x.args.id == id && x.args.isMaster && x.cc == null
  }

  /** The first free master interface with this id. */
  function FirstFree(list: seq<Interface>, id: u32): (r: Interface?)
    reads list
    ensures r != null ==> r in list
  {
    if list == [] then null else if IsFree(list[0], id) then list[0] else FirstFree(list[1..], id)
  }

  function Candidate(list: seq<Interface>, id: u32): Option<Iface>
    reads list
  {
    var x := FirstFree(list, id);
    if x == null then None else Some(x.Value())
  }

  /** list.Remove */
  function Without(s: seq<ControlChannel>, x: ControlChannel): (r: seq<ControlChannel>)
    ensures forall y :: y in r ==> y in s
  {
    if s == [] then [] else if s[0] == x then s[1..] else [s[0]] + Without(s[1..], x)
  }

  lemma {:induction false} WithoutDrops(s: seq<ControlChannel>, x: ControlChannel)
    requires x in s && forall a, b :: 0 <= a < b < |s| ==> s[a] != s[b]
    ensures x !in Without(s, x)
    ensures forall y :: y in s && y != x ==> y in Without(s, x)
    ensures forall a, b :: 0 <= a < b < |Without(s, x)| ==> Without(s, x)[a] != Without(s, x)[b]
  {
    if s[0] == x {
    } else {
      WithoutDrops(s[1..], x);
      var w := Without(s[1..], x);
      forall a, b | 0 <= a < b < |Without(s, x)| ensures Without(s, x)[a] != Without(s, x)[b] {
        if a == 0 {
          var y := w[b - 1];
          assert y in Without(s[1..], x) && y in s[1..];
        } else {
          assert w[a - 1] != w[b - 1];
        }
      }
    }
  }

  lemma {:induction false} WithoutAt(s: seq<ControlChannel>, j: nat)
    requires j < |s| && forall a, b :: 0 <= a < b < |s| ==> s[a] != s[b]
    ensures Without(s, s[j]) == s[..j] + s[j + 1..]
    ensures s[j] !in Without(s, s[j])
  {
    WithoutDrops(s, s[j]);
    if j > 0 {
      WithoutAt(s[1..], j - 1);
    }
  }

  lemma {:induction false} WithoutAbsent(s: seq<ControlChannel>, x: ControlChannel)
    requires x !in s
    ensures Without(s, x) == s
  {
    if s != [] {
      WithoutAbsent(s[1..], x);
    }
  }

  class Socket {
    const appName: seq<u8>
    var interfaceList: seq<Interface>
    var ccList: seq<ControlChannel>

    constructor (appName: seq<u8>)
      ensures Valid() && this.appName == appName && interfaceList == [] && ccList == [] && Shows(World([], [], []))
    {
      this.appName, interfaceList, ccList := appName, [], [];
    }

    /** (Id, role) pairs are unique; a listed channel's interface has that channel; an interface's channel
        has that interface, and is listed unless it closed with a region unmapped; an interface
        without a channel is idle. */
    ghost predicate Valid()
      reads this, interfaceList, ccList, set x | x in interfaceList :: x.cc
    {
      && (forall a, b :: 0 <= a < b < |interfaceList| ==>
            interfaceList[a] != interfaceList[b] && !SameKey(interfaceList[a].args, interfaceList[b].args))
      && (forall a, b :: 0 <= a < b < |ccList| ==> ccList[a] != ccList[b])
      && (forall x :: x in interfaceList ==> x.socket == this && (x.cc == null ==> x.Idle()))
      && (forall c :: c in ccList ==> c.socket == this)
      && (forall x :: x in interfaceList && x.cc != null ==>
            x.cc.i == x && x.cc.socket == this && (x.cc in ccList || !AllMapped(x.regions)))
      && (forall c :: c in ccList && c.i != null ==> c.i in interfaceList && c.i.cc == c)
    }

    /** NewInterface: refused exactly when the (Id, role) pair is taken. */
    method NewInterface(args: Args) returns (i: Interface?)
      requires Valid()
      modifies this`interfaceList
      ensures Valid()
      ensures i == null <==>
              exists x :: x in old(interfaceList) && x.args.id == args.id && x.args.isMaster == args.isMaster
      ensures i == null ==> interfaceList == old(interfaceList)
      ensures i != null ==> fresh(i) && interfaceList == old(interfaceList) + [i]
      ensures i != null ==> i.Value() == Fresh(WithDefaults(args)) && i.cc == null
      ensures i != null ==> i.args == args.(mem := i.args.mem)
      ensures i != null ==> i.regions == [] && i.txQueues == [] && i.rxQueues == []
      ensures i != null ==> && i.args.mem.pairs == (if args.mem.pairs == 0 then 1 else args.mem.pairs)
                            && i.args.mem.log2 == (if args.mem.log2 == 0 then 10 else args.mem.log2)
                            && i.args.mem.bufferSize == (if args.mem.bufferSize == 0 then 2048 else args.mem.bufferSize)
    {
      for k := 0 to |interfaceList|
        invariant forall x :: x in interfaceList[..k] ==> !SameKey(x.args, args)
      {
        if SameKey(interfaceList[k].args, args) {
          return null;
        }
        assert interfaceList[..k + 1] == interfaceList[..k] + [interfaceList[k]];
      }
      assert interfaceList[..|interfaceList|] == interfaceList;
      i := new Interface(this, WithDefaults(args));
      interfaceList := interfaceList + [i];
    }

    /** The listener accepts a connection and greets. */
    method Accept() returns (c: ControlChannel, out: seq<Msg>)
      requires Valid()
      modifies this`ccList
      ensures Valid() && fresh(c) && ccList == old(ccList) + [c]
      ensures c.View() == Channel(None, [], false, true, false) && out == [HelloMsg(appName)]
    {
      c := new ControlChannel(this, null);
      ccList := ccList + [c];
      c.msgQueue := c.msgQueue + [HelloMsg(appName)];
      out := c.SendMsg();
    }

    /** The socket, its interfaces and their channels. */
    ghost function Footprint(): set<object>
      reads this, interfaceList
    {
      {this as object}
      + (set x: Interface | x in interfaceList :: x as object)
      + (set c: ControlChannel | c in ccList :: c as object)
      + (set x: Interface | x in interfaceList && x.cc != null :: x.cc as object)
    }

    lemma FootprintHas()
      requires Valid()
      ensures this in Footprint()
      ensures forall x :: x in interfaceList ==> x in Footprint() && (x.cc != null ==> x.cc in Footprint())
      ensures forall c :: c in ccList ==> c in Footprint() && (c.i != null ==> c.i in Footprint())
    {
    }

    twostate lemma NothingForeign()
      requires forall x :: x in interfaceList ==> x in old(interfaceList) || fresh(x)
      requires forall c :: c in ccList ==> c in old(ccList) || fresh(c)
      requires forall x :: x in interfaceList && x.cc != null ==>
                 fresh(x.cc) || x.cc in old(ccList) || (x in old(interfaceList) && x.cc == old(x.cc))
      ensures fresh(Footprint() - old(Footprint()))
    {
    }

    /** The lists hold what w says. */
    ghost predicate Shows(w: World)
      reads this, interfaceList, ccList
    {
      && w.Ok() && |w.ifaces| == |interfaceList| && |w.lines| == |ccList|
      && (forall k :: 0 <= k < |interfaceList| ==> ShowsInterface(w, k))
      && (forall j :: 0 <= j < |ccList| ==> ShowsLine(w.lines[j], ccList[j]))
    }

    ghost predicate ShowsInterface(w: World, k: nat)
      requires w.Ok() && k < |w.ifaces| && k < |interfaceList|
      reads this, interfaceList
    {
      w.ifaces[k] == interfaceList[k].Value() && (w.held[k] <==> interfaceList[k].cc != null)
    }

    ghost predicate ShowsLine(l: Line, c: ControlChannel)
      reads this, c
    {
      && l.queue == c.msgQueue && l.connected == c.isConnected
      && match l.iface
         case None => c.i == null
         case Some(k) => k < |interfaceList| && c.i == interfaceList[k]
    }

    lemma Distinct()
      requires Valid()
      ensures forall a, b :: 0 <= a < b < |ccList| ==> ccList[a] != ccList[b]
      ensures forall a, b :: 0 <= a < b < |interfaceList| ==> interfaceList[a] != interfaceList[b]
      ensures forall c :: c in ccList ==> c.socket == this && (c.i != null ==> c.i in interfaceList && c.i.cc == c)
      ensures forall x :: x in interfaceList ==>
                x.socket == this && (x.cc != null ==> x.cc.i == x && x.cc.socket == this)
    {
    }

    lemma Shown(w: World)
      ensures Shows(w) <==>
              && w.Ok() && |w.ifaces| == |interfaceList| && |w.lines| == |ccList|
              && (forall k :: 0 <= k < |interfaceList| ==> ShowsInterface(w, k))
              && (forall j :: 0 <= j < |ccList| ==> ShowsLine(w.lines[j], ccList[j]))
    {
    }

    lemma ViewIs(w: World, j: nat)
      requires Valid() && Shows(w) && j < |ccList|
      ensures ccList[j].View() == w.ChannelAt(j)
    {
      assert ShowsLine(w.lines[j], ccList[j]);
      if w.lines[j].iface.Some? {
        assert ShowsInterface(w, w.lines[j].iface.value);
      }
    }

    lemma FirstFreeIs(w: World, id: u32, k: nat)
      requires Valid() && Shows(w) && k <= |interfaceList|
      ensures var x, p := FirstFree(interfaceList[k..], id), w.FirstFreeFrom(id, k);
              if x == null then p == None else p.Some? && interfaceList[p.value] == x
      decreases |interfaceList| - k
    {
      if k < |interfaceList| {
        assert ShowsInterface(w, k);
        assert interfaceList[k..][1..] == interfaceList[k + 1..];
        FirstFreeIs(w, id, k + 1);
      }
    }

    lemma CandidateIs(w: World, id: u32)
      requires Valid() && Shows(w)
      ensures var p := w.FirstFreeFrom(id, 0);
              && Candidate(interfaceList, id) == (if p.Some? then Some(w.ifaces[p.value]) else None)
              && FirstFree(interfaceList, id) == (if p.Some? then interfaceList[p.value] else null)
    {
      assert interfaceList[0..] == interfaceList;
      FirstFreeIs(w, id, 0);
      var p := w.FirstFreeFrom(id, 0);
      if p.Some? {
        assert ShowsInterface(w, p.value);
      }
    }

    lemma HeldIs(c: ControlChannel, ch: Channel)
      requires Valid() && c.i != null && c.i in interfaceList && (c.i.cc == null || c.i.cc == c)
      requires ch.iface == Some(c.i.Value()) && (ch.open <==> c in ccList)
      ensures c.i.cc != null <==> ch.open || !AllMapped(ch.iface.value.regions)
    {
    }

    /** After something happened to the channel at place j of the list as it was, and to its interface. */
    lemma NowShows(w: World, list: seq<ControlChannel>, j: nat, ch: Channel, k: Option<nat>)
      requires Valid() && w.Ok() && |w.ifaces| == |interfaceList| && |w.lines| == |list| && j < |list|
      requires forall a, b :: 0 <= a < b < |list| ==> list[a] != list[b]
      requires k.Some? ==> k.value < |w.ifaces| && ch.iface.Some?
      requires forall x :: 0 <= x < |interfaceList| && Some(x) != k ==> ShowsInterface(w, x)
      requires forall l :: 0 <= l < |list| && l != j ==> ShowsLine(w.lines[l], list[l])
      requires ccList == if ch.open then list else Without(list, list[j])
      requires ch.open ==> ch.queue == list[j].msgQueue && ch.connected == list[j].isConnected
      requires k.None? ==> list[j].i == null
      requires k.Some? ==> var i := list[j].i;
                           && i == interfaceList[k.value] && ch.iface.value == i.Value()
                           && (i.cc == null || i.cc == list[j])
      ensures Shows(w.With(j, ch, k))
    {
      WithoutAt(list, j);
      assert list[j] in list;
      if k.Some? {
        HeldIs(list[j], ch);
      }
      hide Socket.Valid, Interface.Value, AllMapped, Without, World.With, Socket.Shows, ControlChannel.View;
      hide Socket.ShowsLine, Socket.ShowsInterface;
      InterfacesNow(w, j, ch, k);
      LinesNow(w, list, j, ch, k);
      Shown(w.With(j, ch, k));
    }

    lemma InterfacesNow(w: World, j: nat, ch: Channel, k: Option<nat>)
      requires w.Ok() && |w.ifaces| == |interfaceList| && j < |w.lines|
      requires k.Some? ==> k.value < |w.ifaces| && ch.iface == Some(interfaceList[k.value].Value())
      requires k.Some? ==> (interfaceList[k.value].cc != null <==> ch.open || !AllMapped(ch.iface.value.regions))
      requires forall x :: 0 <= x < |interfaceList| && Some(x) != k ==> ShowsInterface(w, x)
      ensures |w.With(j, ch, k).ifaces| == |interfaceList|
      ensures forall x :: 0 <= x < |interfaceList| ==> ShowsInterface(w.With(j, ch, k), x)
    {
      hide Interface.Value, AllMapped;
      forall x | 0 <= x < |interfaceList| ensures ShowsInterface(w.With(j, ch, k), x) {
        if Some(x) != k {
          assert ShowsInterface(w, x);
        }
      }
    }

    lemma LinesNow(w: World, list: seq<ControlChannel>, j: nat, ch: Channel, k: Option<nat>)
      requires w.Ok() && |w.ifaces| == |interfaceList| && |w.lines| == |list| && j < |list|
      requires forall a, b :: 0 <= a < b < |list| ==> list[a] != list[b]
      requires k.Some? ==> k.value < |w.ifaces| && ch.iface.Some? && list[j].i == interfaceList[k.value]
      requires k.None? ==> list[j].i == null
      requires forall l :: 0 <= l < |list| && l != j ==> ShowsLine(w.lines[l], list[l])
      requires ccList == if ch.open then list else Without(list, list[j])
      requires ch.open ==> ch.queue == list[j].msgQueue && ch.connected == list[j].isConnected
      ensures |ccList| == |w.With(j, ch, k).lines|
      ensures forall l :: 0 <= l < |ccList| ==> ShowsLine(w.With(j, ch, k).lines[l], ccList[l])
    {
      hide Without, AllMapped;
      var lines := w.With(j, ch, k).lines;
      WithoutAt(list, j);
      if ch.open {
        forall l | 0 <= l < |ccList| ensures ShowsLine(lines[l], ccList[l]) {
          assert l != j ==> ShowsLine(w.lines[l], list[l]);
        }
      } else {
        ShiftedShow(w.lines, list, j);
      }
    }

    lemma ShiftedShow(lines: seq<Line>, list: seq<ControlChannel>, j: nat)
      requires |lines| == |list| && j < |list|
      requires forall l :: 0 <= l < |list| && l != j ==> ShowsLine(lines[l], list[l])
      ensures var left, rest := lines[..j] + lines[j + 1..], list[..j] + list[j + 1..];
              |left| == |rest| && forall l :: 0 <= l < |rest| ==> ShowsLine(left[l], rest[l])
    {
      hide Socket.ShowsLine;
      var left, rest := lines[..j] + lines[j + 1..], list[..j] + list[j + 1..];
      forall l | 0 <= l < |rest| ensures ShowsLine(left[l], rest[l]) {
        var was := if l < j then l else l + 1;
        assert left[l] == lines[was] && rest[l] == list[was];
      }
    }

    /** The message to the channel at that place; what then holds of it, and of all interfaces. */
    method DeliverTo(channel: nat, m: Msg, text: Bytes96, ghost w: World) returns (panicked: bool, out: seq<Msg>)
      requires Valid() && Shows(w) && channel < |ccList| && (m.Init? ==> ccList[channel].i == null)
      modifies this`ccList, interfaceList, ccList[channel]
      ensures Valid() && interfaceList == old(interfaceList)
      ensures forall x :: x in interfaceList && x.cc != null ==> x.cc == old(x.cc) || x.cc == old(ccList)[channel]
      ensures forall x :: 0 <= x < |interfaceList| && Some(x) != w.PlaceAfter(channel, m) ==> ShowsInterface(w, x)
      ensures panicked == Panics(w.ChannelAt(channel), m)
      ensures panicked ==> out == [] && ccList == old(ccList) && ShowsLine(w.lines[channel], ccList[channel])
                           && w.PlaceAfter(channel, m).None?
      ensures !panicked ==>
                var o, c, k := Receive(appName, w.ChannelAt(channel), m, w.CandidateFor(m), text), old(ccList)[channel],
                               w.PlaceAfter(channel, m);
                && out == o.out && o.ch.queue == c.msgQueue && o.ch.connected == c.isConnected
                && ccList == (if o.ch.open then old(ccList) else Without(old(ccList), c))
                && if k.None? then c.i == null
                   else
                     && c.i == interfaceList[k.value] && o.ch.iface == Some(c.i.Value())
                     && (c.i.cc == null || c.i.cc == c)
    {
      Distinct();
      Shown(w);
      hide Receive, Candidate, FirstFree, Without, World.With, Socket.Valid, Accepts, Socket.Shows;
      var c := ccList[channel];
      assert ShowsLine(w.lines[channel], c);
      ghost var list, k := ccList, w.PlaceAfter(channel, m);
      ViewIs(w, channel);
      if m.Init? { CandidateIs(w, m.id); }
      WithoutAt(list, channel);
      out, panicked := c.HandleMessage(m, text);
      assert if k.Some? then c.i == interfaceList[k.value] else c.i == null;
      forall x | 0 <= x < |interfaceList| && Some(x) != k ensures ShowsInterface(w, x) {
        assert interfaceList[x] in interfaceList && interfaceList[x] != c.i;
        assert old(ShowsInterface(w, x));
      }
      if panicked {
        assert ShowsLine(w.lines[channel], c);
      }
    }

    method Deliver(channel: nat, m: Msg, text: Bytes96, ghost w: World) returns (panicked: bool, out: seq<Msg>)
      requires Valid() && Shows(w) && channel < |ccList| && (m.Init? ==> ccList[channel].i == null)
      modifies this`ccList, interfaceList, ccList[channel]
      ensures Valid() && interfaceList == old(interfaceList)
      ensures forall x :: x in interfaceList && x.cc != null ==> x.cc == old(x.cc) || x.cc == old(ccList)[channel]
      ensures forall x :: 0 <= x < |interfaceList| && Some(x) != w.PlaceAfter(channel, m) ==> ShowsInterface(w, x)
      ensures forall l :: 0 <= l < |old(ccList)| && l != channel ==> ShowsLine(w.lines[l], old(ccList)[l])
      ensures panicked == Panics(w.ChannelAt(channel), m)
      ensures panicked ==> out == [] && ccList == old(ccList) && ShowsLine(w.lines[channel], ccList[channel])
                           && w.PlaceAfter(channel, m).None?
      ensures !panicked ==>
                var o, c, k := Receive(appName, w.ChannelAt(channel), m, w.CandidateFor(m), text), old(ccList)[channel],
                               w.PlaceAfter(channel, m);
                && out == o.out && o.ch.queue == c.msgQueue && o.ch.connected == c.isConnected
                && ccList == (if o.ch.open then old(ccList) else Without(old(ccList), c))
                && if k.None? then c.i == null
                   else
                     && c.i == interfaceList[k.value] && o.ch.iface == Some(c.i.Value())
                     && (c.i.cc == null || c.i.cc == c)
    {
      Distinct();
      Shown(w);
      hide Receive, Without, Socket.Valid, Accepts, World.PlaceAfter, World.CandidateFor, Panics, Socket.Shows;
      hide Socket.ShowsInterface, ControlChannel.View, Interface.Value, World.ChannelAt;
      ghost var list := ccList;
      panicked, out := DeliverTo(channel, m, text, w);
      forall l | 0 <= l < |list| && l != channel ensures ShowsLine(w.lines[l], list[l]) {
        assert old(ShowsLine(w.lines[l], ccList[l]));
      }
    }

    method HandleReceived(channel: nat, m: Msg, text: Bytes96, ghost w: World) returns (panicked: bool, out: seq<Msg>)
      requires Valid() && Shows(w)
      modifies this`ccList, interfaceList, ccList
      ensures Valid() && interfaceList == old(interfaceList) && forall c :: c in ccList ==> c in old(ccList)
      ensures forall x :: x in interfaceList && x.cc != null ==> x.cc == old(x.cc) || x.cc in old(ccList)
      ensures var a := AfterMessage(appName, w, channel, m, text);
              Shows(a.world) && out == a.out && panicked == a.panicked
    {
      Distinct();
      Shown(w);
      hide Receive, Without, World.With, Socket.Valid, Accepts, World.PlaceAfter, World.CandidateFor;
      hide Panics, Socket.Shows, Socket.ShowsInterface, ControlChannel.View, Interface.Value, World.ChannelAt;
      hide AfterMessage;
      panicked, out := false, [];
      if channel >= |ccList| {
        PassedOver(appName, w, channel, m, text);
        return;
      }
      assert ShowsLine(w.lines[channel], ccList[channel]);
      if m.Init? && ccList[channel].i != null {
        PassedOver(appName, w, channel, m, text);
        return;
      }
      NotPassedOver(appName, w, channel, m, text);
      hide Socket.ShowsLine;
      ghost var list, k := ccList, w.PlaceAfter(channel, m);
      panicked, out := Deliver(channel, m, text, w);
      if !panicked {
        var ch := Receive(appName, w.ChannelAt(channel), m, w.CandidateFor(m), text).ch;
        NowShows(w, list, channel, ch, k);
      } else {
        Shown(w);
      }
    }

    /** The channel at that place is gone; what then holds of it, its interface, and the others. */
    method Drop(channel: nat, ghost w: World) returns (panicked: bool)
      requires Valid() && Shows(w) && channel < |ccList|
      modifies this`ccList, interfaceList, ccList[channel]
      ensures Valid() && interfaceList == old(interfaceList)
      ensures forall x :: x in interfaceList && x.cc != null ==> x.cc == old(x.cc) || x.cc == old(ccList)[channel]
      ensures forall x :: 0 <= x < |interfaceList| && Some(x) != w.lines[channel].iface ==> ShowsInterface(w, x)
      ensures var c, ch, k := old(ccList)[channel], HungUp(w.ChannelAt(channel)), w.lines[channel].iface;
              && panicked == ch.panicked && !ch.open && ccList == Without(old(ccList), c)
              && if k.None? then c.i == null
                 else
                   && c.i == interfaceList[k.value] && ch.iface == Some(c.i.Value())
                   && (c.i.cc == null || c.i.cc == c)
    {
      Distinct();
      Shown(w);
      hide Without, World.With, Socket.Valid, Disconnected, AllMapped, Socket.Shows;
      var c := ccList[channel];
      assert ShowsLine(w.lines[channel], c);
      ViewIs(w, channel);
      panicked := c.HandleHangUp();
      forall x | 0 <= x < |interfaceList| && Some(x) != w.lines[channel].iface ensures ShowsInterface(w, x) {
        assert interfaceList[x] in interfaceList && interfaceList[x] != c.i;
        assert old(ShowsInterface(w, x));
      }
    }

    method HandleHungUp(channel: nat, ghost w: World) returns (panicked: bool)
      requires Valid() && Shows(w)
      modifies this`ccList, interfaceList, ccList
      ensures Valid() && interfaceList == old(interfaceList) && forall c :: c in ccList ==> c in old(ccList)
      ensures forall x :: x in interfaceList && x.cc != null ==> x.cc == old(x.cc) || x.cc in old(ccList)
      ensures var a := AfterPolled(appName, w, HangsUp(channel));
              Shows(a.world) && a.out == [] && panicked == a.panicked
    {
      Distinct();
      Shown(w);
      hide Without, World.With, Socket.Valid, HungUp, Socket.Shows, ControlChannel.View, Interface.Value;
      hide World.ChannelAt, AfterMessage;
      panicked := false;
      if channel >= |ccList| {
        return;
      }
      ghost var list, k := ccList, w.lines[channel].iface;
      panicked := Drop(channel, w);
      forall l | 0 <= l < |list| && l != channel ensures ShowsLine(w.lines[l], list[l]) {
        assert old(ShowsLine(w.lines[l], ccList[l]));
      }
      NowShows(w, list, channel, HungUp(w.ChannelAt(channel)), k);
    }

    lemma LineIs(w: World, k: nat)
      requires Valid() && Shows(w) && k < |interfaceList|
      ensures var j, c := w.LineFrom(k, 0), interfaceList[k].cc;
              if j.Some? then c == ccList[j.value] else !(c in ccList)
    {
      var j, c := w.LineFrom(k, 0), interfaceList[k].cc;
      forall l | 0 <= l < |ccList| ensures ccList[l] == c <==> w.lines[l].iface == Some(k) {
        assert ShowsLine(w.lines[l], ccList[l]);
      }
    }

    method AskDisconnect(which: nat, text: Bytes96, ghost w: World) returns (out: seq<Msg>)
      requires Valid() && Shows(w)
      modifies this`ccList, interfaceList, set x | x in interfaceList :: x.cc
      ensures Valid() && interfaceList == old(interfaceList) && forall c :: c in ccList ==> c in old(ccList)
      ensures forall x :: x in interfaceList && x.cc != null ==> x.cc == old(x.cc) || x.cc in old(ccList)
      ensures var a := AfterDisconnect(w, which, text);
              Shows(a.world) && out == a.out
    {
      Distinct();
      Shown(w);
      hide Without, World.With, Socket.Valid, Disconnected, Socket.Shows;
      out := [];
      if which >= |interfaceList| {
        return;
      }
      var i := interfaceList[which];
      ghost var list, c, j := ccList, i.cc, w.LineFrom(which, 0);
      assert ShowsInterface(w, which);
      LineIs(w, which);
      out := i.UserDisconnect(text);
      forall l | 0 <= l < |list| && Some(l) != j ensures ShowsLine(w.lines[l], list[l]) {
        assert old(ShowsLine(w.lines[l], ccList[l]));
      }
      forall x | 0 <= x < |interfaceList| && x != which ensures ShowsInterface(w, x) {
        assert interfaceList[x] in interfaceList && interfaceList[x] != i;
        assert old(ShowsInterface(w, x));
      }
      if j.Some? {
        NowShows(w, list, j.value, Closed(w.ChannelAt(j.value)), Some(which));
      } else {
        if c != null { WithoutAbsent(list, c); }
        assert ShowsInterface(w, which);
        Shown(w);
      }
    }

    method AskCreate(args: Args, ghost w: World)
      requires Valid() && Shows(w)
      modifies this`interfaceList
      ensures Valid() && ccList == old(ccList) && old(interfaceList) <= interfaceList
      ensures forall x :: x in interfaceList ==> x in old(interfaceList) || (fresh(x) && x.cc == null)
      ensures var a := After(appName, w, Create(args));
              Shows(a.world) && a.out == [] && !a.panicked
    {
      Shown(w);
      hide WithDefaults, Socket.Shows, Socket.Valid, AfterPolled, AfterDisconnect, SameKey;
      forall k | 0 <= k < |interfaceList| ensures w.ifaces[k].args == interfaceList[k].args {
        assert ShowsInterface(w, k);
      }
      assert (exists x :: x in interfaceList && x.args.id == args.id && x.args.isMaster == args.isMaster)
        <==> (exists i :: i in w.ifaces && i.args.id == args.id && i.args.isMaster == args.isMaster) by {
        KeysAgree(w, args);
      }
      ghost var list := interfaceList;
      var i := NewInterface(args);
      ghost var v := After(appName, w, Create(args)).world;
      forall k | 0 <= k < |interfaceList| ensures ShowsInterface(v, k) {
        if k < |list| { assert old(ShowsInterface(w, k)); }
      }
      forall j | 0 <= j < |ccList| ensures ShowsLine(v.lines[j], ccList[j]) {
        assert old(ShowsLine(w.lines[j], ccList[j]));
      }
      Shown(v);
    }

    lemma KeysAgree(w: World, args: Args)
      requires |w.ifaces| == |interfaceList|
      requires forall k :: 0 <= k < |interfaceList| ==> w.ifaces[k].args == interfaceList[k].args
      ensures (exists x :: x in interfaceList && x.args.id == args.id && x.args.isMaster == args.isMaster)
         <==> (exists i :: i in w.ifaces && i.args.id == args.id && i.args.isMaster == args.isMaster)
    {
      if x :| x in interfaceList && x.args.id == args.id && x.args.isMaster == args.isMaster {
        var k :| 0 <= k < |interfaceList| && interfaceList[k] == x;
        assert w.ifaces[k] in w.ifaces;
      }
      if i :| i in w.ifaces && i.args.id == args.id && i.args.isMaster == args.isMaster {
        var k :| 0 <= k < |w.ifaces| && w.ifaces[k] == i;
        assert interfaceList[k] in interfaceList;
      }
    }

    /** A request of an interface that has a listed channel is passed over. */
    method AskRequest(which: nat, ghost w: World)
      requires Valid() && Shows(w)
      modifies this`ccList, interfaceList
      ensures Valid() && interfaceList == old(interfaceList)
      ensures forall c :: c in ccList ==> c in old(ccList) || fresh(c)
      ensures forall x :: x in interfaceList && x.cc != null ==> x.cc == old(x.cc) || fresh(x.cc)
      ensures var a := After(appName, w, Request(which));
              Shows(a.world) && a.out == [] && !a.panicked
    {
      if which >= |interfaceList| {
        return;
      }
      var i := interfaceList[which];
      assert ShowsInterface(w, which);
      LineIs(w, which);
      if i.cc in ccList {
        return;
      }
      Distinct();
      Shown(w);
      hide Socket.Valid, Socket.Shows, AfterPolled, AfterDisconnect, World.LineFrom;
      ghost var list := ccList;
      var ok := i.RequestConnection();
      ghost var v := After(appName, w, Request(which)).world;
      forall k | 0 <= k < |interfaceList| ensures ShowsInterface(v, k) {
        assert old(ShowsInterface(w, k));
      }
      forall j | 0 <= j < |ccList| ensures ShowsLine(v.lines[j], ccList[j]) {
        if j < |list| { assert old(ShowsLine(w.lines[j], ccList[j])); }
      }
      Shown(v);
    }

    method HandleIncoming(ghost w: World) returns (out: seq<Msg>)
      requires Valid() && Shows(w)
      modifies this`ccList
      ensures Valid() && forall c :: c in ccList ==> c in old(ccList) || fresh(c)
      ensures var a := AfterPolled(appName, w, Incoming);
              Shows(a.world) && out == a.out && !a.panicked
    {
      ghost var list := ccList;
      var c;
      c, out := Accept();
      ghost var v := AfterPolled(appName, w, Incoming).world;
      forall k | 0 <= k < |interfaceList| ensures ShowsInterface(v, k) {
        assert old(ShowsInterface(w, k));
      }
      forall j | 0 <= j < |ccList| ensures ShowsLine(v.lines[j], ccList[j]) {
        if j < |list| { assert old(ShowsLine(w.lines[j], ccList[j])); }
      }
    }

    /** What polling finds has the effect that AfterPolled says, on the channel that it names. */
    method HandleEvent(e: Polled, ghost w: World) returns (panicked: bool, out: seq<Msg>)
      requires Valid() && Shows(w)
      modifies Footprint()
      ensures Valid() && fresh(Footprint() - old(Footprint()))
      ensures var a := AfterPolled(appName, w, e);
              Shows(a.world) && out == a.out && panicked == a.panicked
    {
      FootprintHas();
      hide Socket.Valid, Socket.Shows, AfterMessage;
      panicked, out := false, [];
      match e {
        case Incoming => out := HandleIncoming(w);
        case Received(channel, m, text) => panicked, out := HandleReceived(channel, m, text, w);
        case HangsUp(channel) => panicked := HandleHungUp(channel, w);
      }
      NothingForeign();
    }

    /** One event has the effect that After says. */
    method Meet(e: Event, ghost w: World) returns (panicked: bool, out: seq<Msg>)
      requires Valid() && Shows(w)
      modifies Footprint()
      ensures Valid() && fresh(Footprint() - old(Footprint()))
      ensures var a := After(appName, w, e);
              Shows(a.world) && out == a.out && panicked == a.panicked
    {
      FootprintHas();
      hide Socket.Valid, Socket.Shows, AfterPolled, AfterDisconnect, WithDefaults;
      panicked, out := false, [];
      match e {
        case Create(args) => AskCreate(args, w);
        case Request(which) => AskRequest(which, w);
        case UserDisconnects(which, text) => out := AskDisconnect(which, text, w);
        case Found(what) =>
          panicked, out := HandleEvent(what, w);
          return;
      }
      NothingForeign();
    }

    /** Any sequence of events has the effects that AfterAll says, one after another, until a panic ends it;
        and all along the socket stays valid: in particular (Id, role) pairs stay unique, and no two listed
        channels have the same interface. */
    method Serve(events: seq<Event>, ghost w: World) returns (panicked: bool, outs: seq<seq<Msg>>)
      requires Valid() && Shows(w)
      modifies Footprint()
      ensures Valid() && fresh(Footprint() - old(Footprint()))
      ensures var (v, said, died) := AfterAll(appName, w, events);
              Shows(v) && outs == said && panicked == died
      ensures forall x, y :: x in interfaceList && y in interfaceList && x.args.id == y.args.id ==>
                               x.args.isMaster == y.args.isMaster ==> x == y
      ensures forall c, d :: c in ccList && d in ccList && c.i != null && c.i == d.i ==> c == d
    {
      Shown(w);
      hide Socket.Valid, Socket.Shows, After, AfterAll, Leads;
      panicked, outs := false, [];
      ghost var v := w;
      LeadsFromTo(appName, w, events, w, []);
      for k := 0 to |events|
        invariant Valid() && fresh(Footprint() - old(Footprint())) && Shows(v) && v.Ok()
        invariant !panicked && Leads(appName, w, events, k, v, outs)
      {
        LeadsOn(appName, w, events, k, v, outs);
        ghost var a := After(appName, v, events[k]);
        var out;
        panicked, out := Meet(events[k], v);
        outs := outs + [out];
        v := a.world;
        if panicked {
          break;
        }
      }
      LeadsFromTo(appName, w, events, v, outs);
      ExclusiveBinding(this);
    }
  }

  lemma ExclusiveBinding(s: Socket)
    requires s.Valid()
    ensures forall c, d :: c in s.ccList && d in s.ccList && c.i != null && c.i == d.i ==> c == d
    ensures forall x, y :: x in s.interfaceList && y in s.interfaceList && x.args.id == y.args.id ==>
                             x.args.isMaster == y.args.isMaster ==> x == y
  {
  }

  /** The interface that an Init is given is the first in the list that is a master with the id asked for and
      has no channel, and it is idle; and there is none exactly if there is no such interface. */
  lemma CandidateIsIdle(s: Socket, id: u32)
    requires s.Valid()
    ensures var x, list := FirstFree(s.interfaceList, id), s.interfaceList;
            if x == null then
              && Candidate(list, id) == None
              && forall y :: y in list ==> !(y.args.id == id && y.args.isMaster && y.cc == null)
            else
              && Candidate(list, id) == Some(x.Value()) && x.args.id == id && x.args.isMaster && x.cc == null
              && x.Value() == Iface(x.args, x.run, [], [], [], [], [])
              && exists k :: 0 <= k < |list| && list[k] == x
                   && forall j :: 0 <= j < k ==> !(list[j].args.id == id && list[j].args.isMaster && list[j].cc == null)
  {
    FirstOf(s.interfaceList, id);
  }

  lemma {:induction false} FirstOf(list: seq<Interface>, id: u32)
    ensures var x := FirstFree(list, id);
            if x == null then forall y :: y in list ==> !IsFree(y, id)
            else
              && IsFree(x, id)
              && exists k :: 0 <= k < |list| && list[k] == x && forall j :: 0 <= j < k ==> !IsFree(list[j], id)
  {
    if list != [] && !IsFree(list[0], id) {
      FirstOf(list[1..], id);
      var x := FirstFree(list[1..], id);
      if x != null {
        var k :| 0 <= k < |list[1..]| && list[1..][k] == x && forall j :: 0 <= j < k ==> !IsFree(list[1..][j], id);
        assert list[k + 1] == x;
        forall j | 0 <= j < k + 1 ensures !IsFree(list[j], id) {
          if j > 0 { assert list[j] == list[1..][j - 1]; }
        }
      }
    }
  }
}
