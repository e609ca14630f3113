/** The control messages and their 128-byte little-endian frames. */
module Messages {
  import opened Bits
  import opened Memory

  const MSG_SIZE: nat := 128
  const VERSION: u16 := 0x200
  const FLAG_S2M: u16 := 1

  type Bytes24 = b: seq<u8> | |b| == 24 witness Zeros(24)
  type Bytes32 = b: seq<u8> | |b| == 32 witness Zeros(32)
  type Bytes96 = b: seq<u8> | |b| == 96 witness Zeros(96)

  function Zeros(n: nat): (z: seq<u8>)
    ensures |z| == n && forall k :: 0 <= k < n ==> z[k] == 0
  {
    seq(n, _ => 0)
  }

  datatype Msg =
    | Ack
    | Hello(name: Bytes32, versionMin: u16, versionMax: u16,
            maxRegion: u16, maxRingM2S: u16, maxRingS2M: u16, maxLog2RingSize: u8)
    | Init(version: u16, id: u32, mode: u8, secret: Bytes24, name: Bytes32)
    | AddRegion(index: u16, size: u64)
    | AddRing(flags: u16, index: u16, region: u16, offset: u32, ringSizeLog2: u8, privateHdrSize: u16)
    | Connect(name: Bytes32)
    | Connected(name: Bytes32)
    | Disconnect(code: u32, text: Bytes96)

  /** msgType, in the order of the iota constants */
  function Type(m: Msg): u16 {
    match m
    case Ack => 1
    case Hello(_, _, _, _, _, _, _) => 2
    case Init(_, _, _, _, _) => 3
    case AddRegion(_, _) => 4
    case AddRing(_, _, _, _, _, _) => 5
    case Connect(_) => 6
    case Connected(_) => 7
    case Disconnect(_, _) => 8
  }

  function Le64(v: u64): (r: seq<u8>)
    ensures |r| == 8
  {
    Le32(v % 0x1_0000_0000) + Le32(v / 0x1_0000_0000)
  }

  function Un64(m: seq<u8>, at: nat): u64
    requires at + 8 <= |m|
  {
    var lo: int, hi: int := Un32(m, at), Un32(m, at + 4);
    lo + 0x1_0000_0000 * hi
  }

  /** binary.Write of the type and then of the struct: the fields in order, packed. */
  function Encode(m: Msg): (r: seq<u8>)
    ensures 2 <= |r| <= MSG_SIZE
  {
    Le16(Type(m)) +
    match m
    case Ack => []
    case Hello(name, vmin, vmax, region, m2s, s2m, log2) =>
      name + Le16(vmin) + Le16(vmax) + Le16(region) + Le16(m2s) + Le16(s2m) + [log2]
    case Init(version, id, mode, secret, name) => Le16(version) + Le32(id) + [mode] + secret + name
    case AddRegion(index, size) => Le16(index) + Le64(size)
    case AddRing(flags, index, region, offset, log2, hdr) =>
      Le16(flags) + Le16(index) + Le16(region) + Le32(offset) + [log2] + Le16(hdr)
    case Connect(name) => name
    case Connected(name) => name
    case Disconnect(code, text) => Le32(code) + text
  }

  datatype Parsed = Known(msg: Msg) | Unknown(msgType: u16)

  /** What binary.Read makes of a received frame; whatever follows the struct is ignored. */
  function Parse(f: seq<u8>): Parsed
    requires |f| == MSG_SIZE
  {
    var t := Un16(f, 0);
    if t == 1 then Known(Ack)
    else if t == 2 then
      Known(Hello(f[2..34], Un16(f, 34), Un16(f, 36), Un16(f, 38), Un16(f, 40), Un16(f, 42), f[44]))
    else if t == 3 then Known(Init(Un16(f, 2), Un32(f, 4), f[8], f[9..33], f[33..65]))
    else if t == 4 then Known(AddRegion(Un16(f, 2), Un64(f, 4)))
    else if t == 5 then
      Known(AddRing(Un16(f, 2), Un16(f, 4), Un16(f, 6), Un32(f, 8), f[12], Un16(f, 13)))
    else if t == 6 then Known(Connect(f[2..34]))
    else if t == 7 then Known(Connected(f[2..34]))
    else if t == 8 then Known(Disconnect(Un32(f, 2), f[6..102]))
    else Unknown(t)
  }

  /** The frame sendMsg hands to the kernel: 128 bytes from the start of the encoding, whatever
      memory follows it included. */
  function Frame(m: Msg, beyond: seq<u8>): (f: seq<u8>)
    ensures |f| == MSG_SIZE && Encode(m) <= f
  {
    var rest := MSG_SIZE - |Encode(m)|;
    Encode(m) + if |beyond| >= rest then beyond[..rest] else beyond + Zeros(rest - |beyond|)
  }

  // ------------------------------------------------------------ round trip

  lemma Part(a: seq<u8>, f: seq<u8>, from: nat, to: nat)
    requires a <= f && from <= to <= |a|
    ensures f[from..to] == a[from..to]
  {
  }

  lemma Field16(e: seq<u8>, f: seq<u8>, at: nat, v: u16)
    requires e <= f && at + 2 <= |e| && e[at..at + 2] == Le16(v)
    ensures Un16(f, at) == v
  {
    Part(e, f, at, at + 2);
    Le16At(f, at, v);
  }

  lemma Field32(e: seq<u8>, f: seq<u8>, at: nat, v: u32)
    requires e <= f && at + 4 <= |e| && e[at..at + 4] == Le32(v)
    ensures Un32(f, at) == v
  {
    Part(e, f, at, at + 4);
    Le32At(f, at, v);
  }

  lemma Field64(e: seq<u8>, f: seq<u8>, at: nat, v: u64)
    requires e <= f && at + 8 <= |e| && e[at..at + 8] == Le64(v)
    ensures Un64(f, at) == v
  {
    assert e[at..at + 4] == e[at..at + 8][..4] == Le32(v % 0x1_0000_0000);
    assert e[at + 4..at + 8] == e[at..at + 8][4..] == Le32(v / 0x1_0000_0000);
    Field32(e, f, at, v % 0x1_0000_0000);
    Field32(e, f, at + 4, v / 0x1_0000_0000);
  }

  /** Parsing a frame that starts with the encoding of a message gives that message back, whatever
      the padding; and nothing else starts a frame that parses to it, but for an Ack. */
  lemma RoundTrip(m: Msg, f: seq<u8>)
    requires |f| == MSG_SIZE && Encode(m) <= f
    ensures Parse(f) == Known(m)
  {
    var e := Encode(m);
    assert e[0..2] == Le16(Type(m));
    Field16(e, f, 0, Type(m));
    match m
    case Ack =>
    case Hello(name, vmin, vmax, region, m2s, s2m, log2) => HelloRoundTrip(m, f);
    case Init(version, id, mode, secret, name) => InitRoundTrip(m, f);
    case AddRegion(index, size) =>
      assert e[2..4] == Le16(index) && e[4..12] == Le64(size);
      Field16(e, f, 2, index);
      Field64(e, f, 4, size);
    case AddRing(flags, index, region, offset, log2, hdr) => AddRingRoundTrip(m, f);
    case Connect(name) => Part(e, f, 2, 34);
    case Connected(name) => Part(e, f, 2, 34);
    case Disconnect(code, text) =>
      assert e[2..6] == Le32(code) && e[6..102] == text;
      Field32(e, f, 2, code);
      Part(e, f, 6, 102);
  }

  lemma HelloRoundTrip(m: Msg, f: seq<u8>)
    requires |f| == MSG_SIZE && Encode(m) <= f && m.Hello?
    ensures Parse(f) == Known(m)
  {
    hide Le16, Le32, Un16, Un32;
    var e := Encode(m);
    assert e[0..2] == Le16(2) && e[2..34] == m.name;
    assert e[34..36] == Le16(m.versionMin) && e[36..38] == Le16(m.versionMax);
    assert e[38..40] == Le16(m.maxRegion) && e[40..42] == Le16(m.maxRingM2S) && e[42..44] == Le16(m.maxRingS2M);
    assert e[44] == m.maxLog2RingSize;
    Field16(e, f, 0, 2);
    Part(e, f, 2, 34);
    Field16(e, f, 34, m.versionMin);
    Field16(e, f, 36, m.versionMax);
    Field16(e, f, 38, m.maxRegion);
    Field16(e, f, 40, m.maxRingM2S);
    Field16(e, f, 42, m.maxRingS2M);
  }

  lemma InitRoundTrip(m: Msg, f: seq<u8>)
    requires |f| == MSG_SIZE && Encode(m) <= f && m.Init?
    ensures Parse(f) == Known(m)
  {
    var e := Encode(m);
    assert e[0..2] == Le16(3) && e[2..4] == Le16(m.version) && e[4..8] == Le32(m.id) && e[8] == m.mode;
    assert e[9..33] == m.secret && e[33..65] == m.name;
    Field16(e, f, 0, 3);
    Field16(e, f, 2, m.version);
    Field32(e, f, 4, m.id);
    Part(e, f, 9, 33);
    Part(e, f, 33, 65);
  }

  lemma AddRingRoundTrip(m: Msg, f: seq<u8>)
    requires |f| == MSG_SIZE && Encode(m) <= f && m.AddRing?
    ensures Parse(f) == Known(m)
  {
    var e := Encode(m);
    assert e[0..2] == Le16(5) && e[2..4] == Le16(m.flags) && e[4..6] == Le16(m.index) && e[6..8] == Le16(m.region);
    assert e[8..12] == Le32(m.offset) && e[12] == m.ringSizeLog2 && e[13..15] == Le16(m.privateHdrSize);
    Field16(e, f, 0, 5);
    Field16(e, f, 2, m.flags);
    Field16(e, f, 4, m.index);
    Field16(e, f, 6, m.region);
    Field32(e, f, 8, m.offset);
    Field16(e, f, 13, m.privateHdrSize);
  }

  lemma QuadWordIs(f: seq<u8>, at: nat)
    requires at + 8 <= |f|
    ensures Number(f, at, 8) == Un64(f, at)
  {
    DoubleWordIs(f, at);
    DoubleWordIs(f, at + 4);
    assert Number(f, at + 1, 7) == f[at + 1] + 0x100 * Number(f, at + 2, 6);
    assert Number(f, at + 2, 6) == f[at + 2] + 0x100 * Number(f, at + 3, 5);
    assert Number(f, at + 3, 5) == f[at + 3] + 0x100 * Number(f, at + 4, 4);
    assert Number(f, at + 1, 3) == f[at + 1] + 0x100 * Number(f, at + 2, 2);
    assert Number(f, at + 2, 2) == f[at + 2] + 0x100 * Number(f, at + 3, 1);
  }

  /** The wire format, byte by byte: the type in the first two bytes, then the struct's fields in the order
      of their declaration, packed and little-endian. */
  lemma WireFormat(m: Msg, f: seq<u8>)
    requires |f| == MSG_SIZE && Encode(m) <= f
    ensures match m
            case Ack => Number(f, 0, 2) == 1
            case Hello(name, vmin, vmax, region, m2s, s2m, log2) =>
              && Number(f, 0, 2) == 2 && f[2..34] == name
              && Number(f, 34, 2) == vmin && Number(f, 36, 2) == vmax && Number(f, 38, 2) == region
              && Number(f, 40, 2) == m2s && Number(f, 42, 2) == s2m && f[44] == log2
            case Init(version, id, mode, secret, name) =>
              && Number(f, 0, 2) == 3 && Number(f, 2, 2) == version && Number(f, 4, 4) == id
              && f[8] == mode && f[9..33] == secret && f[33..65] == name
            case AddRegion(index, size) =>
              Number(f, 0, 2) == 4 && Number(f, 2, 2) == index && Number(f, 4, 8) == size
            case AddRing(flags, index, region, offset, log2, hdr) =>
              && Number(f, 0, 2) == 5 && Number(f, 2, 2) == flags && Number(f, 4, 2) == index
              && Number(f, 6, 2) == region && Number(f, 8, 4) == offset && f[12] == log2 && Number(f, 13, 2) == hdr
            case Connect(name) => Number(f, 0, 2) == 6 && f[2..34] == name
            case Connected(name) => Number(f, 0, 2) == 7 && f[2..34] == name
            case Disconnect(code, text) => Number(f, 0, 2) == 8 && Number(f, 2, 4) == code && f[6..102] == text
  {
    hide Encode, Number, Un16, Un32, Un64;
    RoundTrip(m, f);
    WordIs(f, 0);
    WordIs(f, 2);
    WordIs(f, 4);
    WordIs(f, 6);
    WordIs(f, 13);
    forall at | at in {34, 36, 38, 40, 42} ensures Number(f, at, 2) == Un16(f, at) {
      WordIs(f, at);
    }
    DoubleWordIs(f, 2);
    DoubleWordIs(f, 4);
    DoubleWordIs(f, 8);
    QuadWordIs(f, 4);
  }

  /** So the encoding is unambiguous: no frame carries two messages. */
  lemma FrameCarriesOneMessage(m: Msg, m': Msg, f: seq<u8>)
    requires |f| == MSG_SIZE && Encode(m) <= f && Encode(m') <= f
    ensures m == m'
  {
    RoundTrip(m, f);
    RoundTrip(m', f);
  }

  /** Conversely, a frame that parses to a message starts with that message's encoding. */
  lemma ParsedIsEncoded(f: seq<u8>)
    requires |f| == MSG_SIZE && Parse(f).Known?
    ensures Encode(Parse(f).msg) <= f
  {
    hide Le16, Le32, Le64, Un16, Un32, Un64;
    Bytes16(f, 0);
    match Parse(f).msg
    case Ack =>
    case Hello(_, _, _, _, _, _, _) =>
      HelloIsEncoded(f);
    case Init(_, _, _, _, _) =>
      Bytes16(f, 2); Bytes32At(f, 4);
      assert f[..65] == f[0..2] + (f[2..4] + f[4..8] + [f[8]] + f[9..33] + f[33..65]);
    case AddRegion(_, _) =>
      Bytes16(f, 2); Bytes64At(f, 4);
      assert f[..12] == f[0..2] + (f[2..4] + f[4..12]);
    case AddRing(_, _, _, _, _, _) =>
      AddRingIsEncoded(f);
    case Connect(_) => assert f[..34] == f[0..2] + f[2..34];
    case Connected(_) => assert f[..34] == f[0..2] + f[2..34];
    case Disconnect(_, _) =>
      Bytes32At(f, 2);
      assert f[..102] == f[0..2] + (f[2..6] + f[6..102]);
  }

  lemma HelloIsEncoded(f: seq<u8>)
    requires |f| == MSG_SIZE && Parse(f).Known? && Parse(f).msg.Hello?
    ensures Encode(Parse(f).msg) <= f
  {
    hide Le16, Le32, Le64, Un16, Un32, Un64;
    Bytes16(f, 0);
    Bytes16(f, 34); Bytes16(f, 36); Bytes16(f, 38); Bytes16(f, 40); Bytes16(f, 42);
    assert f[..45] == f[0..2] + (f[2..34] + f[34..36] + f[36..38] + f[38..40] + f[40..42] + f[42..44] + [f[44]]);
  }

  lemma AddRingIsEncoded(f: seq<u8>)
    requires |f| == MSG_SIZE && Parse(f).Known? && Parse(f).msg.AddRing?
    ensures Encode(Parse(f).msg) <= f
  {
    hide Le16, Le32, Le64, Un16, Un32, Un64;
    Bytes16(f, 0);
    Bytes16(f, 2); Bytes16(f, 4); Bytes16(f, 6); Bytes32At(f, 8); Bytes16(f, 13);
    assert f[..15] == f[0..2] + (f[2..4] + f[4..6] + f[6..8] + f[8..12] + [f[12]] + f[13..15]);
  }

  lemma Bytes16(f: seq<u8>, at: nat)
    requires at + 2 <= |f|
    ensures Le16(Un16(f, at)) == f[at..at + 2]
  {
  }

  lemma Bytes32At(f: seq<u8>, at: nat)
    requires at + 4 <= |f|
    ensures Le32(Un32(f, at)) == f[at..at + 4]
  {
    hide Le16, Un16;
    Bytes16(f, at);
    Bytes16(f, at + 2);
    assert f[at..at + 4] == f[at..at + 2] + f[at + 2..at + 4];
  }

  lemma Bytes64At(f: seq<u8>, at: nat)
    requires at + 8 <= |f|
    ensures Le64(Un64(f, at)) == f[at..at + 8]
  {
    hide Le32, Un32;
    Bytes32At(f, at);
    Bytes32At(f, at + 4);
    assert f[at..at + 8] == f[at..at + 4] + f[at + 4..at + 8];
  }
}
