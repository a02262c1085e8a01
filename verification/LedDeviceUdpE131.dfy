/** E1.31 (streaming ACN) output: one datagram per 512 colour bytes. */
module E131 {
  import opened Colors
  import opened Sequences
  import opened Octets
  import opened Chunking

  const DMX_MAX := 512

  type Word = x: int | 0 <= x < 0x1_0000

  /// A component identifier, a UUID of 16 octets.
  type Cid = s: seq<byte> | |s| == 16 witness Zeros(16)

  /// The packed packet structure; multi-byte fields are stored in network order.
  datatype Packet = Packet(
    preambleSize: Word, postambleSize: Word, acnId: seq<byte>, rootFlength: Word, rootVector: nat, cid: Cid,
    frameFlength: Word, frameVector: nat, sourceName: seq<byte>, priority: byte, reserved: Word, sequenceNumber: byte,
    options: byte, universe: Word,
    dmpFlength: Word, dmpVector: byte, addressType: byte, firstAddress: Word, addressIncrement: Word,
    propertyValueCount: Word, propertyValues: seq<byte>)
  {
    ghost predicate Valid() { |acnId| == 12 && |sourceName| == 64 && |propertyValues| == 513 }

    /// The packet's 638 octets: three layers, then the property values.
    function Raw(): seq<byte>
      requires Valid()
    {
      RootOctets() + FrameOctets() + DmpOctets() + propertyValues
    }

    function RootOctets(): (r: seq<byte>)
      requires Valid()
      ensures |r| == 38
    {
      ToBigEndian(preambleSize, 2) + ToBigEndian(postambleSize, 2) + acnId
      + ToBigEndian(rootFlength, 2) + ToBigEndian(rootVector, 4) + cid
    }

    function FrameOctets(): (r: seq<byte>)
      requires Valid()
      ensures |r| == 77
    {
      ToBigEndian(frameFlength, 2) + ToBigEndian(frameVector, 4) + sourceName + [priority]
      + ToBigEndian(reserved, 2) + [sequenceNumber]
      + [options] + ToBigEndian(universe, 2)
    }

    function DmpOctets(): (r: seq<byte>)
      ensures |r| == 10
    {
      ToBigEndian(dmpFlength, 2) + [dmpVector] + [addressType] + ToBigEndian(firstAddress, 2)
      + ToBigEndian(addressIncrement, 2)
      + ToBigEndian(propertyValueCount, 2)
    }
  }

  function At16(d: seq<byte>, i: nat): nat
    requires i + 1 < |d|
  {
    BigEndian(d[i..i + 2])
  }

  const ACN_ID: seq<byte> := [0x41, 0x53, 0x43, 0x2d, 0x45, 0x31, 0x2e, 0x31, 0x37, 0, 0, 0]

  /// Up to 63 characters of the name, then zeros (snprintf into the cleared field).
  function NameField(name: seq<byte>): (r: seq<byte>)
    ensures |r| == 64
  {
    if |name| <= 63 then name + Zeros(64 - |name|) else name[..63] + [0]
  }

  /// A packet with all octets zero.
  function Cleared(): Packet {
    Packet(0, 0, Zeros(12), 0, 0, Zeros(16), 0, 0, Zeros(64), 0, 0, 0, 0, 0, 0, 0, 0, 0, 0, 0, Zeros(513))
  }

  function RootLayer(p: Packet, cid: Cid, channelCount: nat): Packet
    requires channelCount <= DMX_MAX
  {
    p.(preambleSize := 16, postambleSize := 0, acnId := ACN_ID, rootFlength := 0x7000 + (110 + channelCount),
       rootVector := 4, cid := cid)
  }

  function FrameLayer(p: Packet, name: seq<byte>, universe: nat, channelCount: nat): Packet
    requires channelCount <= DMX_MAX
  {
    p.(frameFlength := 0x7000 + (88 + channelCount), frameVector := 2, sourceName := NameField(name),
       priority := 100, reserved := 0, options := 0, universe := universe % 0x1_0000)
  }

  function DmpLayer(p: Packet, channelCount: nat): Packet
    requires channelCount <= DMX_MAX && |p.propertyValues| == 513
  {
    p.(dmpFlength := 0x7000 + (11 + channelCount), dmpVector := 2, addressType := 0xa1, firstAddress := 0,
       addressIncrement := 1, propertyValueCount := 1 + channelCount, propertyValues := p.propertyValues[0 := 0])
  }

  /// The packet headers for one universe and channel count; no channel data yet.
  function Prepared(cid: Cid, name: seq<byte>, universe: nat, channelCount: nat): Packet
    requires channelCount <= DMX_MAX
  {
    DmpLayer(FrameLayer(RootLayer(Cleared(), cid, channelCount), name, universe, channelCount), channelCount)
  }

  /// The first 126 octets of a datagram with n colour bytes: everything up to the start code.
  function Header(cid: Cid, name: seq<byte>, universe: nat, sequence: byte, n: nat): (h: seq<byte>)
    requires n <= DMX_MAX
    ensures |h| == 126
  {
    var p := Prepared(cid, name, universe, n).(sequenceNumber := sequence);
    PartsAt(p);
    p.Raw()[..126]
  }

  /// Datagram number j of a frame of colour bytes.
  function Datagram(cid: Cid, name: seq<byte>, universe: nat, sequence: byte, data: seq<byte>, j: nat): (d: seq<byte>)
    requires j < NumChunks(|data|, DMX_MAX)
  {
    ChunkSizes(data, DMX_MAX, j);
    var c := Chunk(data, DMX_MAX, j);
    Header(cid, name, universe + j, sequence, |c|) + c
  }

  /// The four parts of the packet and where they stand.
  lemma PartsAt(p: Packet)
    requires p.Valid()
    ensures var raw := p.Raw();
            && |raw| == 638 && raw[..38] == p.RootOctets() && raw[38..115] == p.FrameOctets()
            && raw[115..125] == p.DmpOctets() && raw[125..] == p.propertyValues
  {
  }

  lemma InPart(raw: seq<byte>, at: nat, end: nat, i: nat)
    requires at + i + 1 < end <= |raw|
    ensures At16(raw, at + i) == At16(raw[at..end], i)
  {
    var a, b := raw[at..end][i..i + 2], raw[at + i..at + i + 2];
    assert a[0] == b[0] && a[1] == b[1];
    assert a == b;
  }

  lemma Reads16(part: seq<byte>, i: nat, x: Word)
    requires i + 1 < |part| && part[i..i + 2] == ToBigEndian(x, 2)
    ensures At16(part, i) == x
  {
    Pow256Of2();
    BigEndianRoundTrip(x, 2);
  }

  /** The root layer: every field stands at its offset. */
  lemma RootLayout(p: Packet)
    requires p.Valid()
    ensures var raw := p.Raw();
            && |raw| == 638 && At16(raw, 0) == p.preambleSize && At16(raw, 2) == p.postambleSize
            && raw[4..16] == p.acnId && At16(raw, 16) == p.rootFlength && raw[18..22] == ToBigEndian(p.rootVector, 4)
            && raw[22..38] == p.cid
  {
    PartsAt(p);
    var raw, r := p.Raw(), p.RootOctets();
    InPart(raw, 0, 38, 0); InPart(raw, 0, 38, 2); InPart(raw, 0, 38, 16);
    Reads16(r, 0, p.preambleSize); Reads16(r, 2, p.postambleSize); Reads16(r, 16, p.rootFlength);
    assert r[4..16] == p.acnId && r[18..22] == ToBigEndian(p.rootVector, 4) && r[22..38] == p.cid;
    assert raw[4..16] == r[4..16] && raw[18..22] == r[18..22] && raw[22..38] == r[22..38];
  }

  /** The framing layer. */
  lemma FrameLayout(p: Packet)
    requires p.Valid()
    ensures var raw := p.Raw();
            && |raw| == 638 && At16(raw, 38) == p.frameFlength && raw[40..44] == ToBigEndian(p.frameVector, 4)
            && raw[44..108] == p.sourceName && raw[108] == p.priority && At16(raw, 109) == p.reserved
            && raw[111] == p.sequenceNumber && raw[112] == p.options && At16(raw, 113) == p.universe
  {
    PartsAt(p);
    var raw, f := p.Raw(), p.FrameOctets();
    InPart(raw, 38, 115, 0); InPart(raw, 38, 115, 71); InPart(raw, 38, 115, 75);
    Reads16(f, 0, p.frameFlength); Reads16(f, 71, p.reserved); Reads16(f, 75, p.universe);
    assert f[2..6] == ToBigEndian(p.frameVector, 4) && f[6..70] == p.sourceName;
    assert raw[40..44] == f[2..6] && raw[44..108] == f[6..70];
    assert raw[108] == f[70] && raw[111] == f[73] && raw[112] == f[74];
  }

  /** The DMP layer, and the property values behind it. */
  lemma DmpLayout(p: Packet)
    requires p.Valid()
    ensures var raw := p.Raw();
            && |raw| == 638 && At16(raw, 115) == p.dmpFlength && raw[117] == p.dmpVector && raw[118] == p.addressType
            && At16(raw, 119) == p.firstAddress && At16(raw, 121) == p.addressIncrement
            && At16(raw, 123) == p.propertyValueCount && raw[125..] == p.propertyValues
  {
    PartsAt(p);
    var raw, d := p.Raw(), p.DmpOctets();
    InPart(raw, 115, 125, 0); InPart(raw, 115, 125, 4); InPart(raw, 115, 125, 6); InPart(raw, 115, 125, 8);
    Reads16(d, 0, p.dmpFlength); Reads16(d, 4, p.firstAddress); Reads16(d, 6, p.addressIncrement);
    Reads16(d, 8, p.propertyValueCount);
    assert raw[117] == d[2] && raw[118] == d[3];
  }

  lemma SameHeader(p: Packet, q: Packet)
    requires p.Valid() && q.Valid() && p == q.(propertyValues := p.propertyValues)
    requires p.propertyValues[0] == q.propertyValues[0]
    ensures p.Raw()[..126] == q.Raw()[..126]
  {
    var head := p.RootOctets() + p.FrameOctets() + p.DmpOctets();
    assert p.Raw()[..126] == head + [p.propertyValues[0]];
    assert q.Raw()[..126] == head + [q.propertyValues[0]];
  }

  lemma ValuesBehind(p: Packet, n: nat)
    requires p.Valid() && n <= DMX_MAX
    ensures p.Raw()[..126 + n] == p.Raw()[..126] + p.propertyValues[1..1 + n]
  {
    PartsAt(p);
    assert p.Raw()[126..126 + n] == p.propertyValues[1..1 + n];
  }

  /// The colour bytes of a datagram: everything after the start code.
  function Payload(d: seq<byte>): seq<byte>
    requires |d| >= 126
  {
    d[126..]
  }

  lemma DatagramPayload(cid: Cid, name: seq<byte>, universe: nat, sequence: byte, data: seq<byte>, j: nat)
    requires j < NumChunks(|data|, DMX_MAX)
    ensures var d := Datagram(cid, name, universe, sequence, data, j);
            126 < |d| <= 638 && j * DMX_MAX <= |data| && Payload(d) == Chunk(data, DMX_MAX, j)
  {
    ChunkSizes(data, DMX_MAX, j);
  }

  /// A length field holds the protocol flags 0x7 and the octets from position i to the end.
  ghost predicate CountsToEnd(d: seq<byte>, i: nat) {
    i + 1 < |d| && At16(d, i) % 0x1000 == |d| - i && At16(d, i) / 0x1000 == 7
  }

  lemma PreparedFields(cid: Cid, name: seq<byte>, universe: nat, sequence: byte, n: nat)
    requires n <= DMX_MAX
    ensures var p := Prepared(cid, name, universe, n).(sequenceNumber := sequence);
            && p.Valid() && p.rootFlength == 0x7000 + 110 + n && p.frameFlength == 0x7000 + 88 + n
            && p.dmpFlength == 0x7000 + 11 + n && p.propertyValueCount == 1 + n
            && p.universe == universe % 0x1_0000 && p.sequenceNumber == sequence && p.propertyValues[0] == 0
  {
  }

  lemma HeaderFields(cid: Cid, name: seq<byte>, universe: nat, sequence: byte, n: nat)
    requires n <= DMX_MAX
    ensures var h := Header(cid, name, universe, sequence, n);
            && At16(h, 16) == 0x7000 + 110 + n && At16(h, 38) == 0x7000 + 88 + n && At16(h, 115) == 0x7000 + 11 + n
            && At16(h, 123) == 1 + n && At16(h, 113) == universe % 0x1_0000 && h[111] == sequence && h[125] == 0
  {
    var p := Prepared(cid, name, universe, n).(sequenceNumber := sequence);
    PreparedFields(cid, name, universe, sequence, n);
    RootLayout(p); FrameLayout(p); DmpLayout(p);
    var raw := p.Raw();
    SamePrefix(raw, 16); SamePrefix(raw, 38); SamePrefix(raw, 115); SamePrefix(raw, 123); SamePrefix(raw, 113);
    assert raw[125] == p.propertyValues[0];
  }

  lemma SamePrefix(raw: seq<byte>, i: nat)
    requires i + 1 < 126 <= |raw|
    ensures At16(raw[..126], i) == At16(raw, i)
  {
    assert raw[..126][i..i + 2] == raw[i..i + 2];
  }

  /** Each length field counts the octets from itself to the end of the datagram (sections 5.4, 6.1 and
      7.1 of ANSI E1.31), the property count is the payload and its start code, the start code is 0,
      and universes are consecutive. */
  lemma DatagramFields(cid: Cid, name: seq<byte>, universe: nat, sequence: byte, data: seq<byte>, j: nat)
    requires j < NumChunks(|data|, DMX_MAX)
    ensures var d := Datagram(cid, name, universe, sequence, data, j);
            && CountsToEnd(d, 16) && CountsToEnd(d, 38) && CountsToEnd(d, 115)
            && |d| >= 126 && At16(d, 123) == 1 + |Payload(d)| && d[125] == 0
            && At16(d, 113) == (universe + j) % 0x1_0000 && d[111] == sequence
  {
    ChunkSizes(data, DMX_MAX, j);
    var c := Chunk(data, DMX_MAX, j);
    var h := Header(cid, name, universe + j, sequence, |c|);
    HeaderFields(cid, name, universe + j, sequence, |c|);
    BehindHeader(h, c);
    Counts(h + c, 16, 110 + |c|); Counts(h + c, 38, 88 + |c|); Counts(h + c, 115, 11 + |c|);
  }

  lemma Counts(d: seq<byte>, i: nat, n: nat)
    requires i + 1 < |d| && At16(d, i) == 0x7000 + n && n == |d| - i < 0x1000
    ensures CountsToEnd(d, i)
  {}

  lemma BehindHeader(h: seq<byte>, c: seq<byte>)
    requires |h| == 126
    ensures At16(h + c, 16) == At16(h, 16) && At16(h + c, 38) == At16(h, 38) && At16(h + c, 115) == At16(h, 115)
    ensures At16(h + c, 113) == At16(h, 113) && At16(h + c, 123) == At16(h, 123)
    ensures (h + c)[125] == h[125] && (h + c)[111] == h[111] && Payload(h + c) == c
  {
    assert (h + c)[..126] == h;
    SamePrefix(h + c, 16); SamePrefix(h + c, 38); SamePrefix(h + c, 115);
    SamePrefix(h + c, 113); SamePrefix(h + c, 123);
  }

  lemma PreparedConstants(cid: Cid, name: seq<byte>, universe: nat, sequence: byte, n: nat)
    requires n <= DMX_MAX
    ensures var p := Prepared(cid, name, universe, n).(sequenceNumber := sequence);
            && p.Valid() && p.preambleSize == 16 && p.postambleSize == 0 && p.acnId == ACN_ID && p.rootVector == 4
            && p.cid == cid && p.frameVector == 2 && p.sourceName == NameField(name) && p.priority == 100
            && p.reserved == 0 && p.options == 0 && p.dmpVector == 2 && p.addressType == 0xa1
            && p.firstAddress == 0 && p.addressIncrement == 1
  {}

  lemma RootValues(p: Packet)
    requires p.Valid()
    ensures var h := p.Raw()[..126];
            && |h| == 126 && At16(h, 0) == p.preambleSize && At16(h, 2) == p.postambleSize && h[4..16] == p.acnId
            && h[18..22] == ToBigEndian(p.rootVector, 4) && h[22..38] == p.cid
  {
    RootLayout(p);
    var raw := p.Raw();
    SamePrefix(raw, 0); SamePrefix(raw, 2);
    SameSlice(raw, 4, 16); SameSlice(raw, 18, 22); SameSlice(raw, 22, 38);
  }

  lemma FrameValues(p: Packet)
    requires p.Valid()
    ensures var h := p.Raw()[..126];
            && |h| == 126 && h[40..44] == ToBigEndian(p.frameVector, 4) && h[44..108] == p.sourceName
            && h[108] == p.priority && At16(h, 109) == p.reserved && h[112] == p.options
  {
    FrameLayout(p);
    var raw := p.Raw();
    SamePrefix(raw, 109);
    SameSlice(raw, 40, 44); SameSlice(raw, 44, 108);
  }

  lemma AcnCharacters()
    ensures |ACN_ID| == 12 && forall i | 0 <= i < 12 :: ACN_ID[i] == if i < 9 then "ASC-E1.17"[i] as int else 0
  {}

  /** The fields that are the same in every datagram: preamble size, the ACN packet identifier, the vectors of
      the three layers, the component identifier, the source name, the default priority, no options, and the DMP
      addressing of one-byte properties from 0. */
  lemma FixedRootFields(cid: Cid, name: seq<byte>, universe: nat, sequence: byte, n: nat)
    requires n <= DMX_MAX
    ensures var h := Header(cid, name, universe, sequence, n);
            && At16(h, 0) == 16 && At16(h, 2) == 0 && h[4..16] == ACN_ID
            && h[18..22] == [0, 0, 0, 4] && h[22..38] == cid
  {
    PreparedConstants(cid, name, universe, sequence, n);
    FourBytes(4);
    RootValues(Prepared(cid, name, universe, n).(sequenceNumber := sequence));
  }

  lemma FixedFrameFields(cid: Cid, name: seq<byte>, universe: nat, sequence: byte, n: nat)
    requires n <= DMX_MAX
    ensures var h := Header(cid, name, universe, sequence, n);
            && h[40..44] == [0, 0, 0, 2] && h[44..108] == NameField(name)
            && h[108] == 100 && At16(h, 109) == 0 && h[112] == 0
  {
    PreparedConstants(cid, name, universe, sequence, n);
    FourBytes(2);
    FrameValues(Prepared(cid, name, universe, n).(sequenceNumber := sequence));
  }

  lemma FixedDmpFields(cid: Cid, name: seq<byte>, universe: nat, sequence: byte, n: nat)
    requires n <= DMX_MAX
    ensures var h := Header(cid, name, universe, sequence, n);
            h[117] == 2 && h[118] == 0xa1 && At16(h, 119) == 0 && At16(h, 121) == 1
  {
    var p := Prepared(cid, name, universe, n).(sequenceNumber := sequence);
    PreparedConstants(cid, name, universe, sequence, n);
    DmpLayout(p);
    SamePrefix(p.Raw(), 119); SamePrefix(p.Raw(), 121);
  }

  lemma SameSlice(raw: seq<byte>, from: nat, to: nat)
    requires from <= to <= 126 <= |raw|
    ensures raw[..126][from..to] == raw[from..to]
  {}

  /** The source name is cut to 63 characters and filled with zeros. */
  lemma NameOctets(name: seq<byte>, i: nat)
    requires i < 64
    ensures NameField(name)[i] == if i < |name| && i < 63 then name[i] else 0
  {}

  function Datagrams(cid: Cid, name: seq<byte>, universe: nat, sequence: byte, data: seq<byte>, n: nat): seq<seq<byte>>
    requires n <= NumChunks(|data|, DMX_MAX)
  {
    seq(n, j requires 0 <= j < n => Datagram(cid, name, universe, sequence, data, j))
  }

  /// All datagrams of one frame.
  function FrameDatagrams(cid: Cid, name: seq<byte>, universe: nat, sequence: byte, data: seq<byte>): seq<seq<byte>>
  {
    Datagrams(cid, name, universe, sequence, data, NumChunks(|data|, DMX_MAX))
  }

  lemma DatagramsGrow(cid: Cid, name: seq<byte>, universe: nat, sequence: byte, data: seq<byte>, j: nat)
    requires j < NumChunks(|data|, DMX_MAX)
    ensures Datagrams(cid, name, universe, sequence, data, j + 1)
         == Datagrams(cid, name, universe, sequence, data, j) + [Datagram(cid, name, universe, sequence, data, j)]
  {
  }

  /// The payloads of the datagrams in send order, joined.
  function Payloads(ds: seq<seq<byte>>): seq<byte>
    requires forall i | 0 <= i < |ds| :: |ds[i]| >= 126
  {
    Joined(seq(|ds|, i requires 0 <= i < |ds| => Payload(ds[i])))
  }

  /** Fragmentation loses nothing: the payloads in send order are exactly the colour bytes. */
  lemma NothingLost(cid: Cid, name: seq<byte>, universe: nat, sequence: byte, data: seq<byte>)
    ensures var ds := FrameDatagrams(cid, name, universe, sequence, data);
            (forall i | 0 <= i < |ds| :: |ds[i]| >= 126) && Payloads(ds) == data
  {
    var n := NumChunks(|data|, DMX_MAX);
    var ds := Datagrams(cid, name, universe, sequence, data, n);
    forall j: nat | j < n
      ensures |ds[j]| >= 126 && j * DMX_MAX <= |data| && Payload(ds[j]) == Chunk(data, DMX_MAX, j)
    {
      DatagramPayload(cid, name, universe, sequence, data, j);
    }
    ChunksAreAll(data, DMX_MAX, seq(n, i requires 0 <= i < n => Payload(ds[i])));
  }

  class LedDeviceUdpE131 {
    const ledRGBCount: nat
    const universe: byte
    const cid: Cid
    const sourceName: seq<byte>
    var packet: Packet
    var sequence: byte
    /// Every datagram written to the socket, oldest first.
    ghost var sent: seq<seq<byte>>

    ghost predicate Valid()
      reads this
    {
      packet.Valid()
    }

    constructor (ledRGBCount: nat, universe: byte, cid: Cid, sourceName: seq<byte>)
      ensures Valid() && sequence == 0 && sent == []
    {
      this.ledRGBCount, this.universe, this.cid, this.sourceName := ledRGBCount, universe, cid, sourceName;
      packet := Prepared(cid, sourceName, 0, 0);
      sequence, sent := 0, [];
    }

    method Prepare(thisUniverse: nat, channelCount: nat)
      requires Valid() && channelCount <= DMX_MAX
      modifies this`packet
      ensures Valid() && packet == Prepared(cid, sourceName, thisUniverse, channelCount)
    {
      packet := Cleared();
      packet := RootLayer(packet, cid, channelCount);
      packet := FrameLayer(packet, sourceName, thisUniverse, channelCount);
      packet := DmpLayer(packet, channelCount);
    }

    /// One frame of colour bytes has been sent in full since `before`.
    ghost predicate Sent(before: seq<seq<byte>>, data: seq<byte>)
      reads this
    {
      sent == before + FrameDatagrams(cid, sourceName, universe, sequence, data)
    }

    /// Only the first ledRGBCount bytes of the frame are sent.
    method Write(rawdata: seq<byte>)
      requires Valid() && ledRGBCount <= |rawdata|
      modifies this
      ensures Valid() && sequence == (old(sequence) + 1) % 256
      ensures Sent(old(sent), rawdata[..ledRGBCount])
    {
      ghost var data := rawdata[..ledRGBCount];
      var thisChannelCount: nat := 0;
      sequence := (sequence + 1) % 256;
      ghost var j, k: nat := 0, 0;
      ghost var before := sent;
      NothingSent(data, thisChannelCount);
      for rawIdx := 0 to ledRGBCount
        invariant sequence == (old(sequence) + 1) % 256
        invariant Progress(data, before, rawIdx, j, k, thisChannelCount)
      {
        assert rawdata[rawIdx] == data[rawIdx];
        thisChannelCount, j, k := WriteByte(rawdata[rawIdx], rawIdx, thisChannelCount, data, before, j, k);
      }
      AllSent(data, before, j, k, thisChannelCount);
    }

    /// Byte k of chunk j is next, and the chunks before j have been sent.
    ghost predicate Progress(data: seq<byte>, before: seq<seq<byte>>, rawIdx: nat, j: nat, k: nat, channelCount: nat)
      reads this
    {
      && Valid() && rawIdx <= |data| == ledRGBCount && j <= NumChunks(|data|, DMX_MAX)
      && sent == before + Datagrams(cid, sourceName, universe, sequence, data, j)
      && if rawIdx == |data| then j == NumChunks(|data|, DMX_MAX) else
           && rawIdx == j * DMX_MAX + k && k < DMX_MAX && j < NumChunks(|data|, DMX_MAX)
           && (k > 0 ==> Filling(data, j, k, channelCount))
    }

    lemma NothingSent(data: seq<byte>, channelCount: nat)
      requires Valid() && |data| == ledRGBCount
      ensures Progress(data, sent, 0, 0, 0, channelCount)
    {
      ChunkStarts(|data|, DMX_MAX, 0);
      assert Datagrams(cid, sourceName, universe, sequence, data, 0) == [];
    }

    lemma AllSent(data: seq<byte>, before: seq<seq<byte>>, j: nat, k: nat, channelCount: nat)
      requires Progress(data, before, |data|, j, k, channelCount)
      ensures Valid() && Sent(before, data)
    {}

    /// The body of the byte loop.
    method WriteByte(value: byte, rawIdx: nat, channelCount: nat, ghost data: seq<byte>, ghost before: seq<seq<byte>>,
                     ghost j: nat, ghost k: nat) returns (thisChannelCount: nat, ghost nextJ: nat, ghost nextK: nat)
      requires Progress(data, before, rawIdx, j, k, channelCount) && rawIdx < |data| && value == data[rawIdx]
      modifies this`packet, this`sent
      ensures Progress(data, before, rawIdx + 1, nextJ, nextK, thisChannelCount)
    {
      thisChannelCount, nextJ, nextK := channelCount, j, k + 1;
      LoopTests(data, DMX_MAX, j, k);
      if rawIdx % DMX_MAX == 0 {
        thisChannelCount := if ledRGBCount - rawIdx < DMX_MAX then ledRGBCount % DMX_MAX else DMX_MAX;
        StartPacket(data, j, rawIdx / DMX_MAX, thisChannelCount);
      }
      PutByte(data, j, k, thisChannelCount, 1 + rawIdx % DMX_MAX, value);
      if rawIdx == ledRGBCount - 1 || rawIdx % DMX_MAX == DMX_MAX - 1 {
        Send(data, j, thisChannelCount, before);
        nextJ, nextK := j + 1, 0;
      }
    }

    method StartPacket(ghost data: seq<byte>, ghost j: nat, number: nat, channelCount: nat)
      requires Valid() && number == j < NumChunks(|data|, DMX_MAX) && j * DMX_MAX <= |data|
      requires channelCount == |Chunk(data, DMX_MAX, j)| <= DMX_MAX
      modifies this`packet
      ensures Filling(data, j, 0, channelCount)
    {
      Prepare(universe + number, channelCount);
      packet := packet.(sequenceNumber := sequence);
    }

    method Send(ghost data: seq<byte>, ghost j: nat, channelCount: nat, ghost before: seq<seq<byte>>)
      requires Valid() && Filling(data, j, channelCount, channelCount)
      requires sent == before + Datagrams(cid, sourceName, universe, sequence, data, j)
      modifies this`sent
      ensures sent == before + Datagrams(cid, sourceName, universe, sequence, data, j + 1)
    {
      FullPacket(data, j, channelCount, channelCount);
      DatagramsGrow(cid, sourceName, universe, sequence, data, j);
      sent := sent + [packet.Raw()[..125 + 1 + channelCount]];
    }

    /// One colour byte goes into the property values.
    method PutByte(ghost data: seq<byte>, ghost j: nat, ghost k: nat, ghost channelCount: nat,
                   position: nat, value: byte)
      requires Filling(data, j, k, channelCount) && k < channelCount && position == 1 + k
      requires j * DMX_MAX + k < |data| && value == data[j * DMX_MAX + k]
      modifies this`packet
      ensures Filling(data, j, k + 1, channelCount)
    {
      packet := packet.(propertyValues := packet.propertyValues[position := value]);
      assert packet.propertyValues[1..1+k] == old(packet.propertyValues)[1..1+k];
      assert packet.propertyValues[1..2+k] == packet.propertyValues[1..1+k] + [value];
      assert Chunk(data, DMX_MAX, j)[..k+1] == Chunk(data, DMX_MAX, j)[..k] + [value];
    }

    /// The first k bytes of chunk j have been copied into the prepared packet.
    ghost predicate Filling(data: seq<byte>, j: nat, k: nat, channelCount: nat)
      reads this
    {
      && j < NumChunks(|data|, DMX_MAX) && j * DMX_MAX <= |data|
      && k <= channelCount == |Chunk(data, DMX_MAX, j)| <= DMX_MAX
      && packet.Valid()
      && packet == Prepared(cid, sourceName, universe + j, channelCount)
                     .(sequenceNumber := sequence, propertyValues := packet.propertyValues)
      && packet.propertyValues[0] == 0
      && packet.propertyValues[1..1+k] == Chunk(data, DMX_MAX, j)[..k]
    }

    lemma FullPacket(data: seq<byte>, j: nat, k: nat, channelCount: nat)
      requires Filling(data, j, k, channelCount) && k == channelCount
      ensures packet.Raw()[..126 + channelCount] == Datagram(cid, sourceName, universe, sequence, data, j)
    {
      var prepared := Prepared(cid, sourceName, universe + j, channelCount).(sequenceNumber := sequence);
      PreparedFields(cid, sourceName, universe + j, sequence, channelCount);
      SameHeader(packet, prepared);
      ValuesBehind(packet, channelCount);
    }
  }
}
