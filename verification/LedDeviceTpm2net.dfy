/** TPM2.net output: one datagram per max-packet colour bytes, with a numbered header and an end byte. */
module Tpm2Net {
  import opened Colors
  import opened Sequences
  import opened Octets
  import opened Chunking

  /// Datagram number j of a frame of colour bytes.
  function Datagram(data: seq<byte>, max: nat, totalPackets: nat, j: nat): seq<byte>
    requires max > 0 && j < NumChunks(|data|, max)
  {
    ChunkSizes(data, max, j);
    var c := Chunk(data, max, j);
    Header(|c|, j, totalPackets) + c + [0x36]
  }

  function Header(size: nat, j: nat, totalPackets: nat): (h: seq<byte>)
    ensures |h| == 6
  {
    [0x9c, 0xda] + ToBigEndian(size, 2) + [(j + 1) % 256, totalPackets % 256]
  }

  function Payload(d: seq<byte>): seq<byte>
    requires |d| >= 7
  {
    d[6..|d|-1]
  }

  function Datagrams(data: seq<byte>, max: nat, totalPackets: nat, n: nat): seq<seq<byte>>
    requires max > 0 && n <= NumChunks(|data|, max)
  {
    seq(n, j requires 0 <= j < n => Datagram(data, max, totalPackets, j))
  }

  lemma DatagramsGrow(data: seq<byte>, max: nat, totalPackets: nat, j: nat)
    requires max > 0 && j < NumChunks(|data|, max)
    ensures Datagrams(data, max, totalPackets, j + 1)
         == Datagrams(data, max, totalPackets, j) + [Datagram(data, max, totalPackets, j)]
  {
  }

  lemma DatagramPayload(data: seq<byte>, max: nat, totalPackets: nat, j: nat)
    requires max > 0 && j < NumChunks(|data|, max)
    ensures var d := Datagram(data, max, totalPackets, j);
            |d| >= 7 && j * max <= |data| && Payload(d) == Chunk(data, max, j)
  {
    ChunkSizes(data, max, j);
  }

  /** The payload stands between six header bytes and the end byte; the size field is the payload's size,
      the packet number counts from one and the total is the announced one, each cut to its width. */
  lemma DatagramFields(data: seq<byte>, max: nat, totalPackets: nat, j: nat)
    requires max > 0 && j < NumChunks(|data|, max)
    ensures var d := Datagram(data, max, totalPackets, j);
            && |d| >= 7 && j * max <= |data| && Payload(d) == Chunk(data, max, j)
            && d[0] == 0x9c && d[1] == 0xda && d[|d|-1] == 0x36
            && d[2..4] == ToBigEndian(|Payload(d)|, 2)
            && d[4] == (j + 1) % 256 && d[5] == totalPackets % 256
  {
    ChunkSizes(data, max, j);
  }

  /** The size field is right exactly for payloads of at most 65535 bytes. */
  lemma SizeFieldExact(data: seq<byte>, max: nat, totalPackets: nat, j: nat)
    requires max > 0 && j < NumChunks(|data|, max)
    ensures var d := Datagram(data, max, totalPackets, j);
            |d| >= 7 && (BigEndian(d[2..4]) == |Payload(d)| <==> |Payload(d)| <= 0xffff)
  {
    DatagramFields(data, max, totalPackets, j);
    var size := |Payload(Datagram(data, max, totalPackets, j))|;
    Pow256Of2();
    BigEndianBound(ToBigEndian(size, 2));
    if size <= 0xffff { BigEndianRoundTrip(size, 2); }
  }

  function Payloads(ds: seq<seq<byte>>): seq<byte>
    requires forall i | 0 <= i < |ds| :: |ds[i]| >= 7
  {
    Joined(seq(|ds|, i requires 0 <= i < |ds| => Payload(ds[i])))
  }

  /** Fragmentation loses nothing here either. */
  lemma NothingLost(data: seq<byte>, max: nat, totalPackets: nat)
    requires max > 0
    ensures var ds := Datagrams(data, max, totalPackets, NumChunks(|data|, max));
            (forall i | 0 <= i < |ds| :: |ds[i]| >= 7) && Payloads(ds) == data
  {
    var n := NumChunks(|data|, max);
    var ds := Datagrams(data, max, totalPackets, n);
    forall j: nat | j < n
      ensures |ds[j]| >= 7 && j * max <= |data| && Payload(ds[j]) == Chunk(data, max, j)
    {
      DatagramPayload(data, max, totalPackets, j);
    }
    ChunksAreAll(data, max, seq(n, i requires 0 <= i < n => Payload(ds[i])));
  }

  /// Before it is cut to a byte the announced total is right, or one too many.
  lemma TotalBeforeCut(n: nat, max: nat)
    requires max > 0
    ensures 1 + n / max == NumChunks(n, max) <==> n % max != 0
    ensures n % max == 0 ==> 1 + n / max == NumChunks(n, max) + 1
  {
    var q, r := n / max, n % max;
    assert n == q * max + r;
    if r == 0 {
      ModOfPosition(max, q, max - 1);
    } else {
      Products(max, q);
      ModOfPosition(max, q + 1, r - 1);
    }
  }

  /** The total in a datagram is the number of packets sent if and only if the packet size does not divide
      the byte count and the number fits a byte; the packet number is right up to packet 255. */
  lemma TotalPacketsExact(data: seq<byte>, max: nat, j: nat)
    requires max > 0 && j < NumChunks(|data|, max)
    ensures var d := Datagram(data, max, 1 + |data| / max, j);
            && |d| >= 7
            && (d[5] == NumChunks(|data|, max) <==> |data| % max != 0 && NumChunks(|data|, max) <= 255)
            && (d[4] == j + 1 <==> j < 255)
  {
    TotalBeforeCut(|data|, max);
    CutNumbers(data, max, 1 + |data| / max, j, NumChunks(|data|, max), |data| % max == 0);
  }

  lemma CutNumbers(data: seq<byte>, max: nat, total: nat, j: nat, n: nat, divides: bool)
    requires max > 0 && j < NumChunks(|data|, max)
    requires total == if divides then n + 1 else n
    ensures var d := Datagram(data, max, total, j);
            |d| >= 7 && (d[5] == n <==> !divides && n <= 255) && (d[4] == j + 1 <==> j < 255)
  {
    DatagramFields(data, max, total, j);
  }

  /** So the headers of a whole frame are all right under the same condition, with the size field's. */
  lemma FrameNumberingExact(data: seq<byte>, max: nat)
    requires max > 0 && data != []
    ensures (var ds := Datagrams(data, max, 1 + |data| / max, NumChunks(|data|, max));
             forall j: nat | j < |ds| :: WellNumbered(ds[j], j, |ds|))
       <==> |data| % max != 0 && NumChunks(|data|, max) <= 255 && Min(max, |data|) <= 0xffff
  {
    var n := NumChunks(|data|, max);
    var ds := Datagrams(data, max, 1 + |data| / max, n);
    var numbers := |data| % max != 0 && n <= 255;
    ChunkStarts(|data|, max, 0);
    ChunkSizes(data, max, 0);
    forall j: nat | j < n
      ensures WellNumbered(ds[j], j, n) ==> numbers && (j == 0 ==> Min(max, |data|) <= 0xffff)
      ensures numbers && Min(max, |data|) <= 0xffff ==> WellNumbered(ds[j], j, n)
    {
      TotalPacketsExact(data, max, j);
      WellNumberedExact(data, max, 1 + |data| / max, j, n, numbers);
      ChunkSizes(data, max, j);
    }
    assert WellNumbered(ds[0], 0, n) ==> numbers && Min(max, |data|) <= 0xffff;
  }

  lemma WellNumberedExact(data: seq<byte>, max: nat, total: nat, j: nat, n: nat, numbers: bool)
    requires max > 0 && j < NumChunks(|data|, max) && j < n && (numbers ==> n <= 255)
    requires var d := Datagram(data, max, total, j);
             |d| >= 7 && (d[5] == n <==> numbers) && (d[4] == j + 1 <==> j < 255)
    ensures j * max <= |data|
    ensures WellNumbered(Datagram(data, max, total, j), j, n) <==> numbers && |Chunk(data, max, j)| <= 0xffff
  {
    DatagramPayload(data, max, total, j);
    SizeFieldExact(data, max, total, j);
  }

  /// Packet number j of `total` says so, and states its size.
  predicate WellNumbered(d: seq<byte>, j: nat, total: nat) {
    |d| >= 7 && d[4] == j + 1 && d[5] == total && BigEndian(d[2..4]) == |Payload(d)|
  }

  /** Both ways to fail: 170 leds in packets of 170 bytes announce 4 packets and send 3; 171 leds in packets
      of 2 bytes announce 1 and send 257. */
  lemma WrongTotals(a: seq<byte>, b: seq<byte>)
    requires |a| == 3 * 170 && |b| == 3 * 171
    ensures NumChunks(|a|, 170) == 3 && Datagram(a, 170, 1 + |a| / 170, 0)[5] == 4
    ensures NumChunks(|b|, 2) == 257 && Datagram(b, 2, 1 + |b| / 2, 0)[5] == 1
  {
    DatagramFields(a, 170, 4, 0);
    DatagramFields(b, 2, 257, 0);
  }

  class LedDeviceTpm2net {
    const tpm2Max: nat
    const byteCount: nat
    const totalPackets: nat
    /// Every datagram written to the socket, oldest first.
    ghost var sent: seq<seq<byte>>

    constructor (ledCount: nat, maxPacket: nat)
      requires maxPacket > 0
      ensures tpm2Max == maxPacket && byteCount == 3 * ledCount && totalPackets == 1 + byteCount / maxPacket
      ensures sent == []
    {
      tpm2Max, byteCount := maxPacket, 3 * ledCount;
      totalPackets := 1 + 3 * ledCount / maxPacket;
      sent := [];
    }

    /// The buffer is allocated without being cleared; every byte that is sent was written before.
    method Write(rawdata: seq<byte>)
      requires tpm2Max > 0 && byteCount <= |rawdata|
      modifies this`sent
      ensures sent == old(sent) + Datagrams(rawdata[..byteCount], tpm2Max, totalPackets, NumChunks(byteCount, tpm2Max))
    {
      var buffer := new byte[tpm2Max + 7];
      ghost var data := rawdata[..byteCount];
      ghost var n := NumChunks(|data|, tpm2Max);
      var thisPacketBytes: nat := 0;
      var thisPacket := 1;
      ghost var j, k: nat := 0, 0;
      ChunkStarts(|data|, tpm2Max, 0);
      for rawIdx := 0 to byteCount
        invariant rawIdx < |data| ==> rawIdx == j * tpm2Max + k && k < tpm2Max && j < n
        invariant rawIdx < |data| ==> sent == old(sent) + Datagrams(data, tpm2Max, totalPackets, j)
        invariant rawIdx < |data| ==> thisPacket == if k == 0 then j + 1 else j + 2
        invariant rawIdx < |data| && k > 0 ==> Filling(buffer[..], data, j, k, thisPacketBytes)
        invariant rawIdx == |data| ==> sent == old(sent) + Datagrams(data, tpm2Max, totalPackets, n)
      {
        LoopTests(data, tpm2Max, j, k);
        if rawIdx % tpm2Max == 0 {
          thisPacketBytes := if byteCount - rawIdx < tpm2Max then byteCount % tpm2Max else tpm2Max;
          StartPacket(buffer, data, j, thisPacketBytes, thisPacket);
          thisPacket := thisPacket + 1;
        }
        PutByte(buffer, data, j, k, thisPacketBytes, 6 + rawIdx % tpm2Max, rawdata[rawIdx]);
        k := k + 1;
        if rawIdx == byteCount - 1 || rawIdx % tpm2Max == tpm2Max - 1 {
          buffer[6 + rawIdx % tpm2Max + 1] := 0x36;
          Complete(buffer[..], data, j, thisPacketBytes);
          sent := sent + [buffer[..thisPacketBytes + 7]];
          DatagramsGrow(data, tpm2Max, totalPackets, j);
          j, k := j + 1, 0;
        }
      }
    }

    /// The header and the first k bytes of chunk j stand in the buffer.
    ghost predicate Filling(b: seq<byte>, data: seq<byte>, j: nat, k: nat, size: nat) {
      && tpm2Max > 0 && |b| == tpm2Max + 7 && j < NumChunks(|data|, tpm2Max) && j * tpm2Max <= |data|
      && k <= size == |Chunk(data, tpm2Max, j)| <= tpm2Max
      && b[..6] == Header(size, j, totalPackets)
      && b[6..6+k] == Chunk(data, tpm2Max, j)[..k]
    }

    method StartPacket(buffer: array<byte>, ghost data: seq<byte>, ghost j: nat, size: nat, number: nat)
      requires tpm2Max > 0 && buffer.Length == tpm2Max + 7 && number == j + 1
      requires j < NumChunks(|data|, tpm2Max) && j * tpm2Max <= |data| && size == |Chunk(data, tpm2Max, j)| <= tpm2Max
      modifies buffer
      ensures Filling(buffer[..], data, j, 0, size)
    {
      buffer[0] := 0x9c;
      buffer[1] := 0xda;
      buffer[2] := size / 256 % 256;
      buffer[3] := size % 256;
      buffer[4] := number % 256;
      buffer[5] := totalPackets % 256;
      TwoBytes(size);
      assert buffer[..6] == Header(size, j, totalPackets);
      assert buffer[..][..6] == buffer[..6];
    }

    method PutByte(buffer: array<byte>, ghost data: seq<byte>, ghost j: nat, ghost k: nat, ghost size: nat,
                   position: nat, value: byte)
      requires Filling(buffer[..], data, j, k, size) && k < size && position == 6 + k
      requires value == Chunk(data, tpm2Max, j)[k]
      modifies buffer
      ensures Filling(buffer[..], data, j, k + 1, size)
    {
      ghost var was := buffer[..];
      buffer[position] := value;
      ghost var b := buffer[..];
      assert b == was[position := value];
      assert b[..6] == was[..6] && b[6..6+k] == was[6..6+k];
      assert b[6..7+k] == b[6..6+k] + [value];
      assert Chunk(data, tpm2Max, j)[..k+1] == Chunk(data, tpm2Max, j)[..k] + [value];
    }

    lemma Complete(b: seq<byte>, data: seq<byte>, j: nat, size: nat)
      requires Filling(b, data, j, size, size) && b[6 + size] == 0x36
      ensures b[..size + 7] == Datagram(data, tpm2Max, totalPackets, j)
    {
      assert b[..size + 7] == b[..6] + b[6..6+size] + [b[6+size]];
    }
  }
}
