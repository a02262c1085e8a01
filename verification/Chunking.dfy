/** Splitting a byte string into consecutive pieces of bounded size. */
module Chunking {
  import opened Colors
  import opened Sequences

  function NumChunks(n: nat, max: nat): nat
    requires max > 0
  {
    (n + max - 1) / max
  }

  /// Where chunk j ends.
  function Edge(n: nat, max: nat, j: nat): (e: nat)
    ensures e <= n
  {
    if j * max <= n && 0 <= j * max then j * max else n
  }

  function Chunk(data: seq<byte>, max: nat, j: nat): seq<byte>
    requires j * max <= |data|
  {
    data[j * max..Edge(|data|, max, j + 1)]
  }

  lemma Products(max: nat, j: nat)
    ensures 0 <= j * max && (j + 1) * max == j * max + max
  {}

  lemma Monotone(max: nat, i: nat, j: nat)
    requires i <= j
    ensures i * max <= j * max
  {}

  /** A chunk number below the count starts inside the data. */
  lemma ChunkStarts(n: nat, max: nat, j: nat)
    requires max > 0
    ensures j < NumChunks(n, max) <==> j * max < n
  {
    var q := NumChunks(n, max);
    assert q * max <= n + max - 1 < (q + 1) * max;
    Products(max, q);
    if j < q {
      Monotone(max, j + 1, q);
      Products(max, j);
    } else {
      Monotone(max, q, j);
    }
  }

  /// The parts are the first chunks of the data.
  predicate AreChunks(data: seq<byte>, max: nat, parts: seq<seq<byte>>) {
    forall j: nat | j < |parts| :: j * max <= |data| && parts[j] == Chunk(data, max, j)
  }

  lemma {:induction false} ChunksArePrefix(data: seq<byte>, max: nat, parts: seq<seq<byte>>)
    requires max > 0 && |parts| <= NumChunks(|data|, max) && AreChunks(data, max, parts)
    ensures Joined(parts) == data[..Edge(|data|, max, |parts|)]
  {
    if parts != [] {
      ChunksArePrefix(data, max, parts[..|parts|-1]);
      ChunkExtends(data, max, |parts| - 1);
    }
  }

  lemma ChunkExtends(data: seq<byte>, max: nat, j: nat)
    requires max > 0 && j < NumChunks(|data|, max)
    ensures j * max <= |data|
    ensures data[..Edge(|data|, max, j)] + Chunk(data, max, j) == data[..Edge(|data|, max, j + 1)]
  {
    ChunkStarts(|data|, max, j);
    Products(max, j);
  }

  /** Nothing is lost: all chunks joined in order give back the data. */
  lemma ChunksAreAll(data: seq<byte>, max: nat, parts: seq<seq<byte>>)
    requires max > 0 && |parts| == NumChunks(|data|, max) && AreChunks(data, max, parts)
    ensures Joined(parts) == data
  {
    ChunksArePrefix(data, max, parts);
    ChunkStarts(|data|, max, |parts|);
    assert data[..|data|] == data;
  }

  /** Every chunk but the last is full, and the last is not empty. */
  lemma ChunkSizes(data: seq<byte>, max: nat, j: nat)
    requires max > 0 && j < NumChunks(|data|, max)
    ensures j * max < |data| && 0 < |Chunk(data, max, j)| <= max
    ensures j + 1 < NumChunks(|data|, max) ==> |Chunk(data, max, j)| == max
    ensures |Chunk(data, max, j)| == if |data| - j * max < max then |data| - j * max else max
  {
    ChunkStarts(|data|, max, j);
    ChunkStarts(|data|, max, j + 1);
    Products(max, j);
  }

  lemma ModOfPosition(max: nat, j: nat, k: nat)
    requires k < max
    ensures (j * max + k) % max == k && (j * max + k) / max == j
  {
    Products(max, j);
    var x := j * max + k;
    var q, r := x / max, x % max;
    assert x == q * max + r;
    Products(max, q);
    if q < j { Monotone(max, q + 1, j); }
    if j < q { Monotone(max, j + 1, q); }
  }

  /// The size that a sender computes when it starts a packet at byte rawIdx.
  function SizeAt(n: nat, max: nat, rawIdx: nat): nat
    requires max > 0
  {
    if n - rawIdx < max then n % max else max
  }

  /** The byte loop's tests, at byte k of chunk j: a packet starts exactly at byte 0 of a chunk, its
      computed size is the chunk's, it is complete exactly after the chunk's last byte, and then the
      next byte starts the next chunk or everything is sent. */
  lemma LoopTests(data: seq<byte>, max: nat, j: nat, k: nat)
    requires max > 0 && j < NumChunks(|data|, max) && k < max && j * max + k < |data|
    ensures var i := j * max + k;
            && (i % max == 0 <==> k == 0) && i % max == k && i / max == j
            && (k == 0 ==> SizeAt(|data|, max, i) == |Chunk(data, max, j)|)
            && j * max <= |data| && k < |Chunk(data, max, j)| && data[i] == Chunk(data, max, j)[k]
            && ((i == |data| - 1 || i % max == max - 1) <==> k + 1 == |Chunk(data, max, j)|)
            && (k + 1 == |Chunk(data, max, j)| ==>
                  if i + 1 == |data| then j + 1 == NumChunks(|data|, max)
                  else i + 1 == (j + 1) * max && j + 1 < NumChunks(|data|, max))
  {
    ModOfPosition(max, j, k);
    ChunkSizes(data, max, j);
    ChunkStarts(|data|, max, j + 1);
    Products(max, j);
    if |data| - j * max < max { ModOfPosition(max, j, |data| - j * max); }
  }
}
