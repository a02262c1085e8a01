/** Length-prefixed messages of the protobuf server. */
module ProtoFraming {
  import opened Colors
  import opened Sequences
  import opened Octets

  /// The largest size whose frame length still fits an unsigned 32-bit value.
  const MAX_SIZE := 0xFFFF_FFFB

  function FrameOf(m: seq<byte>): seq<byte> { ToBigEndian(|m|, 4) + m }

  function Stream(msgs: seq<seq<byte>>): seq<byte> {
    if msgs == [] then [] else FrameOf(msgs[0]) + Stream(msgs[1..])
  }

  function SizeField(b: seq<byte>): nat
    requires |b| >= 4
  {
    BigEndian(b[..4])
  }

  /// The buffer holds a message that one read will handle. Four bytes alone are never looked at.
  predicate Ready(b: seq<byte>) { |b| > 4 && |b| >= SizeField(b) + 4 }

  datatype State = State(buffer: seq<byte>, handled: seq<seq<byte>>)

  /// One read handles at most one message.
  function Read(s: State, chunk: seq<byte>): State { Handle(s.buffer + chunk, s.handled) }

  function Handle(b: seq<byte>, handled: seq<seq<byte>>): State {
    if Ready(b) then State(b[SizeField(b) + 4..], handled + [b[4..SizeField(b) + 4]]) else State(b, handled)
  }

  function ReadAll(s: State, chunks: seq<seq<byte>>): State {
    if chunks == [] then s else Read(ReadAll(s, chunks[..|chunks|-1]), chunks[|chunks|-1])
  }

  /** The frame at the front of a stream is read back as its message, with the rest left over. */
  lemma FrontFrame(m: seq<byte>, rest: seq<byte>, b: seq<byte>)
    requires |m| <= MAX_SIZE && b <= FrameOf(m) + rest && |b| >= 4
    ensures SizeField(b) == |m|
    ensures |b| >= |m| + 4 ==> b[4..|m| + 4] == m && b[|m| + 4..] == rest[..|b| - |m| - 4]
  {
    Pow256Of4();
    BigEndianRoundTrip(|m|, 4);
    var s := FrameOf(m) + rest;
    assert b == s[..|b|];
    assert b[..4] == ToBigEndian(|m|, 4);
    if |b| >= |m| + 4 {
      assert b[4..|m| + 4] == m;
      assert b[|m| + 4..] == rest[..|b| - |m| - 4];
    }
  }

  lemma {:induction false} StreamSplit(msgs: seq<seq<byte>>, k: nat)
    requires k <= |msgs|
    ensures Stream(msgs) == Stream(msgs[..k]) + Stream(msgs[k..])
  {
    if k > 0 {
      StreamSplit(msgs[1..], k - 1);
      assert msgs[..k][1..] == msgs[1..][..k-1] && msgs[k..] == msgs[1..][k-1..];
      assert FrameOf(msgs[0]) + (Stream(msgs[1..][..k-1]) + Stream(msgs[k..]))
          == FrameOf(msgs[0]) + Stream(msgs[1..][..k-1]) + Stream(msgs[k..]);
    } else {
      assert msgs[..0] == [] && msgs[0..] == msgs;
    }
  }

  lemma StreamSnoc(msgs: seq<seq<byte>>, k: nat)
    requires k < |msgs|
    ensures Stream(msgs[..k+1]) == Stream(msgs[..k]) + FrameOf(msgs[k])
  {
    var p := msgs[..k+1];
    StreamSplit(p, k);
    var last: seq<seq<byte>> := [msgs[k]];
    assert p[..k] == msgs[..k] && p[k..] == last && |last[1..]| == 0;
    assert Stream(last) == FrameOf(msgs[k]) + Stream([]);
  }

  /// k messages are done and the bytes received after them wait in the buffer.
  ghost predicate Account(msgs: seq<seq<byte>>, s: State, received: seq<byte>, k: nat) {
    k <= |msgs| && s.handled == msgs[..k] && Stream(msgs[..k]) + s.buffer == received
  }

  lemma CancelPrefix(head: seq<byte>, b: seq<byte>, rest: seq<byte>)
    requires head + b <= head + rest
    ensures b <= rest
  {
    assert b == (head + b)[|head|..] && rest == (head + rest)[|head|..];
    assert |b| <= |rest|;
    forall i | 0 <= i < |b| ensures b[i] == rest[i] {
      assert (head + b)[|head| + i] == (head + rest)[|head| + i];
    }
  }

  /// Bytes that continue the k finished messages start with message k.
  lemma NextMessage(msgs: seq<seq<byte>>, b: seq<byte>, k: nat)
    requires forall m | m in msgs :: |m| <= MAX_SIZE
    requires k <= |msgs| && b <= Stream(msgs[k..]) && Ready(b)
    ensures k < |msgs| && SizeField(b) == |msgs[k]| && b[4..|msgs[k]| + 4] == msgs[k]
    ensures FrameOf(msgs[k]) + b[|msgs[k]| + 4..] == b
  {
    var m := msgs[k];
    assert m in msgs && msgs[k..][0] == m && msgs[k..][1..] == msgs[k+1..];
    FrontFrame(m, Stream(msgs[k+1..]), b);
    assert b[..4] == ToBigEndian(|m|, 4);
  }

  lemma NewBytesContinue(msgs: seq<seq<byte>>, s: State, received: seq<byte>, chunk: seq<byte>, k: nat)
    requires Account(msgs, s, received, k) && received + chunk <= Stream(msgs)
    ensures s.buffer + chunk <= Stream(msgs[k..])
    ensures Stream(msgs[..k]) + (s.buffer + chunk) == received + chunk
  {
    var head := Stream(msgs[..k]);
    assert head + (s.buffer + chunk) == head + s.buffer + chunk;
    StreamSplit(msgs, k);
    CancelPrefix(head, s.buffer + chunk, Stream(msgs[k..]));
  }

  lemma OneMoreHandled(msgs: seq<seq<byte>>, b: seq<byte>, k: nat)
    requires forall m | m in msgs :: |m| <= MAX_SIZE
    requires k <= |msgs| && b <= Stream(msgs[k..]) && Ready(b)
    ensures k < |msgs| && msgs[..k] + [b[4..SizeField(b) + 4]] == msgs[..k+1]
    ensures Stream(msgs[..k+1]) + b[SizeField(b) + 4..] == Stream(msgs[..k]) + b
  {
    NextMessage(msgs, b, k);
    StreamSnoc(msgs, k);
    Assoc(Stream(msgs[..k]), FrameOf(msgs[k]), b[|msgs[k]| + 4..]);
  }

  lemma HandleAccounts(msgs: seq<seq<byte>>, b: seq<byte>, received: seq<byte>, k: nat)
    requires forall m | m in msgs :: |m| <= MAX_SIZE
    requires k <= |msgs| && b <= Stream(msgs[k..]) && Stream(msgs[..k]) + b == received
    ensures Account(msgs, Handle(b, msgs[..k]), received, if Ready(b) then k + 1 else k)
  {
    if Ready(b) { OneMoreHandled(msgs, b, k); }
  }

  lemma StepAccounts(msgs: seq<seq<byte>>, s: State, received: seq<byte>, chunk: seq<byte>, k: nat)
    requires forall m | m in msgs :: |m| <= MAX_SIZE
    requires Account(msgs, s, received, k) && received + chunk <= Stream(msgs)
    ensures Account(msgs, Read(s, chunk), received + chunk, if Ready(s.buffer + chunk) then k + 1 else k)
  {
    NewBytesContinue(msgs, s, received, chunk, k);
    HandleAccounts(msgs, s.buffer + chunk, received + chunk, k);
  }

  /** However a stream of sent messages is cut into reads, the handled messages are a prefix of the sent
      ones, and consumed bytes followed by the buffer are exactly what was received. */
  lemma {:induction false} HandledIsPrefix(msgs: seq<seq<byte>>, chunks: seq<seq<byte>>)
    requires forall m | m in msgs :: |m| <= MAX_SIZE
    requires Joined(chunks) <= Stream(msgs)
    ensures var s := ReadAll(State([], []), chunks);
            Account(msgs, s, Joined(chunks), |s.handled|)
  {
    if chunks == [] {
      assert msgs[..0] == [] && Stream([]) + [] == [];
    } else {
      var n := |chunks| - 1;
      var before := chunks[..n];
      assert Joined(before) <= Joined(chunks) <= Stream(msgs);
      HandledIsPrefix(msgs, before);
      var s := ReadAll(State([], []), before);
      StepAccounts(msgs, s, Joined(before), chunks[n], |s.handled|);
    }
  }

  // ----- when a message is handled -----

  /// The bytes that must have arrived from the start of message m: its frame, and five at least, since four
  /// bytes alone are never looked at.
  function Need(m: seq<byte>): nat { if m == [] then 5 else |m| + 4 }

  lemma ReadyExactly(msgs: seq<seq<byte>>, b: seq<byte>)
    requires forall m | m in msgs :: |m| <= MAX_SIZE
    requires b <= Stream(msgs)
    ensures Ready(b) <==> msgs != [] && |b| >= Need(msgs[0])
  {
    if msgs != [] && |b| > 4 {
      assert msgs[0] in msgs;
      FrontFrame(msgs[0], Stream(msgs[1..]), b);
    }
  }

  /** One read handles one message. Exactly when that leaves a complete second message waiting in the buffer:
      when the bytes it needs had arrived too. */
  lemma SecondMessageWaits(msgs: seq<seq<byte>>, b: seq<byte>, handled: seq<seq<byte>>)
    requires forall m | m in msgs :: |m| <= MAX_SIZE
    requires b <= Stream(msgs) && Ready(b)
    ensures msgs != [] && Handle(b, handled).handled == handled + [msgs[0]]
    ensures Ready(Handle(b, handled).buffer) <==> |msgs| >= 2 && |b| >= |FrameOf(msgs[0])| + Need(msgs[1])
  {
    assert msgs[0..] == msgs;
    NextMessage(msgs, b, 0);
    var rest := b[|msgs[0]| + 4..];
    CancelPrefix(FrameOf(msgs[0]), rest, Stream(msgs[1..]));
    assert forall m | m in msgs[1..] :: m in msgs;
    ReadyExactly(msgs[1..], rest);
  }

  /// How much of the stream must have arrived before message k can be handled.
  function Due(msgs: seq<seq<byte>>, k: nat): nat
    requires k < |msgs|
  {
    |Stream(msgs[..k])| + Need(msgs[k])
  }

  /// How many of the reads end at or after stream position t.
  function ReadsFrom(chunks: seq<seq<byte>>, t: nat): nat {
    if chunks == [] then 0
    else ReadsFrom(chunks[..|chunks|-1], t) + (if |Joined(chunks)| >= t then 1 else 0)
  }

  lemma {:induction false} DueGrows(msgs: seq<seq<byte>>, k: nat, j: nat)
    requires k <= j < |msgs|
    ensures Due(msgs, k) <= Due(msgs, j)
    decreases j - k
  {
    if k < j {
      DueGrows(msgs, k, j - 1);
      StreamSnoc(msgs, j - 1);
    }
  }

  /// A read handles the next message exactly when all that is due for it has arrived.
  lemma HandlesWhenDue(msgs: seq<seq<byte>>, s: State, received: seq<byte>, chunk: seq<byte>)
    requires forall m | m in msgs :: |m| <= MAX_SIZE
    requires Account(msgs, s, received, |s.handled|) && received + chunk <= Stream(msgs)
    ensures var h := |s.handled|;
            |Read(s, chunk).handled| ==
              if h < |msgs| && |received + chunk| >= Due(msgs, h) then h + 1 else h
  {
    var h := |s.handled|;
    NewBytesContinue(msgs, s, received, chunk, h);
    assert forall m | m in msgs[h..] :: m in msgs;
    ReadyExactly(msgs[h..], s.buffer + chunk);
  }

  /// How many messages the reads have handled.
  function HandledCount(chunks: seq<seq<byte>>): nat { |ReadAll(State([], []), chunks).handled| }

  /// Every message k up to j has had j - k reads since it was due.
  ghost predicate EnoughReads(msgs: seq<seq<byte>>, chunks: seq<seq<byte>>, j: nat)
    requires j <= |msgs|
  {
    forall k: nat | k < j :: ReadsFrom(chunks, Due(msgs, k)) >= j - k
  }

  /** Exactly when messages get handled: after the reads `chunks` at least j messages have been handled if and
      only if for every k < j at least j - k reads ended when message k was due or later. */
  lemma {:induction false} HandledExactly(msgs: seq<seq<byte>>, chunks: seq<seq<byte>>, j: nat)
    requires forall m | m in msgs :: |m| <= MAX_SIZE
    requires Joined(chunks) <= Stream(msgs) && j <= |msgs|
    ensures HandledCount(chunks) >= j <==> EnoughReads(msgs, chunks, j)
    decreases |chunks|
  {
    if chunks == [] {
      if j > 0 { assert ReadsFrom(chunks, Due(msgs, 0)) == 0; }
    } else if j > 0 {
      var before := chunks[..|chunks|-1];
      LastHandled(msgs, chunks);
      HandledExactly(msgs, before, j);
      HandledExactly(msgs, before, j - 1);
      CountStep(msgs, chunks, j, HandledCount(before), HandledCount(chunks));
    }
  }

  lemma CountStep(msgs: seq<seq<byte>>, chunks: seq<seq<byte>>, j: nat, before: nat, after: nat)
    requires chunks != [] && 0 < j <= |msgs|
    requires after == if before < |msgs| && |Joined(chunks)| >= Due(msgs, before) then before + 1 else before
    requires before >= j <==> EnoughReads(msgs, chunks[..|chunks|-1], j)
    requires before >= j - 1 <==> EnoughReads(msgs, chunks[..|chunks|-1], j - 1)
    ensures after >= j <==> EnoughReads(msgs, chunks, j)
  {
    LastRead(msgs, chunks, j);
  }

  lemma LastHandled(msgs: seq<seq<byte>>, chunks: seq<seq<byte>>)
    requires forall m | m in msgs :: |m| <= MAX_SIZE
    requires chunks != [] && Joined(chunks) <= Stream(msgs)
    ensures Joined(chunks[..|chunks|-1]) <= Stream(msgs)
    ensures var h := HandledCount(chunks[..|chunks|-1]);
            HandledCount(chunks) == if h < |msgs| && |Joined(chunks)| >= Due(msgs, h) then h + 1 else h
  {
    var n := |chunks| - 1;
    var before := chunks[..n];
    assert Joined(before) <= Joined(chunks) <= Stream(msgs);
    HandledIsPrefix(msgs, before);
    HandlesWhenDue(msgs, ReadAll(State([], []), before), Joined(before), chunks[n]);
  }

  /// What the last read contributes to the count.
  lemma LastRead(msgs: seq<seq<byte>>, chunks: seq<seq<byte>>, j: nat)
    requires chunks != [] && 0 < j <= |msgs|
    ensures EnoughReads(msgs, chunks[..|chunks|-1], j) ==> EnoughReads(msgs, chunks, j)
    ensures |Joined(chunks)| >= Due(msgs, j - 1) ==>
      (EnoughReads(msgs, chunks[..|chunks|-1], j - 1) <==> EnoughReads(msgs, chunks, j))
    ensures |Joined(chunks)| < Due(msgs, j - 1) ==> !EnoughReads(msgs, chunks, j)
  {
    var before := chunks[..|chunks|-1];
    forall k: nat | k < j ensures Due(msgs, k) <= Due(msgs, j - 1) { DueGrows(msgs, k, j - 1); }
    if |Joined(chunks)| < Due(msgs, j - 1) {
      NoReadsYet(chunks, Due(msgs, j - 1));
      assert ReadsFrom(chunks, Due(msgs, j - 1)) == 0;
    } else {
      assert forall k: nat | k < j :: ReadsFrom(chunks, Due(msgs, k)) == ReadsFrom(before, Due(msgs, k)) + 1;
    }
  }

  lemma {:induction false} NoReadsYet(chunks: seq<seq<byte>>, t: nat)
    requires |Joined(chunks)| < t
    ensures ReadsFrom(chunks, t) == 0
  {
    if chunks != [] { NoReadsYet(chunks[..|chunks|-1], t); }
  }

  /** All of the messages are handled exactly when the rule holds for their number. */
  lemma AllHandledExactly(msgs: seq<seq<byte>>, chunks: seq<seq<byte>>)
    requires forall m | m in msgs :: |m| <= MAX_SIZE
    requires Joined(chunks) <= Stream(msgs)
    ensures ReadAll(State([], []), chunks).handled == msgs <==> EnoughReads(msgs, chunks, |msgs|)
  {
    HandledIsPrefix(msgs, chunks);
    HandledExactly(msgs, chunks, |msgs|);
    assert msgs[..|msgs|] == msgs;
  }

  // ----- size fields from the peer -----

  /// The completeness test adds in 32 bits.
  predicate PassesTest(b: seq<byte>) { |b| > 4 && |b| >= (SizeField(b) + 4) % 0x1_0000_0000 }

  /// The slice handed to the parser ends inside the buffer.
  predicate SliceInside(b: seq<byte>) { |b| > 4 && SizeField(b) + 4 <= |b| }

  /** For a buffer below 2 GiB, the test lets a slice through that reaches beyond the buffer exactly when the
      size field is above MAX_SIZE. */
  lemma SliceExactly(b: seq<byte>)
    requires 4 < |b| < 0x8000_0000
    ensures PassesTest(b) && !SliceInside(b) <==> SizeField(b) > MAX_SIZE
    ensures SizeField(b) <= MAX_SIZE ==> (PassesTest(b) <==> Ready(b))
  {
    Pow256Of4();
    BigEndianBound(b[..4]);
  }

  class ProtoClientConnection {
    var receiveBuffer: seq<byte>
    ghost var handled: seq<seq<byte>>
    ghost var written: seq<byte>

    constructor ()
      ensures receiveBuffer == [] && handled == [] && written == []
    {
      receiveBuffer := [];
      handled, written := [], [];
    }

    method ReadData(chunk: seq<byte>)
      requires PassesTest(receiveBuffer + chunk) ==> SliceInside(receiveBuffer + chunk)
      modifies this`receiveBuffer, this`handled
      ensures State(receiveBuffer, handled) == Read(State(old(receiveBuffer), old(handled)), chunk)
    {
      receiveBuffer := receiveBuffer + chunk;
      // too short for a size field and anything after it
      if |receiveBuffer| <= 4 {
        return;
      }
      FourOctets(receiveBuffer[..4]);
      var b0: int, b1: int, b2: int, b3: int := receiveBuffer[0], receiveBuffer[1], receiveBuffer[2], receiveBuffer[3];
      var messageSize := b0 * 0x100_0000 + b1 * 0x1_0000 + b2 * 0x100 + b3;
      // the sum is a 32-bit one
      if |receiveBuffer| < (messageSize + 4) % 0x1_0000_0000 {
        return;
      }
      handled := handled + [receiveBuffer[4..messageSize + 4]];
      receiveBuffer := receiveBuffer[messageSize + 4..];
    }

    method SendMessage(serializedReply: seq<byte>)
      modifies this`written
      ensures written == old(written) + FrameOf(serializedReply)
    {
      var size := |serializedReply|;
      var sizeData := [size / 0x100_0000 % 256, size / 0x1_0000 % 256, size / 0x100 % 256, size % 256];
      FourBytes(size);
      written := written + sizeData;
      written := written + serializedReply;
    }
  }
}
