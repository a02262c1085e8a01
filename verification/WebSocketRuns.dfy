/** Runs of reads after the handshake: which messages are handed over, and which are lost. */
module WebSocketRuns {
  import opened Colors
  import opened Sequences
  import opened WebSocketFrames

  const CLOSE: byte := 8
  const PING: byte := 9

  /// The connection in WebSocket mode: buffered bytes, messages handed over, bytes written back.
  datatype Socket = Socket(buffer: seq<byte>, messages: seq<seq<byte>>, written: seq<byte>)

  /// What is written back for a frame that is no final text frame.
  function Answer(b: seq<byte>): seq<byte>
    requires |b| >= 1
  {
    if !Final(b) || OpCode(b) == CLOSE then [0x88, 0] else if OpCode(b) == PING then [0x0A, 0] else []
  }

  /** The answers by first octet: a ping is answered with a pong that lacks the final bit, a close and any frame
      that is not final with a close, everything else with nothing. */
  lemma AnswerOctets(b: seq<byte>)
    requires |b| >= 1
    ensures b[0] == 0x89 ==> Answer(b) == [0x0A, 0x00]
    ensures b[0] == 0x88 || b[0] < 0x80 ==> Answer(b) == [0x88, 0x00]
    ensures b[0] >= 0x80 && b[0] % 16 != 8 && b[0] % 16 != 9 ==> Answer(b) == []
  {}

  /// A text frame is handed over and the whole buffer dropped; any other frame is answered and kept.
  function HandleFrame(s: Socket): Socket
    requires Readable(s.buffer)
  {
    if IsText(s.buffer) then Socket([], s.messages + [TextOf(s.buffer)], s.written)
    else s.(written := s.written + Answer(s.buffer))
  }

  function ReadFrame(s: Socket, chunk: seq<byte>): Socket
    requires Readable(s.buffer + chunk)
  {
    HandleFrame(s.(buffer := s.buffer + chunk))
  }

  /// No read ends inside a header or a text frame.
  predicate CanRead(s: Socket, chunks: seq<seq<byte>>)
    decreases |chunks|
  {
    chunks == [] || (Readable(s.buffer + chunks[0]) && CanRead(ReadFrame(s, chunks[0]), chunks[1..]))
  }

  function ReadAll(s: Socket, chunks: seq<seq<byte>>): Socket
    requires CanRead(s, chunks)
    decreases |chunks|
  {
    if chunks == [] then s else ReadAll(ReadFrame(s, chunks[0]), chunks[1..])
  }

  // ----- a frame that is not a text -----

  /// A frame other than a final text frame stands at the front, with its header.
  predicate Stuck(b: seq<byte>) { Readable(b) && !IsText(b) }

  /// What arrives behind it changes nothing about the frame at the front.
  lemma StaysStuck(b: seq<byte>, c: seq<byte>)
    requires Stuck(b)
    ensures Stuck(b + c) && Answer(b + c) == Answer(b)
  {
    var d := b + c;
    assert d[0] == b[0];
    if Final(b) {
      assert d[1] == b[1] && LengthBytes(d) == LengthBytes(b);
      assert d[2..2 + LengthBytes(d)] == b[2..2 + LengthBytes(b)];
    }
  }

  function Times(s: seq<byte>, n: nat): seq<byte> { if n == 0 then [] else s + Times(s, n - 1) }

  /** Once such a frame stands at the front nothing is ever handed over again: every further read is
      possible, only adds to the buffer and writes the same answer once more. */
  lemma {:induction false} StuckForever(s: Socket, chunks: seq<seq<byte>>)
    requires Stuck(s.buffer)
    ensures CanRead(s, chunks)
    ensures var r := ReadAll(s, chunks);
            && r.messages == s.messages && r.buffer == s.buffer + Joined(chunks)
            && r.written == s.written + Times(Answer(s.buffer), |chunks|)
    decreases |chunks|
  {
    if chunks != [] {
      StaysStuck(s.buffer, chunks[0]);
      var t := ReadFrame(s, chunks[0]);
      StuckForever(t, chunks[1..]);
      JoinedCons(chunks[0], chunks[1..]);
      assert [chunks[0]] + chunks[1..] == chunks;
      Assoc(s.buffer, chunks[0], Joined(chunks[1..]));
      Assoc(s.written, Answer(s.buffer), Times(Answer(s.buffer), |chunks| - 1));
    } else {
      assert s.buffer + [] == s.buffer && s.written + [] == s.written;
    }
  }

  // ----- reads that end at frame borders -----

  /// What a peer sends: a text message in any form, or any other frame, given by its bytes.
  datatype Sent =
    | Text(payload: seq<byte>, form: LengthForm, masking: Masking)
    | Other(bytes: seq<byte>)
  {
    predicate Valid() {
      match this
      case Text(payload, form, masking) => Fits(|payload|, form) && (masking.Masked? ==> |masking.key| == 4)
      case Other(bytes) => Stuck(bytes)
    }

    function Bytes(): seq<byte>
      requires Valid()
    {
      match this
      case Text(payload, form, masking) => TextFrame(payload, form, masking)
      case Other(bytes) => bytes
    }
  }

  predicate WholeFrames(frames: seq<Sent>) { forall i | 0 <= i < |frames| :: frames[i].Valid() }

  /// The bytes of frames that arrive in one read.
  function Together(frames: seq<Sent>): seq<byte>
    requires WholeFrames(frames)
  {
    if frames == [] then [] else frames[0].Bytes() + Together(frames[1..])
  }

  predicate AtBorders(arrivals: seq<seq<Sent>>) {
    forall i | 0 <= i < |arrivals| :: arrivals[i] != [] && WholeFrames(arrivals[i])
  }

  function Chunks(arrivals: seq<seq<Sent>>): seq<seq<byte>>
    requires AtBorders(arrivals)
  {
    seq(|arrivals|, i requires 0 <= i < |arrivals| && AtBorders(arrivals) => Together(arrivals[i]))
  }

  /// The text messages among the frames, in order.
  function TextsIn(frames: seq<Sent>): seq<seq<byte>> {
    if frames == [] then [] else (if frames[0].Text? then [frames[0].payload] else []) + TextsIn(frames[1..])
  }

  function AllTexts(arrivals: seq<seq<Sent>>): seq<seq<byte>> {
    if arrivals == [] then [] else TextsIn(arrivals[0]) + AllTexts(arrivals[1..])
  }

  /// The texts at the front of the reads, up to the first read that starts with another frame.
  function FrontTexts(arrivals: seq<seq<Sent>>): seq<seq<byte>>
    requires AtBorders(arrivals)
  {
    if arrivals == [] || arrivals[0][0].Other? then [] else [arrivals[0][0].payload] + FrontTexts(arrivals[1..])
  }

  lemma OneRead(frames: seq<Sent>, messages: seq<seq<byte>>, written: seq<byte>)
    requires frames != [] && WholeFrames(frames)
    ensures var b := Together(frames);
            && [] + b == b && Readable(b)
            && ReadFrame(Socket([], messages, written), b) ==
               match frames[0]
               case Text(payload, _, _) => Socket([], messages + [payload], written)
               case Other(_) => Socket(b, messages, written + Answer(b))
    ensures frames[0].Other? ==> Stuck(Together(frames))
  {
    var b, rest := Together(frames), Together(frames[1..]);
    assert [] + b == b;
    match frames[0]
    case Text(payload, form, masking) => TextFrameDecodes(payload, form, masking, rest);
    case Other(bytes) => StaysStuck(bytes, rest);
  }

  /** What a run of such reads hands over. */
  lemma {:induction false} RunHandsOver(arrivals: seq<seq<Sent>>, messages: seq<seq<byte>>, written: seq<byte>)
    requires AtBorders(arrivals)
    ensures CanRead(Socket([], messages, written), Chunks(arrivals))
    ensures ReadAll(Socket([], messages, written), Chunks(arrivals)).messages == messages + FrontTexts(arrivals)
    decreases |arrivals|
  {
    if arrivals == [] {
      assert messages + [] == messages;
    } else {
      var chunks := Chunks(arrivals);
      assert chunks[1..] == Chunks(arrivals[1..]);
      OneRead(arrivals[0], messages, written);
      match arrivals[0][0]
      case Text(payload, _, _) =>
        RunHandsOver(arrivals[1..], messages + [payload], written);
        Assoc(messages, [payload], FrontTexts(arrivals[1..]));
      case Other(_) =>
        StuckForever(ReadFrame(Socket([], messages, written), chunks[0]), chunks[1..]);
        assert messages + [] == messages;
    }
  }

  /// Every read up to the first one that starts with another frame holds one text, at its front, and no text
  /// arrives from there on.
  predicate NothingMissed(arrivals: seq<seq<Sent>>)
    requires AtBorders(arrivals)
  {
    arrivals == [] ||
    if arrivals[0][0].Other? then AllTexts(arrivals) == []
    else TextsIn(arrivals[0][1..]) == [] && NothingMissed(arrivals[1..])
  }

  lemma {:induction false} FrontTextsExactly(arrivals: seq<seq<Sent>>)
    requires AtBorders(arrivals)
    ensures |FrontTexts(arrivals)| <= |AllTexts(arrivals)|
    ensures FrontTexts(arrivals) == AllTexts(arrivals) <==> NothingMissed(arrivals)
    decreases |arrivals|
  {
    if arrivals != [] && arrivals[0][0].Text? {
      FrontTextsExactly(arrivals[1..]);
      var first, more := [arrivals[0][0].payload], TextsIn(arrivals[0][1..]);
      FirstThenMore(first, more, FrontTexts(arrivals[1..]), AllTexts(arrivals[1..]));
    }
  }

  lemma FirstThenMore<T>(first: seq<T>, more: seq<T>, front: seq<T>, all: seq<T>)
    requires |front| <= |all|
    ensures first + front == first + more + all <==> more == [] && front == all
  {
    if first + front == first + more + all {
      assert (first + front)[|first|..] == front;
      assert (first + more + all)[|first|..] == more + all;
    }
  }

  /** Exactly when nothing is lost: of reads that end at frame borders, the text messages are all handed over,
      intact and in order, if and only if each read that counts holds one text and none comes too late. */
  lemma DeliveredExactly(arrivals: seq<seq<Sent>>)
    requires AtBorders(arrivals)
    ensures CanRead(Socket([], [], []), Chunks(arrivals))
    ensures ReadAll(Socket([], [], []), Chunks(arrivals)).messages == AllTexts(arrivals) <==> NothingMissed(arrivals)
  {
    RunHandsOver(arrivals, [], []);
    FrontTextsExactly(arrivals);
    assert [] + FrontTexts(arrivals) == FrontTexts(arrivals);
  }

  predicate OnlyTexts(arrivals: seq<seq<Sent>>) {
    forall i, j | 0 <= i < |arrivals| && 0 <= j < |arrivals[i]| :: arrivals[i][j].Text?
  }

  predicate OneEach(arrivals: seq<seq<Sent>>) { forall i | 0 <= i < |arrivals| :: |arrivals[i]| == 1 }

  /** When only texts are sent, that is: every read holds exactly one frame. */
  lemma {:induction false} TextsMissedExactly(arrivals: seq<seq<Sent>>)
    requires AtBorders(arrivals) && OnlyTexts(arrivals)
    ensures NothingMissed(arrivals) <==> OneEach(arrivals)
    decreases |arrivals|
  {
    if arrivals != [] {
      var first, rest := arrivals[0], arrivals[1..];
      assert forall i | 0 <= i < |rest| :: rest[i] == arrivals[i + 1];
      TextsMissedExactly(rest);
      if |first| > 1 { assert first[1..][0].Text?; }
      assert OneEach(arrivals) <==> |first| == 1 && OneEach(rest);
    }
  }

  /** A ping before a text: the text is never handed over, whatever is read afterwards. */
  lemma PingSwallowsText(payload: seq<byte>, later: seq<seq<byte>>)
    requires |payload| < 126
    ensures var chunks := [[0x89, 0x00], TextFrame(payload, Short, Plain)] + later;
            && CanRead(Socket([], [], []), chunks)
            && ReadAll(Socket([], [], []), chunks).messages == []
  {
    var ping: seq<byte> := [0x89, 0x00];
    var chunks := [ping, TextFrame(payload, Short, Plain)] + later;
    var s := Socket([], [], []);
    assert [] + ping == ping && Stuck(ping);
    StuckForever(ReadFrame(s, ping), chunks[1..]);
  }
}
