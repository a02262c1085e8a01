/** WebSocket frames (RFC 6455, sections 5.2 and 5.3). */
module WebSocketFrames {
  import opened Colors
  import opened Octets

  const TEXT: byte := 1

  datatype LengthForm = Short | Medium | Long

  predicate Fits(n: nat, form: LengthForm) {
    match form
    case Short => n < 126
    case Medium => n < 0x1_0000
    case Long => n < 0x8000_0000
  }

  function LengthCode(n: nat, form: LengthForm): byte
    requires Fits(n, form)
  {
    match form case Short => n case Medium => 126 case Long => 127
  }

  function Extended(n: nat, form: LengthForm): seq<byte> {
    match form case Short => [] case Medium => ToBigEndian(n, 2) case Long => ToBigEndian(n, 8)
  }

  /// Octet i of the payload is combined with byte i mod 4 of the key.
  function Mask(s: seq<byte>, key: seq<byte>): seq<byte>
    requires |key| == 4
  {
    seq(|s|, i requires 0 <= i < |s| => Xor(s[i], key[i % 4]))
  }

  /** Masking twice with one key gives the payload back. */
  lemma MaskInvolution(s: seq<byte>, key: seq<byte>)
    requires |key| == 4
    ensures Mask(Mask(s, key), key) == s
  {
    forall i | 0 <= i < |s| ensures Mask(Mask(s, key), key)[i] == s[i] { XorTwice(s[i], key[i % 4]); }
  }

  /** Bit k of a masked octet differs from the payload's exactly where the key's octet, the keys taken in
      turn, has a one. */
  lemma MaskBits(s: seq<byte>, key: seq<byte>, j: nat, k: nat)
    requires |key| == 4 && j < |s| && k < 8
    ensures Bit(Mask(s, key)[j], k) == (if Bit(s[j], k) == Bit(key[j % 4], k) then 0 else 1)
  {
    XorBitsAt(s[j], key[j % 4], 8, k);
  }

  datatype Masking = Plain | Masked(key: seq<byte>)

  /// A final text frame as section 5.2 lays it out.
  function TextFrame(payload: seq<byte>, form: LengthForm, masking: Masking): seq<byte>
    requires Fits(|payload|, form) && (masking.Masked? ==> |masking.key| == 4)
  {
    [0x81, (if masking.Masked? then 0x80 else 0) + LengthCode(|payload|, form)] + Extended(|payload|, form)
    + (match masking case Plain => payload case Masked(key) => key + Mask(payload, key))
  }

  /** The octets of a frame: final bit and opcode 1, mask bit and length, the longer lengths, the key and the
      payload. */
  lemma ShortFrame(payload: seq<byte>, key: seq<byte>)
    requires |key| == 4 && |payload| < 126
    ensures TextFrame(payload, Short, Plain) == [0x81, |payload|] + payload
    ensures TextFrame(payload, Short, Masked(key)) == [0x81, 0x80 + |payload|] + key + Mask(payload, key)
  {}

  lemma MediumFrame(payload: seq<byte>, key: seq<byte>)
    requires |key| == 4 && |payload| < 0x1_0000
    ensures var head := [|payload| / 256 % 256, |payload| % 256];
            && TextFrame(payload, Medium, Plain) == [0x81, 126] + head + payload
            && TextFrame(payload, Medium, Masked(key)) == [0x81, 0x80 + 126] + head + (key + Mask(payload, key))
  {
    TwoBytes(|payload|);
  }

  lemma LongFrame(payload: seq<byte>, key: seq<byte>, octets: nat)
    requires |key| == 4 && |payload| < 0x8000_0000 && octets == 8
    ensures var head := ToBigEndian(|payload|, octets);
            && TextFrame(payload, Long, Plain) == [0x81, 127] + head + payload
            && TextFrame(payload, Long, Masked(key)) == [0x81, 0x80 + 127] + head + (key + Mask(payload, key))
  {}

  // ----- decoding -----

  // The bit tests of the header octets: & 0x80, & 0x0F and & 0x7F.
  predicate Final(b: seq<byte>) requires |b| >= 1 { b[0] / 0x80 == 1 }
  predicate IsMasked(b: seq<byte>) requires |b| >= 2 { b[1] / 0x80 == 1 }
  function OpCode(b: seq<byte>): byte requires |b| >= 1 { b[0] % 0x10 }
  function Code(b: seq<byte>): byte requires |b| >= 2 { b[1] % 0x80 }

  function LengthBytes(b: seq<byte>): nat requires |b| >= 2 {
    if Code(b) == 126 then 2 else if Code(b) == 127 then 8 else 0
  }

  /// Where the payload starts.
  function PayloadStart(b: seq<byte>): nat requires |b| >= 2 {
    2 + LengthBytes(b) + if IsMasked(b) then 4 else 0
  }

  function PayloadLength(b: seq<byte>): nat
    requires |b| >= 2 && |b| >= 2 + LengthBytes(b)
  {
    if LengthBytes(b) == 0 then Code(b) else BigEndian(b[2..2 + LengthBytes(b)])
  }

  /// A complete frame stands at the front of the buffer.
  predicate Complete(b: seq<byte>) {
    && |b| >= 2 && |b| >= PayloadStart(b)
    && PayloadLength(b) < 0x8000_0000 && |b| >= PayloadStart(b) + PayloadLength(b)
  }

  /// What the frame handler looks at is there: one octet of a frame that is not final, the header of any
  /// other frame, and all of a text frame.
  predicate Readable(b: seq<byte>) {
    && |b| >= 1
    && (Final(b) ==> |b| >= 2 && |b| >= PayloadStart(b) && PayloadLength(b) < 0x8000_0000)
    && (Final(b) && OpCode(b) == TEXT ==> Complete(b))
  }

  predicate IsText(b: seq<byte>) { Complete(b) && Final(b) && OpCode(b) == TEXT }

  /// The message that a complete text frame carries.
  function TextOf(b: seq<byte>): seq<byte>
    requires Complete(b)
  {
    var body := b[PayloadStart(b)..PayloadStart(b) + PayloadLength(b)];
    if IsMasked(b) then Mask(body, b[PayloadStart(b) - 4..PayloadStart(b)]) else body
  }

  lemma FrameHeader(payload: seq<byte>, form: LengthForm, masking: Masking, rest: seq<byte>)
    requires Fits(|payload|, form) && (masking.Masked? ==> |masking.key| == 4)
    ensures var b := TextFrame(payload, form, masking) + rest;
            && |b| >= 2 && Final(b) && OpCode(b) == TEXT && (IsMasked(b) <==> masking.Masked?)
            && Code(b) == LengthCode(|payload|, form) && LengthBytes(b) == |Extended(|payload|, form)|
            && |b| >= 2 + LengthBytes(b) && b[2..2 + LengthBytes(b)] == Extended(|payload|, form)
  {
  }

  lemma LengthDecodes(n: nat, form: LengthForm)
    requires Fits(n, form) && form != Short
    ensures BigEndian(Extended(n, form)) == n
  {
    assert Pow256(2) == 0x1_0000;
    assert Pow256(4) == 0x1_0000_0000;
    assert Pow256(8) >= Pow256(4);
    BigEndianRoundTrip(n, if form == Medium then 2 else 8);
  }

  lemma FrameLength(payload: seq<byte>, form: LengthForm, masking: Masking, rest: seq<byte>)
    requires Fits(|payload|, form) && (masking.Masked? ==> |masking.key| == 4)
    ensures var b := TextFrame(payload, form, masking) + rest;
            && |b| >= 2 && |b| >= 2 + LengthBytes(b) && PayloadLength(b) == |payload|
            && PayloadStart(b) + |payload| == |TextFrame(payload, form, masking)|
  {
    FrameHeader(payload, form, masking, rest);
    if form != Short { LengthDecodes(|payload|, form); }
  }

  lemma FrameBody(payload: seq<byte>, form: LengthForm, masking: Masking, rest: seq<byte>, at: nat)
    requires Fits(|payload|, form) && (masking.Masked? ==> |masking.key| == 4)
    requires at + |payload| == |TextFrame(payload, form, masking)|
    ensures var b := TextFrame(payload, form, masking) + rest;
            && (masking == Plain ==> b[at..at + |payload|] == payload)
            && (masking.Masked? ==> at >= 4 && b[at - 4..at] == masking.key
                                    && b[at..at + |payload|] == Mask(payload, masking.key))
  {
    var b := TextFrame(payload, form, masking) + rest;
    var head := [b[0], b[1]] + Extended(|payload|, form);
    match masking
    case Plain =>
      assert b == head + ([] + payload) + rest;
      MiddlePart(b, head, [], payload, rest);
    case Masked(key) =>
      assert b == head + (key + Mask(payload, key)) + rest;
      MiddlePart(b, head, key, Mask(payload, key), rest);
  }

  /** Every complete text frame, masked or not, with a 7-, 16- or 64-bit length, decodes to its payload,
      whatever follows it in the buffer. */
  lemma TextFrameDecodes(payload: seq<byte>, form: LengthForm, masking: Masking, rest: seq<byte>)
    requires Fits(|payload|, form) && (masking.Masked? ==> |masking.key| == 4)
    ensures var b := TextFrame(payload, form, masking) + rest;
            && Complete(b) && Final(b) && OpCode(b) == TEXT && TextOf(b) == payload
            && PayloadStart(b) + PayloadLength(b) == |TextFrame(payload, form, masking)|
  {
    var b := TextFrame(payload, form, masking) + rest;
    FrameHeader(payload, form, masking, rest);
    FrameLength(payload, form, masking, rest);
    FrameBody(payload, form, masking, rest, PayloadStart(b));
    if masking.Masked? { MaskInvolution(payload, masking.key); }
  }

  lemma MiddlePart(b: seq<byte>, head: seq<byte>, key: seq<byte>, body: seq<byte>, rest: seq<byte>)
    requires b == head + (key + body) + rest
    ensures b[|head|..|head| + |key|] == key && b[|head| + |key|..|head| + |key| + |body|] == body
  {}

  // ----- the frame sent by the server -----

  /// The reply frame: sizes above 125 are written with two length bytes.
  function SendFrame(reply: seq<byte>): seq<byte> {
    var size := |reply|;
    [0x81] + (if size > 125 then [0x7E, size / 256 % 256, size % 256] else [size]) + reply
  }

  /** A sent frame is the RFC's unmasked text frame, and decodes to the reply, exactly when the reply has
      at most 65535 bytes. */
  lemma SentFrameRoundTrip(reply: seq<byte>)
    ensures |reply| <= 0xFFFF ==>
      SendFrame(reply) == TextFrame(reply, if |reply| > 125 then Medium else Short, Plain)
    ensures Complete(SendFrame(reply))
    ensures TextOf(SendFrame(reply)) == reply <==> |reply| <= 0xFFFF
  {
    var size, f := |reply|, SendFrame(reply);
    if size <= 0xFFFF {
      SentIsTextFrame(reply);
      TextFrameDecodes(reply, if size > 125 then Medium else Short, Plain, []);
      assert f + [] == f;
    } else {
      LongReplyHeader(reply);
    }
  }

  lemma SentIsTextFrame(reply: seq<byte>)
    requires |reply| <= 0xFFFF
    ensures SendFrame(reply) == TextFrame(reply, if |reply| > 125 then Medium else Short, Plain)
  {
    var size := |reply|;
    if size > 125 {
      TwoBytes(size);
    }
  }

  lemma LowBytes(x: nat)
    ensures x % 0x1_0000 / 256 % 256 == x / 256 % 256 && x % 0x1_0000 % 256 == x % 256
  {
    var q, r := x / 0x1_0000, x % 0x1_0000;
    assert x == 256 * (256 * q) + r;
    assert x / 256 == 256 * q + r / 256;
  }

  /** Above 65535 bytes the length field keeps only the lowest 16 bits. */
  lemma LongReplyHeader(reply: seq<byte>)
    requires |reply| > 0xFFFF
    ensures Complete(SendFrame(reply)) && TextOf(SendFrame(reply)) == reply[..|reply| % 0x1_0000]
  {
    var size, f := |reply|, SendFrame(reply);
    var low := size % 0x1_0000;
    TwoBytes(low);
    LowBytes(size);
    assert f[2..4] == ToBigEndian(low, 2);
    assert Pow256(2) == 0x1_0000;
    BigEndianRoundTrip(size % 0x1_0000, 2);
    assert PayloadStart(f) == 4 && PayloadLength(f) == size % 0x1_0000;
    assert f[4..] == reply;
  }
}
