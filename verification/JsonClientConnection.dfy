/** The JSON connection: plain socket first, WebSocket frames after the handshake. */
module JsonConnection {
  import opened Colors
  import opened Sequences
  import opened Octets
  import opened JsonLines
  import opened WebSocketFrames
  import opened WebSocketRuns

  class JsonClientConnection {
    var receiveBuffer: seq<byte>
    var webSocketHandshakeDone: bool
    /// Messages handed to the message handler, oldest first.
    ghost var handled: seq<seq<byte>>
    /// Bytes written back by the framing layer.
    ghost var written: seq<byte>

    constructor ()
      ensures receiveBuffer == [] && !webSocketHandshakeDone && handled == [] && written == []
    {
      receiveBuffer, webSocketHandshakeDone := [], false;
      handled, written := [], [];
    }

    method ReadData(chunk: seq<byte>)
      requires webSocketHandshakeDone ==> Readable(receiveBuffer + chunk)
      modifies this
      ensures !old(webSocketHandshakeDone) && !Contains(old(receiveBuffer) + chunk, UPGRADE) ==>
        && !webSocketHandshakeDone && written == old(written)
        && State(receiveBuffer, handled) == Read(State(old(receiveBuffer), old(handled)), chunk)
      ensures !old(webSocketHandshakeDone) && Contains(old(receiveBuffer) + chunk, UPGRADE) ==>
        webSocketHandshakeDone && receiveBuffer == [] && handled == old(handled)
      ensures old(webSocketHandshakeDone) ==>
        && webSocketHandshakeDone
        && Socket(receiveBuffer, handled, written) ==
           ReadFrame(Socket(old(receiveBuffer), old(handled), old(written)), chunk)
    {
      receiveBuffer := receiveBuffer + chunk;
      if webSocketHandshakeDone {
        HandleWebSocketFrame();
      } else {
        var upgrade := FindUpgrade(receiveBuffer);
        if upgrade {
          receiveBuffer := [];
          webSocketHandshakeDone := true;
        } else {
          ghost var all, before := receiveBuffer, handled;
          var bytes := IndexOf(receiveBuffer) + 1;
          while bytes > 0
            invariant bytes == IndexOf(receiveBuffer) + 1
            invariant handled + Lines(receiveBuffer) == before + Lines(all)
            invariant Tail(receiveBuffer) == Tail(all)
            invariant !webSocketHandshakeDone && written == old(written)
            decreases |receiveBuffer|
          {
            ghost var line, rest := FirstLine(receiveBuffer);
            var message := receiveBuffer[..bytes];
            Assoc(handled, [line], Lines(rest));
            receiveBuffer := receiveBuffer[bytes..];
            handled := handled + [message];
            bytes := IndexOf(receiveBuffer) + 1;
          }
        }
      }
    }

    static method FindUpgrade(s: seq<byte>) returns (found: bool)
      ensures found <==> Contains(s, UPGRADE)
    {
      var i: nat := 0;
      while i + |UPGRADE| <= |s|
        invariant forall j: nat | j < i :: !OccursAt(s, UPGRADE, j)
        decreases |s| - i
      {
        if OccursAt(s, UPGRADE, i) { return true; }
        i := i + 1;
      }
      return false;
    }

    /// One final text frame is unpacked, unmasked and handled; the whole buffer is dropped with it.
    method HandleWebSocketFrame()
      requires Readable(receiveBuffer)
      modifies this`receiveBuffer, this`handled, this`written
      ensures Socket(receiveBuffer, handled, written) ==
              HandleFrame(Socket(old(receiveBuffer), old(handled), old(written)))
    {
      ghost var b := receiveBuffer;
      if receiveBuffer[0] / 0x80 == 1 {
        var opCode := receiveBuffer[0] % 0x10;
        var isMasked := receiveBuffer[1] / 0x80 == 1;
        var payloadLength: nat := receiveBuffer[1] % 0x80;
        var index: nat := 2;
        if payloadLength == 126 {
          var hi: int, lo: int := receiveBuffer[2], receiveBuffer[3];
          payloadLength := hi * 256 + lo;
          TwoOctets(b[2..4]);
          index := index + 2;
        } else if payloadLength == 127 {
          payloadLength := ReadLength(receiveBuffer[2..10]);
          index := index + 8;
        }
        assert payloadLength == PayloadLength(b) && index == 2 + LengthBytes(b);
        var maskKey: seq<byte> := [0, 0, 0, 0];
        if isMasked {
          maskKey := receiveBuffer[index..index + 4];
          index := index + 4;
        }
        if opCode == TEXT {
          var result := receiveBuffer[index..index + payloadLength];
          receiveBuffer := [];
          if isMasked {
            result := Unmask(result, maskKey);
          }
          handled := handled + [result];
        } else if opCode == CLOSE {
          written := written + [0x88, 0];
        } else if opCode == PING {
          written := written + [0x0A, 0];
        }
      } else {
        written := written + [0x88, 0];
      }
    }

    /// Each of the eight octets is shifted to its place and added.
    static method ReadLength(s: seq<byte>) returns (n: nat)
      requires |s| == 8
      ensures n == BigEndian(s)
    {
      n := 0;
      for i := 0 to 8
        invariant n == BigEndian(s[..i]) * Pow256(8 - i)
      {
        AddOctet(s, i);
        n := n + s[i] * Pow256(7 - i);
      }
      assert s[..8] == s;
    }

    static lemma AddOctet(s: seq<byte>, i: nat)
      requires |s| == 8 && i < 8
      ensures BigEndian(s[..i+1]) * Pow256(7 - i) == BigEndian(s[..i]) * Pow256(8 - i) + s[i] * Pow256(7 - i)
    {
      assert s[..i+1][..i] == s[..i];
      Shift(BigEndian(s[..i]), s[i], Pow256(7 - i));
    }

    static lemma Shift(hi: nat, lo: nat, p: nat)
      ensures hi * (256 * p) + lo * p == (256 * hi + lo) * p
    {}

    /// The payload is unmasked in place.
    static method Unmask(masked: seq<byte>, maskKey: seq<byte>) returns (result: seq<byte>)
      requires |maskKey| == 4
      ensures result == Mask(masked, maskKey)
    {
      result := masked;
      for i := 0 to |masked|
        invariant |result| == |masked|
        invariant forall j | 0 <= j < i :: result[j] == Xor(masked[j], maskKey[j % 4])
        invariant forall j | i <= j < |masked| :: result[j] == masked[j]
      {
        result := result[i := Xor(result[i], maskKey[i % 4])];
      }
    }

    /// The framing of a reply: bare on a plain socket, one frame on a WebSocket.
    method SendMessage(serializedReply: seq<byte>)
      modifies this`written
      ensures written == old(written) + if webSocketHandshakeDone then SendFrame(serializedReply) else serializedReply
    {
      if !webSocketHandshakeDone {
        written := written + serializedReply;
      } else {
        var size := |serializedReply|;
        var response: seq<byte> := [0x81];
        if size > 125 {
          response := response + [0x7E];
          response := response + [size / 256 % 256];
          response := response + [size % 256];
        } else {
          response := response + [size];
        }
        response := response + serializedReply;
        written := written + response;
      }
    }
  }
}
