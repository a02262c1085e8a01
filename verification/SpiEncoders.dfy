/** One SPI byte carries two colour bits, one per nibble; the encoding can be read back. */
module SpiCode {
  import opened Colors

  /// The byte for each pair of bits; the two high nibbles of a table mark 0 and 1.
  datatype Table = Table(zero: byte, one: byte, two: byte, three: byte, nibble0: nat, nibble1: nat) {
    function Byte(pair: nat): byte
      requires pair < 4
    {
      if pair == 0 then zero else if pair == 1 then one else if pair == 2 then two else three
    }

    /// Each byte is the nibble of its first bit followed by the nibble of its second.
    ghost predicate Valid() {
      && nibble0 < 16 && nibble1 < 16 && nibble0 != nibble1
      && zero == nibble0 * 16 + nibble0 && one == nibble0 * 16 + nibble1
      && two == nibble1 * 16 + nibble0 && three == nibble1 * 16 + nibble1
    }
  }

  /// 1000 and 1100 (ws2812, sk6812).
  const SHORT_PULSE := Table(0x88, 0x8C, 0xC8, 0xCC, 0x8, 0xC)
  /// 1000 and 1110 (sk6822).
  const LONG_PULSE := Table(0x88, 0x8E, 0xE8, 0xEE, 0x8, 0xE)

  lemma TablesAreValid()
    ensures SHORT_PULSE.Valid() && LONG_PULSE.Valid()
  {}

  /** The pulses: a 0 is 1000 on the wire for every chip, a 1 is 1100 for the ws2812 and sk6812, and 1110 for
      the sk6822. */
  lemma PulseShapes()
    ensures SHORT_PULSE.nibble0 == LONG_PULSE.nibble0 == 8
    ensures SHORT_PULSE.nibble1 == 8 + 4 && LONG_PULSE.nibble1 == 8 + 4 + 2
  {}

  /// n bytes for the 2n lowest bits of a word, highest bits first.
  function Encode(t: Table, bits: nat, n: nat): (s: seq<byte>)
    ensures |s| == n
  {
    if n == 0 then [] else Encode(t, bits / 4, n - 1) + [t.Byte(bits % 4)]
  }

  function Nibbles(s: seq<byte>): (r: seq<nat>)
    ensures |r| == 2 * |s|
  {
    if s == [] then [] else Nibbles(s[..|s|-1]) + [s[|s|-1] / 16, s[|s|-1] % 16]
  }

  /// Reads nibbles as bits, most significant first.
  function Word(t: Table, nibbles: seq<nat>): nat {
    if nibbles == [] then 0
    else 2 * Word(t, nibbles[..|nibbles|-1]) + (if nibbles[|nibbles|-1] == t.nibble1 then 1 else 0)
  }

  function Power4(n: nat): nat { if n == 0 then 1 else 4 * Power4(n - 1) }

  lemma WordOfTwoMore(t: Table, ns: seq<nat>, a: nat, b: nat)
    ensures Word(t, ns + [a, b]) ==
            4 * Word(t, ns) + (if a == t.nibble1 then 2 else 0) + (if b == t.nibble1 then 1 else 0)
  {
    var w := ns + [a, b];
    assert w[..|w|-1] == ns + [a] && (ns + [a])[..|ns|] == ns;
  }

  lemma ByteNibbles(t: Table, pair: nat)
    requires t.Valid() && pair < 4
    ensures t.Byte(pair) / 16 == (if pair >= 2 then t.nibble1 else t.nibble0)
    ensures t.Byte(pair) % 16 == (if pair % 2 == 1 then t.nibble1 else t.nibble0)
  {}

  /** Splitting an encoding into nibbles recovers the word bit by bit, first bit first; every nibble is
      one of the two codes. */
  lemma {:induction false} DecodeEncode(t: Table, bits: nat, n: nat)
    requires t.Valid() && bits < Power4(n)
    ensures Word(t, Nibbles(Encode(t, bits, n))) == bits
    ensures forall k | 0 <= k < 2 * n :: Nibbles(Encode(t, bits, n))[k] in {t.nibble0, t.nibble1}
  {
    if n > 0 {
      DecodeEncode(t, bits / 4, n - 1);
      var s := Encode(t, bits, n);
      var last := s[n-1];
      assert s[..n-1] == Encode(t, bits / 4, n - 1);
      ByteNibbles(t, bits % 4);
      WordOfTwoMore(t, Nibbles(s[..n-1]), last / 16, last % 16);
      assert Nibbles(s) == Nibbles(s[..n-1]) + [last / 16, last % 16];
      assert bits == 4 * (bits / 4) + bits % 4;
    }
  }

  /** Different words have different encodings. */
  lemma EncodeInjective(t: Table, a: nat, b: nat, n: nat)
    requires t.Valid() && a < Power4(n) && b < Power4(n) && Encode(t, a, n) == Encode(t, b, n)
    ensures a == b
  {
    DecodeEncode(t, a, n);
    DecodeEncode(t, b, n);
  }

  /// The slot of one led: its encoded word, then the wait bytes.
  function Slot(t: Table, word: nat, n: nat, wait: nat): (s: seq<byte>)
    ensures |s| == n + wait
  {
    Encode(t, word, n) + Zeros(wait)
  }

  function Slots(t: Table, words: seq<nat>, n: nat, wait: nat): seq<byte> {
    if words == [] then [] else Slots(t, words[..|words|-1], n, wait) + Slot(t, words[|words|-1], n, wait)
  }

  lemma {:induction false} SlotsLength(t: Table, words: seq<nat>, n: nat, wait: nat)
    ensures |Slots(t, words, n, wait)| == |words| * (n + wait)
  {
    if words != [] {
      SlotsLength(t, words[..|words|-1], n, wait);
      OneMore(|words| - 1, n + wait);
    }
  }

  lemma OneMore(k: nat, size: nat)
    ensures (k + 1) * size == k * size + size && 0 <= k * size
  {}

  /// The whole buffer: one slot per led, then the latch bytes.
  function Buffer(t: Table, words: seq<nat>, n: nat, wait: nat, latch: nat): seq<byte> {
    Slots(t, words, n, wait) + Zeros(latch)
  }

  /// The bytes of led i's slot that hold its word.
  function WordBytes(b: seq<byte>, i: nat, n: nat, wait: nat): seq<byte>
    requires 0 <= i * (n + wait) && i * (n + wait) + n + wait <= |b|
  {
    b[i * (n + wait)..i * (n + wait) + n]
  }

  function WaitBytes(b: seq<byte>, i: nat, n: nat, wait: nat): seq<byte>
    requires 0 <= i * (n + wait) && i * (n + wait) + n + wait <= |b|
  {
    b[i * (n + wait) + n..i * (n + wait) + n + wait]
  }

  lemma SlotAfter(head: seq<byte>, word: seq<byte>, clear: seq<byte>, tail: seq<byte>)
    ensures var b := head + (word + clear) + tail;
            b[|head|..|head| + |word|] == word && b[|head| + |word|..|head| + |word| + |clear|] == clear
  {}

  /// Led i's slot stands behind the slots of the leds before it.
  lemma {:induction false} SlotSplit(t: Table, words: seq<nat>, n: nat, wait: nat, tail: seq<byte>, i: nat)
    returns (before: seq<byte>, after: seq<byte>)
    requires i < |words|
    ensures Slots(t, words, n, wait) + tail == before + Slot(t, words[i], n, wait) + after
    ensures |before| == i * (n + wait)
    decreases |words|
  {
    var m := |words| - 1;
    if i == m {
      SlotsLength(t, words[..m], n, wait);
      before, after := Slots(t, words[..m], n, wait), tail;
    } else {
      var slot := Slot(t, words[m], n, wait);
      before, after := SlotSplit(t, words[..m], n, wait, slot + tail, i);
      assert Slots(t, words, n, wait) + tail == Slots(t, words[..m], n, wait) + (slot + tail);
    }
  }

  /** Every led's slot holds exactly its encoded word and then clear wait bytes. */
  lemma SlotsAt(t: Table, words: seq<nat>, n: nat, wait: nat, tail: seq<byte>, i: nat)
    requires i < |words|
    ensures var b := Slots(t, words, n, wait) + tail;
            && 0 <= i * (n + wait) && i * (n + wait) + n + wait <= |b|
            && WordBytes(b, i, n, wait) == Encode(t, words[i], n) && WaitBytes(b, i, n, wait) == Zeros(wait)
  {
    var before, after := SlotSplit(t, words, n, wait, tail, i);
    SlotAfter(before, Encode(t, words[i], n), Zeros(wait), after);
  }

  /** Every word can be read back from its slot of the buffer, and the latch bytes follow all slots. */
  lemma BufferDecodes(t: Table, words: seq<nat>, n: nat, wait: nat, latch: nat, i: nat)
    requires t.Valid() && i < |words| && words[i] < Power4(n)
    ensures var b := Buffer(t, words, n, wait, latch);
            && 0 <= i * (n + wait) && i * (n + wait) + n + wait <= |b|
            && Word(t, Nibbles(WordBytes(b, i, n, wait))) == words[i] && WaitBytes(b, i, n, wait) == Zeros(wait)
            && 0 <= |words| * (n + wait) <= |b| && b[|words| * (n + wait)..] == Zeros(latch)
  {
    SlotsAt(t, words, n, wait, Zeros(latch), i);
    SlotsLength(t, words, n, wait);
    DecodeEncode(t, words[i], n);
  }

  /// The inner loop: one word is written backwards from the end of its slot.
  method EncodeInto(buffer: array<byte>, t: Table, ptr: nat, n: nat, word: nat)
    requires ptr + n <= buffer.Length
    modifies buffer
    ensures buffer[..] == old(buffer[..])[..ptr] + Encode(t, word, n) + old(buffer[..])[ptr + n..]
  {
    var colorBits := word;
    ghost var was := buffer[..];
    var j := n;
    while j > 0
      invariant 0 <= j <= n
      invariant buffer[..ptr] == was[..ptr] && buffer[ptr + n..] == was[ptr + n..]
      invariant Encode(t, colorBits, j) + buffer[ptr + j..ptr + n] == Encode(t, word, n)
    {
      j := j - 1;
      ghost var tail := buffer[ptr + j + 1..ptr + n];
      buffer[ptr + j] := t.Byte(colorBits % 4);
      assert buffer[ptr + j..ptr + n] == [t.Byte(colorBits % 4)] + tail;
      assert Encode(t, colorBits, j + 1) + tail == Encode(t, colorBits / 4, j) + ([t.Byte(colorBits % 4)] + tail);
      colorBits := colorBits / 4;
    }
    assert Encode(t, colorBits, 0) == [];
    assert buffer[..] == buffer[..ptr] + buffer[ptr..ptr + n] + buffer[ptr + n..];
  }

  /// Octet k of a word, counted from the lowest.
  function Octet(w: nat, k: nat): byte { if k == 0 then w % 0x100 else Octet(w / 0x100, k - 1) }

  /// Three channel bytes as one 24-bit word, red first.
  function RgbWord(c: Color): (w: nat)
    ensures w < 0x100_0000
  {
    c.red * 0x1_0000 + c.green * 0x100 + c.blue
  }

  lemma OctetBelow(hi: nat, lo: byte)
    ensures (hi * 0x100 + lo) / 0x100 == hi && (hi * 0x100 + lo) % 0x100 == lo
  {}

  /** The word determines the colour. */
  lemma RgbWordChannels(c: Color)
    ensures var w := RgbWord(c); Octet(w, 2) == c.red && Octet(w, 1) == c.green && Octet(w, 0) == c.blue
  {
    var rg := c.red * 0x100 + c.green;
    OctetBelow(rg, c.blue);
    OctetBelow(c.red, c.green);
    assert RgbWord(c) == rg * 0x100 + c.blue;
    assert Octet(RgbWord(c), 1) == Octet(rg, 0) && Octet(RgbWord(c), 2) == Octet(rg, 1) == Octet(c.red, 0);
  }

  lemma PowersOfFour()
    ensures Power4(12) == 0x100_0000 && Power4(16) == 0x1_0000_0000
  {
    assert Power4(4) == 256;
    assert Power4(8) == 65536;
    assert Power4(12) == 0x100_0000;
  }

  function RgbWords(colors: Frame): seq<nat> { seq(|colors|, i requires 0 <= i < |colors| => RgbWord(colors[i])) }
}

/** The three SPI led devices. */
module SpiDevices {
  import opened Colors
  import opened SpiCode

  /// The slots of the first i words are written up to ptr, the rest of the buffer is as before.
  ghost predicate Written(b: seq<byte>, was: seq<byte>, t: Table, words: seq<nat>, i: nat, ptr: nat,
                          n: nat, wait: nat)
  {
    && i <= |words| && ptr <= |was| && ptr == |Slots(t, words[..i], n, wait)|
    && b == Slots(t, words[..i], n, wait) + was[ptr..]
  }

  /** Encoding one more word in front of clear wait bytes extends the written slots by one. */
  lemma SlotWritten(b0: seq<byte>, b1: seq<byte>, was: seq<byte>, t: Table, words: seq<nat>, i: nat, ptr: nat,
                    n: nat, wait: nat)
    requires Written(b0, was, t, words, i, ptr, n, wait) && i < |words|
    requires ptr + n + wait <= |was| == |b0| && was[ptr + n..ptr + n + wait] == Zeros(wait)
    requires b1 == b0[..ptr] + Encode(t, words[i], n) + b0[ptr + n..]
    ensures Written(b1, was, t, words, i + 1, ptr + n + wait, n, wait)
  {
    var head := Slots(t, words[..i], n, wait);
    assert words[..i+1][..i] == words[..i];
    assert Slots(t, words[..i+1], n, wait) == head + (Encode(t, words[i], n) + Zeros(wait));
    assert b0[..ptr] == head;
    assert b0[ptr + n..] == was[ptr + n..] == was[ptr + n..ptr + n + wait] + was[ptr + n + wait..];
    assert b1 == head + (Encode(t, words[i], n) + Zeros(wait)) + was[ptr + n + wait..];
  }

  /// One turn of the led loop: the word goes into its slot, whose wait bytes are already clear.
  method WriteLed(buffer: array<byte>, t: Table, ptr: nat, n: nat, word: nat,
                  ghost was: seq<byte>, ghost words: seq<nat>, ghost i: nat, ghost wait: nat)
    requires Written(buffer[..], was, t, words, i, ptr, n, wait) && i < |words| && word == words[i]
    requires ptr + n + wait <= |was| && was[ptr + n..ptr + n + wait] == Zeros(wait)
    modifies buffer
    ensures Written(buffer[..], was, t, words, i + 1, ptr + n + wait, n, wait)
  {
    ghost var b0 := buffer[..];
    EncodeInto(buffer, t, ptr, n, word);
    SlotWritten(b0, buffer[..], was, t, words, i, ptr, n, wait);
  }

  /// The three latch bytes are written as zeros.
  method WriteLatch(buffer: array<byte>, t: Table, ptr: nat, n: nat, ghost was: seq<byte>, ghost words: seq<nat>)
    requires Written(buffer[..], was, t, words, |words|, ptr, n, 0) && |was| >= ptr + 3
    modifies buffer
    ensures buffer[..] == Buffer(t, words, n, 0, 3) + was[ptr + 3..]
  {
    assert words[..|words|] == words;
    ghost var b0 := buffer[..];
    buffer[ptr] := 0;
    buffer[ptr + 1] := 0;
    buffer[ptr + 2] := 0;
    assert b0[..ptr] == Slots(t, words, n, 0);
    assert buffer[..] == b0[..ptr] + Zeros(3) + b0[ptr + 3..];
    assert b0[ptr + 3..] == was[ptr + 3..];
  }

  lemma NoWait(was: seq<byte>, p: nat)
    requires p <= |was|
    ensures was[p..p + 0] == Zeros(0)
  {}

  lemma NothingWritten(was: seq<byte>, t: Table, words: seq<nat>, n: nat, wait: nat)
    ensures Written(was, was, t, words, 0, 0, n, wait)
  {
    assert words[..0] == [];
  }

  class LedDeviceWs2812SPI {
    const ledCount: nat
    const ledBuffer: array<byte>

    ghost predicate Valid() { ledBuffer.Length == ledCount * 12 + 3 }

    constructor (ledCount: nat)
      ensures Valid() && this.ledCount == ledCount && fresh(ledBuffer) && ledBuffer[..] == Zeros(ledCount * 12 + 3)
    {
      this.ledCount := ledCount;
      ledBuffer := new byte[ledCount * 12 + 3](i => 0);
      new;
      assert ledBuffer[..] == Zeros(ledCount * 12 + 3);
    }

    /// A frame shorter than the string leaves the slots behind its latch bytes as they were.
    method Write(ledValues: Frame)
      requires Valid() && |ledValues| <= ledCount
      modifies ledBuffer
      ensures ledBuffer[..] ==
        Buffer(SHORT_PULSE, RgbWords(ledValues), 12, 0, 3) + old(ledBuffer[..])[12 * |ledValues| + 3..]
    {
      ghost var was := ledBuffer[..];
      ghost var words := RgbWords(ledValues);
      var ptr := WriteLeds(ledValues, words, was);
      WriteLatch(ledBuffer, SHORT_PULSE, ptr, 12, was, words);
    }

    /// The led loop.
    method WriteLeds(ledValues: Frame, ghost words: seq<nat>, ghost was: seq<byte>) returns (ptr: nat)
      requires Valid() && |ledValues| <= ledCount && was == ledBuffer[..] && words == RgbWords(ledValues)
      modifies ledBuffer
      ensures ptr == 12 * |words| && Written(ledBuffer[..], was, SHORT_PULSE, words, |words|, ptr, 12, 0)
    {
      ptr := 0;
      var bytesPerLed := 12;
      NothingWritten(was, SHORT_PULSE, words, bytesPerLed, 0);
      for i := 0 to |ledValues|
        invariant ptr == i * 12 && Written(ledBuffer[..], was, SHORT_PULSE, words, i, ptr, bytesPerLed, 0)
      {
        NoWait(was, ptr + bytesPerLed);
        WriteLed(ledBuffer, SHORT_PULSE, ptr, bytesPerLed, RgbWord(ledValues[i]), was, words, i, 0);
        ptr := ptr + bytesPerLed;
      }
    }
  }

  /// The three wait bytes behind led i's twelve are clear.
  ghost predicate WaitClear(b: seq<byte>, i: nat) { 15 * i + 15 <= |b| && b[15 * i + 12..15 * i + 15] == Zeros(3) }

  /// A written slot of fifteen bytes has clear wait bytes.
  lemma WrittenWait(t: Table, words: seq<nat>, n: nat, wait: nat, b: seq<byte>, tail: seq<byte>, i: nat)
    requires n == 12 && wait == 3 && i < |words| && b == Slots(t, words, n, wait) + tail
    ensures WaitClear(b, i)
  {
    SlotsAt(t, words, n, wait, tail, i);
  }

  class LedDeviceSk6822SPI {
    const ledCount: nat
    const ledBuffer: array<byte>

    /// The wait bytes after each led and the latch bytes at the end are zero.
    ghost predicate Valid()
      reads ledBuffer
    {
      && ledBuffer.Length == ledCount * 15 + 13
      && (forall i: nat | i < ledCount :: WaitClear(ledBuffer[..], i))
      && ledBuffer[..][ledCount * 15..] == Zeros(13)
    }

    constructor (ledCount: nat)
      ensures Valid() && this.ledCount == ledCount && fresh(ledBuffer)
    {
      this.ledCount := ledCount;
      ledBuffer := new byte[ledCount * 12 + ledCount * 3 + 13](i => 0);
      new;
      ghost var b := ledBuffer[..];
      assert b == Zeros(ledCount * 15 + 13);
      forall i: nat | i < ledCount ensures WaitClear(b, i) {
        assert b[15 * i + 12..15 * i + 15] == Zeros(3);
      }
      assert b[ledCount * 15..] == Zeros(13);
    }

    /// No write touches the wait and latch bytes, so they stay zero after any sequence of writes.
    method Write(ledValues: Frame)
      requires Valid() && |ledValues| <= ledCount
      modifies ledBuffer
      ensures Valid()
      ensures ledBuffer[..] == Slots(LONG_PULSE, RgbWords(ledValues), 12, 3) + old(ledBuffer[..])[15 * |ledValues|..]
      ensures |ledValues| == ledCount ==> ledBuffer[..] == Buffer(LONG_PULSE, RgbWords(ledValues), 12, 3, 13)
    {
      ghost var was := ledBuffer[..];
      ghost var words := RgbWords(ledValues);
      WriteLeds(ledValues, words, was);
      Finished(ledBuffer[..], was, Slots(LONG_PULSE, words, 12, 3), words);
    }

    /// The led loop.
    method WriteLeds(ledValues: Frame, ghost words: seq<nat>, ghost was: seq<byte>)
      requires Valid() && |ledValues| <= ledCount && was == ledBuffer[..] && words == RgbWords(ledValues)
      modifies ledBuffer
      ensures |Slots(LONG_PULSE, words, 12, 3)| == 15 * |words|
      ensures ledBuffer[..] == Slots(LONG_PULSE, words, 12, 3) + was[15 * |words|..]
    {
      var ptr := 0;
      var bytesPerLed, bytesWaitTime := 12, 3;
      NothingWritten(was, LONG_PULSE, words, bytesPerLed, bytesWaitTime);
      for i := 0 to |ledValues|
        invariant ptr == i * 15
        invariant Written(ledBuffer[..], was, LONG_PULSE, words, i, ptr, bytesPerLed, bytesWaitTime)
      {
        assert WaitClear(was, i);
        WriteLed(ledBuffer, LONG_PULSE, ptr, bytesPerLed, RgbWord(ledValues[i]), was, words, i, bytesWaitTime);
        ptr := ptr + bytesPerLed;
        ptr := ptr + bytesWaitTime; // left as zeros
      }
      assert words[..|words|] == words;
    }

    lemma Finished(b: seq<byte>, was: seq<byte>, slots: seq<byte>, words: seq<nat>)
      requires |words| <= ledCount && |was| == ledCount * 15 + 13 && was[ledCount * 15..] == Zeros(13)
      requires forall i: nat | i < ledCount :: WaitClear(was, i)
      requires slots == Slots(LONG_PULSE, words, 12, 3) && b == slots + was[15 * |words|..] && |slots| == 15 * |words|
      ensures |b| == |was| && b[ledCount * 15..] == Zeros(13)
      ensures |words| == ledCount ==> b == Buffer(LONG_PULSE, words, 12, 3, 13)
      ensures forall i: nat | i < ledCount :: WaitClear(b, i)
    {
      SameBehind(b, was, slots, ledCount * 15, |b|);
      assert b[ledCount * 15..] == b[ledCount * 15..|b|] && was[ledCount * 15..] == was[ledCount * 15..|b|];
      forall i: nat | i < ledCount ensures WaitClear(b, i) {
        assert WaitClear(was, i);
        if i < |words| {
          WrittenWait(LONG_PULSE, words, 12, 3, b, was[15 * |words|..], i);
        } else {
          OldWait(b, was, slots, i);
        }
      }
    }

    static lemma OldWait(b: seq<byte>, was: seq<byte>, slots: seq<byte>, i: nat)
      requires WaitClear(was, i) && |slots| <= 15 * i && |slots| <= |was| && b == slots + was[|slots|..]
      ensures WaitClear(b, i)
    {
      SameBehind(b, was, slots, 15 * i + 12, 15 * i + 15);
    }

    static lemma SameBehind(b: seq<byte>, was: seq<byte>, head: seq<byte>, from: nat, to: nat)
      requires |head| <= from <= to <= |was| && b == head + was[|head|..]
      ensures b[from..to] == was[from..to]
    {
      forall k | from <= k < to ensures b[k] == was[k] { assert b[k] == was[|head|..][k - |head|]; }
    }
  }

  datatype Rgbw = Rgbw(red: byte, green: byte, blue: byte, white: byte)

  datatype WhiteAlgorithm = SubtractMinimum | SubMinWarmAdjust | WhiteOff

  /// The not implemented algorithm leaves the output as it was.
  function RgbToRgbw(c: Color, previous: Rgbw, algorithm: WhiteAlgorithm): Rgbw {
    match algorithm
    case SubtractMinimum =>
      var white: byte := Min(Min(c.red, c.green), c.blue);
      Rgbw(c.red - white, c.green - white, c.blue - white, white)
    case SubMinWarmAdjust => previous
    case WhiteOff => Rgbw(c.red, c.green, c.blue, 0)
  }

  /// The colour is what is left plus its white share.
  predicate AddsUp(o: Rgbw, c: Color) {
    o.red + o.white == c.red && o.green + o.white == c.green && o.blue + o.white == c.blue
  }

  /** Adding the white back gives the colour, whatever was sent before, exactly for the implemented
      algorithms. */
  lemma WhiteIsConserved(algorithm: WhiteAlgorithm)
    ensures (forall c, previous :: AddsUp(RgbToRgbw(c, previous, algorithm), c)) <==> algorithm != SubMinWarmAdjust
  {
    if algorithm == SubMinWarmAdjust {
      assert !AddsUp(RgbToRgbw(Color(1, 0, 0), Rgbw(0, 0, 0, 0), algorithm), Color(1, 0, 0));
    }
  }

  /** The white share is as large as it can be with one algorithm, and none with the other. */
  lemma WhiteShare(c: Color, previous: Rgbw)
    ensures var o := RgbToRgbw(c, previous, SubtractMinimum); o.red == 0 || o.green == 0 || o.blue == 0
    ensures RgbToRgbw(c, previous, WhiteOff).white == 0
    ensures RgbToRgbw(c, previous, SubMinWarmAdjust) == previous
  {}

  function RgbwWord(o: Rgbw): (w: nat)
    ensures w < 0x1_0000_0000
  {
    o.red * 0x100_0000 + o.green * 0x1_0000 + o.blue * 0x100 + o.white
  }

  lemma RgbwWordChannels(o: Rgbw)
    ensures var w := RgbwWord(o);
            Octet(w, 3) == o.red && Octet(w, 2) == o.green && Octet(w, 1) == o.blue && Octet(w, 0) == o.white
  {
    var rgb := Color(o.red, o.green, o.blue);
    RgbWordChannels(rgb);
    OctetBelow(RgbWord(rgb), o.white);
    var w := RgbwWord(o);
    assert w == RgbWord(rgb) * 0x100 + o.white;
    assert Octet(w, 1) == Octet(RgbWord(rgb), 0) && Octet(w, 2) == Octet(RgbWord(rgb), 1);
    assert Octet(w, 3) == Octet(RgbWord(rgb), 2);
  }

  function RgbwWords(colors: Frame, previous: Rgbw, algorithm: WhiteAlgorithm): seq<nat> {
    seq(|colors|, i requires 0 <= i < |colors| => RgbwWord(RgbToRgbw(colors[i], previous, algorithm)))
  }

  class LedDeviceSk6812SPI {
    const ledCount: nat
    const whiteAlgorithm: WhiteAlgorithm
    const ledBuffer: array<byte>
    var tempRgbw: Rgbw

    ghost predicate Valid() { ledBuffer.Length == ledCount * 16 + 3 }

    constructor (ledCount: nat, whiteAlgorithm: WhiteAlgorithm)
      ensures Valid() && this.ledCount == ledCount && this.whiteAlgorithm == whiteAlgorithm && fresh(ledBuffer)
    {
      this.ledCount, this.whiteAlgorithm := ledCount, whiteAlgorithm;
      ledBuffer := new byte[ledCount * 16 + 3](i => 0);
      tempRgbw := Rgbw(0, 0, 0, 0);
    }

    method Write(ledValues: Frame)
      requires Valid() && |ledValues| <= ledCount
      modifies this`tempRgbw, ledBuffer
      ensures ledBuffer[..] == Buffer(SHORT_PULSE, RgbwWords(ledValues, old(tempRgbw), whiteAlgorithm), 16, 0, 3)
                               + old(ledBuffer[..])[16 * |ledValues| + 3..]
    {
      ghost var was := ledBuffer[..];
      ghost var words := RgbwWords(ledValues, tempRgbw, whiteAlgorithm);
      var ptr := WriteLeds(ledValues, tempRgbw, words, was);
      WriteLatch(ledBuffer, SHORT_PULSE, ptr, 16, was, words);
    }

    /// The led loop.
    method WriteLeds(ledValues: Frame, ghost first: Rgbw, ghost words: seq<nat>, ghost was: seq<byte>)
      returns (ptr: nat)
      requires Valid() && |ledValues| <= ledCount && was == ledBuffer[..] && first == tempRgbw
      requires words == RgbwWords(ledValues, first, whiteAlgorithm) && |words| == |ledValues|
      modifies this`tempRgbw, ledBuffer
      ensures ptr == |words| * 16 && Written(ledBuffer[..], was, SHORT_PULSE, words, |words|, ptr, 16, 0)
    {
      ptr := 0;
      var bytesPerLed := 16;
      NothingWritten(was, SHORT_PULSE, words, bytesPerLed, 0);
      for i := 0 to |ledValues|
        invariant ptr == i * 16 && Written(ledBuffer[..], was, SHORT_PULSE, words, i, ptr, bytesPerLed, 0)
        invariant whiteAlgorithm == SubMinWarmAdjust ==> tempRgbw == first
      {
        ghost var b := ledBuffer[..];
        var word := Convert(ledValues, i, first, words);
        assert ledBuffer[..] == b;
        NoWait(was, ptr + bytesPerLed);
        WriteLed(ledBuffer, SHORT_PULSE, ptr, bytesPerLed, word, was, words, i, 0);
        ptr := ptr + bytesPerLed;
      }
    }

    /// The word of led i.
    method Convert(ledValues: Frame, i: nat, ghost first: Rgbw, ghost words: seq<nat>) returns (word: nat)
      requires i < |ledValues| && words == RgbwWords(ledValues, first, whiteAlgorithm)
      requires whiteAlgorithm == SubMinWarmAdjust ==> tempRgbw == first
      modifies this`tempRgbw
      ensures word == words[i]
      ensures whiteAlgorithm == SubMinWarmAdjust ==> tempRgbw == first
    {
      tempRgbw := RgbToRgbw(ledValues[i], tempRgbw, whiteAlgorithm);
      word := RgbwWord(tempRgbw);
    }
  }

  /** The frame sent by a 24-bit device can be read back led by led, and its wait bytes are clear. */
  lemma RgbFrameDecodes(t: Table, colors: Frame, wait: nat, latch: nat, i: nat)
    requires t.Valid() && i < |colors|
    ensures var b := Buffer(t, RgbWords(colors), 12, wait, latch);
            && 0 <= i * (12 + wait) && i * (12 + wait) + 12 + wait <= |b|
            && WaitBytes(b, i, 12, wait) == Zeros(wait)
            && var w := Word(t, Nibbles(WordBytes(b, i, 12, wait)));
               colors[i] == Color(Octet(w, 2), Octet(w, 1), Octet(w, 0))
  {
    PowersOfFour();
    BufferDecodes(t, RgbWords(colors), 12, wait, latch, i);
    RgbWordChannels(colors[i]);
  }

  /// The word that led i's slot of a 32-bit frame holds.
  function SlotWord(colors: Frame, previous: Rgbw, algorithm: WhiteAlgorithm, i: nat): nat
    requires i < |colors|
  {
    SlotInBuffer(colors, previous, algorithm, i);
    var b := Buffer(SHORT_PULSE, RgbwWords(colors, previous, algorithm), 16, 0, 3);
    Word(SHORT_PULSE, Nibbles(WordBytes(b, i, 16, 0)))
  }

  /// The colour read back from it, by adding the white share.
  predicate ReadsBack(colors: Frame, previous: Rgbw, algorithm: WhiteAlgorithm, i: nat)
    requires i < |colors|
  {
    var w := SlotWord(colors, previous, algorithm, i);
    AddsUp(Rgbw(Octet(w, 3), Octet(w, 2), Octet(w, 1), Octet(w, 0)), colors[i])
  }

  lemma SlotInBuffer(colors: Frame, previous: Rgbw, algorithm: WhiteAlgorithm, i: nat)
    requires i < |colors|
    ensures var b := Buffer(SHORT_PULSE, RgbwWords(colors, previous, algorithm), 16, 0, 3);
            && 0 <= i * (16 + 0) && i * (16 + 0) + 16 + 0 <= |b|
            && Word(SHORT_PULSE, Nibbles(WordBytes(b, i, 16, 0))) == RgbwWord(RgbToRgbw(colors[i], previous, algorithm))
  {
    PowersOfFour();
    TablesAreValid();
    var words := RgbwWords(colors, previous, algorithm);
    assert words[i] == RgbwWord(RgbToRgbw(colors[i], previous, algorithm));
    BufferDecodes(SHORT_PULSE, words, 16, 0, 3, i);
  }

  lemma ReadsBackExactly(colors: Frame, previous: Rgbw, algorithm: WhiteAlgorithm, i: nat)
    requires i < |colors|
    ensures ReadsBack(colors, previous, algorithm, i) <==> AddsUp(RgbToRgbw(colors[i], previous, algorithm), colors[i])
  {
    SlotInBuffer(colors, previous, algorithm, i);
    RgbwWordChannels(RgbToRgbw(colors[i], previous, algorithm));
  }

  lemma RedIsLost() returns (colors: Frame)
    ensures |colors| == 1 && !ReadsBack(colors, Rgbw(0, 0, 0, 0), SubMinWarmAdjust, 0)
  {
    colors := [Color(1, 0, 0)];
    ReadsBackExactly(colors, Rgbw(0, 0, 0, 0), SubMinWarmAdjust, 0);
  }

  /** Every 32-bit frame is read back led by led, whatever was sent before, if and only if the white
      algorithm is an implemented one. */
  lemma RgbwFrameDecodes(algorithm: WhiteAlgorithm)
    ensures (forall colors: Frame, previous, i: nat | i < |colors| :: ReadsBack(colors, previous, algorithm, i))
       <==> algorithm != SubMinWarmAdjust
  {
    WhiteIsConserved(algorithm);
    if algorithm == SubMinWarmAdjust {
      var colors := RedIsLost();
    } else {
      forall colors: Frame, previous, i: nat | i < |colors| ensures ReadsBack(colors, previous, algorithm, i) {
        ReadsBackExactly(colors, previous, algorithm, i);
      }
    }
  }

  /** With the algorithm that is not implemented the frame does not depend on the colours at all. */
  lemma NotImplementedIgnoresColors(a: Frame, b: Frame, previous: Rgbw)
    requires |a| == |b|
    ensures RgbwWords(a, previous, SubMinWarmAdjust) == RgbwWords(b, previous, SubMinWarmAdjust)
  {}
}
