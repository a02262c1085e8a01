/** Octets, exclusive or, and big-endian numbers. */
module Octets {
  import opened Colors

  function Pow2(n: nat): nat { if n == 0 then 1 else 2 * Pow2(n - 1) }

  /// Exclusive or of the n lowest bits.
  function XorBits(a: nat, b: nat, n: nat): (r: nat)
    ensures r < Pow2(n)
  {
    if n == 0 then 0 else 2 * XorBits(a / 2, b / 2, n - 1) + (a % 2 + b % 2) % 2
  }

  lemma HalfAndBit(h: nat, bit: nat)
    requires bit < 2
    ensures (2 * h + bit) / 2 == h && (2 * h + bit) % 2 == bit
  {}

  lemma ParityTwice(a: nat, b: nat)
    requires a < 2 && b < 2
    ensures ((a + b) % 2 + b) % 2 == a
  {}

  lemma {:induction false} XorBitsTwice(a: nat, b: nat, n: nat)
    requires a < Pow2(n)
    ensures XorBits(XorBits(a, b, n), b, n) == a
  {
    if n > 0 {
      var ah, bh, a0, b0 := a / 2, b / 2, a % 2, b % 2;
      XorBitsTwice(ah, bh, n - 1);
      XorOfParts(XorBits(ah, bh, n - 1), (a0 + b0) % 2, b, n);
      ParityTwice(a0, b0);
    }
  }

  lemma XorOfParts(h: nat, bit: nat, b: nat, n: nat)
    requires bit < 2 && n > 0
    ensures XorBits(2 * h + bit, b, n) == 2 * XorBits(h, b / 2, n - 1) + (bit + b % 2) % 2
  {
    HalfAndBit(h, bit);
  }

  /// Bit k, counted from the lowest.
  function Bit(x: nat, k: nat): nat { if k == 0 then x % 2 else Bit(x / 2, k - 1) }

  /** Exclusive or, bit by bit. */
  lemma {:induction false} XorBitsAt(a: nat, b: nat, n: nat, k: nat)
    requires k < n
    ensures Bit(XorBits(a, b, n), k) == (if Bit(a, k) == Bit(b, k) then 0 else 1)
    decreases n
  {
    var h, bit := XorBits(a / 2, b / 2, n - 1), (a % 2 + b % 2) % 2;
    HalfAndBit(h, bit);
    if k > 0 {
      XorBitsAt(a / 2, b / 2, n - 1, k - 1);
    } else {
      BitsDiffer(a % 2, b % 2);
    }
  }

  lemma BitsDiffer(x: nat, y: nat)
    requires x < 2 && y < 2
    ensures (x + y) % 2 == if x == y then 0 else 1
  {}

  lemma EightBits()
    ensures Pow2(8) == 256
  {
    assert Pow2(4) == 16;
  }

  function Xor(a: byte, b: byte): byte {
    EightBits();
    XorBits(a, b, 8)
  }

  lemma XorTwice(x: byte, k: byte)
    ensures Xor(Xor(x, k), k) == x
  {
    EightBits();
    XorBitsTwice(x, k, 8);
  }

  /// Big-endian value of a byte string.
  function BigEndian(s: seq<byte>): nat {
    if s == [] then 0 else 256 * BigEndian(s[..|s|-1]) + s[|s|-1]
  }

  function Pow256(n: nat): (p: nat)
    ensures p > 0
  {
    if n == 0 then 1 else 256 * Pow256(n - 1)
  }

  /// The n-byte big-endian form of x, cut off to n bytes.
  function ToBigEndian(x: nat, n: nat): (s: seq<byte>)
    ensures |s| == n
  {
    if n == 0 then [] else ToBigEndian(x / 256, n - 1) + [x % 256]
  }

  lemma {:induction false} BigEndianRoundTrip(x: nat, n: nat)
    requires x < Pow256(n)
    ensures BigEndian(ToBigEndian(x, n)) == x
  {
    if n > 0 {
      BigEndianRoundTrip(x / 256, n - 1);
      var s := ToBigEndian(x, n);
      assert s[..n-1] == ToBigEndian(x / 256, n - 1);
    }
  }

  lemma {:induction false} BigEndianBound(s: seq<byte>)
    ensures BigEndian(s) < Pow256(|s|)
  {
    if s != [] { BigEndianBound(s[..|s|-1]); }
  }

  // ----- the two- and four-byte forms -----

  lemma TwoBytes(x: nat)
    ensures ToBigEndian(x, 2) == [x / 256 % 256, x % 256]
  {
    assert ToBigEndian(x / 256, 1) == ToBigEndian(x / 256 / 256, 0) + [x / 256 % 256];
  }

  lemma TwoOctets(s: seq<byte>)
    requires |s| == 2
    ensures var hi: int, lo: int := s[0], s[1]; BigEndian(s) == hi * 256 + lo
  {
    assert s[..1][..0] == [] && BigEndian(s[..1]) == s[0];
  }

  lemma FourBytes(x: nat)
    ensures ToBigEndian(x, 4) == [x / 0x100_0000 % 256, x / 0x1_0000 % 256, x / 0x100 % 256, x % 256]
  {
    assert x / 256 / 256 == x / 0x1_0000 && x / 256 / 256 / 256 == x / 0x100_0000;
    assert ToBigEndian(x / 256 / 256 / 256, 1) == [] + [x / 256 / 256 / 256 % 256];
    assert ToBigEndian(x / 256 / 256, 2) == ToBigEndian(x / 256 / 256 / 256, 1) + [x / 256 / 256 % 256];
    assert ToBigEndian(x / 256, 3) == ToBigEndian(x / 256 / 256, 2) + [x / 256 % 256];
  }

  lemma FourOctets(s: seq<byte>)
    requires |s| == 4
    ensures var b0: int, b1: int, b2: int, b3: int := s[0], s[1], s[2], s[3];
            BigEndian(s) == b0 * 0x100_0000 + b1 * 0x1_0000 + b2 * 0x100 + b3
  {
    var b0: int, b1: int, b2: int := s[0], s[1], s[2];
    assert s[..3][..2] == s[..2] && s[..2][..1] == s[..1] && s[..1][..0] == [];
    assert BigEndian(s[..1]) == b0;
    assert BigEndian(s[..2]) == 256 * b0 + b1;
    assert BigEndian(s[..3]) == 256 * (256 * b0 + b1) + b2;
  }

  lemma Pow256Of2()
    ensures Pow256(2) == 0x1_0000
  {}

  lemma Pow256Of4()
    ensures Pow256(4) == 0x1_0000_0000
  {
    Pow256Of2();
  }
}
