/** The generic CRC: bit-serial definition, lookup tables, byte-wise and slice-by-8 code. */
module Crc {
  import opened BitLists
  import opened ShiftRegister

  /** The template arguments: the generator polynomial, whose length is the number of bits of
      the CRC type, and the bit order (`rev` processes the least significant bit first). */
  datatype Params = Params(poly: Bits, rev: bool) {
    ghost predicate Valid() {
      |poly| == 8 || |poly| == 16 || |poly| == 32 || |poly| == 64
    }
  }

  // ---------------------------------------------------------------- bit-serial definition

  /** One round of the inner loop of the table generator. */
  function Round(p: Params, c: Bits): (r: Bits)
    requires |c| == |p.poly| > 0
    ensures |r| == |c|
  {
    if p.rev then
      if c[0] then Xor(Shr(c, 1), p.poly) else Shr(c, 1)
    else
      if c[|c| - 1] then Xor(Shl(c, 1), p.poly) else Shl(c, 1)
  }

  function Rounds(p: Params, c: Bits, n: nat): (r: Bits)
    requires |c| == |p.poly| > 0
    ensures |r| == |c|
    decreases n
  {
    if n == 0 then c else Rounds(p, Round(p, c), n - 1)
  }

  /** A byte moved to the end of the register that leaves first. */
  function Placed(p: Params, b: byte): (r: Bits)
    requires |p.poly| >= 8
    ensures |r| == |p.poly|
  {
    if p.rev then ByteBits(b) + Zeros(|p.poly| - 8) else Zeros(|p.poly| - 8) + ByteBits(b)
  }

  function SerialByte(p: Params, c: Bits, b: byte): (r: Bits)
    requires |c| == |p.poly| >= 8
    ensures |r| == |c|
  {
    Rounds(p, Xor(c, Placed(p, b)), 8)
  }

  /** The reference: the CRC of a byte string, one bit at a time, from start value c. */
  function SerialCrc(p: Params, c: Bits, data: seq<byte>): (r: Bits)
    requires |c| == |p.poly| >= 8
    ensures |r| == |c|
    decreases |data|
  {
    if data == [] then c else SerialCrc(p, SerialByte(p, c, data[0]), data[1..])
  }

  function ZeroBytes(n: nat): (r: seq<byte>)
    ensures |r| == n
  {
    seq(n, _ => 0)
  }

  // ---------------------------------------------------------------- stream order

  function Stream(p: Params, c: Bits): (r: Bits)
    ensures |r| == |c|
  {
    if p.rev then c else Reverse(c)
  }

  /** The bits of a byte string in the order in which the CRC consumes them. */
  function Flatten(p: Params, data: seq<byte>): (r: Bits)
    ensures |r| == 8 * |data|
    decreases |data|
  {
    if data == [] then [] else Stream(p, ByteBits(data[0])) + Flatten(p, data[1..])
  }

  lemma StreamInjective(p: Params, c: Bits, d: Bits)
    requires Stream(p, c) == Stream(p, d)
    ensures c == d
  {
    ReverseReverse(c);
    ReverseReverse(d);
  }

  lemma StreamXor(p: Params, c: Bits, d: Bits)
    requires |c| == |d|
    ensures Stream(p, Xor(c, d)) == Xor(Stream(p, c), Stream(p, d))
  {
    ReverseXor(c, d);
  }

  lemma StreamZeros(p: Params, n: nat)
    ensures Stream(p, Zeros(n)) == Zeros(n)
  {
  }

  lemma RoundIsFeed(p: Params, c: Bits)
    requires |c| == |p.poly| > 0
    ensures Stream(p, Round(p, c)) == Feed(Stream(p, p.poly), Stream(p, c), false)
  {
    if !p.rev {
      ReverseShl(c, 1);
      ReverseXor(Shl(c, 1), p.poly);
      assert Shr(Reverse(c), 1) == Reverse(c)[1..] + [false];
    } else {
      assert Shr(c, 1) == c[1..] + [false];
    }
  }

  lemma {:induction false} RoundsAbsorbZeros(p: Params, c: Bits, n: nat)
    requires |c| == |p.poly| > 0
    ensures Stream(p, Rounds(p, c, n)) == Absorb(Stream(p, p.poly), Stream(p, c), Zeros(n))
    decreases n
  {
    if n > 0 {
      RoundIsFeed(p, c);
      assert Zeros(n)[1..] == Zeros(n - 1);
      RoundsAbsorbZeros(p, Round(p, c), n - 1);
    }
  }

  /** Bits added to the head of the register and the same bits fed as a message cancel. */
  lemma PlacedIsFed(g: Bits, s: Bits, m: Bits, n: nat)
    requires |g| == |s| == |m| + n > 0
    ensures Absorb(g, Xor(s, m + Zeros(n)), Zeros(|m|)) == Absorb(g, s, m)
  {
    hide Xor, Absorb;
    var e := m + Zeros(n);
    var t, u := Xor(s, e), Absorb(g, Xor(s, e), Zeros(|m|));
    AbsorbLinear(g, t, e, Zeros(|m|), m);
    XorCancel(s, e);
    XorZero(m);
    Cancel(g, m, Zeros(n));
    assert Zeros(n) + Zeros(|m|) == Zeros(|u|);
    XorZero(u);
  }

  /** Adding a byte to the register and running eight rounds feeds its eight bits. */
  lemma SerialByteAbsorbs(p: Params, c: Bits, b: byte)
    requires |c| == |p.poly| >= 8
    ensures Stream(p, SerialByte(p, c, b))
         == Absorb(Stream(p, p.poly), Stream(p, c), Stream(p, ByteBits(b)))
  {
    var g, s, m, z := Stream(p, p.poly), Stream(p, c), Stream(p, ByteBits(b)), Zeros(|c| - 8);
    assert Stream(p, Placed(p, b)) == m + z;
    StreamXor(p, c, Placed(p, b));
    RoundsAbsorbZeros(p, Xor(c, Placed(p, b)), 8);
    PlacedIsFed(g, s, m, |c| - 8);
  }

  /** The bit-serial CRC is polynomial division of the flattened message. */
  lemma {:induction false} SerialCrcAbsorbs(p: Params, c: Bits, data: seq<byte>)
    requires |c| == |p.poly| >= 8
    ensures Stream(p, SerialCrc(p, c, data))
         == Absorb(Stream(p, p.poly), Stream(p, c), Flatten(p, data))
    decreases |data|
  {
    if data != [] {
      SerialByteAbsorbs(p, c, data[0]);
      AbsorbConcat(Stream(p, p.poly), Stream(p, c), Stream(p, ByteBits(data[0])), Flatten(p, data[1..]));
      SerialCrcAbsorbs(p, SerialByte(p, c, data[0]), data[1..]);
    }
  }

  lemma {:induction false} FlattenConcat(p: Params, a: seq<byte>, b: seq<byte>)
    ensures Flatten(p, a + b) == Flatten(p, a) + Flatten(p, b)
    decreases |a|
  {
    if a == [] {
      assert a + b == b;
    } else {
      assert (a + b)[1..] == a[1..] + b;
      FlattenConcat(p, a[1..], b);
    }
  }

  lemma ZeroByteBits()
    ensures ByteBits(0) == Zeros(8)
  {
    assert FromNat(0, 4) == Zeros(4);
  }

  lemma {:induction false} FlattenZeros(p: Params, n: nat)
    ensures Flatten(p, ZeroBytes(n)) == Zeros(8 * n)
    decreases n
  {
    if n > 0 {
      assert ZeroBytes(n)[1..] == ZeroBytes(n - 1);
      FlattenZeros(p, n - 1);
      ZeroByteBits();
      StreamZeros(p, 8);
      assert Zeros(8) + Zeros(8 * (n - 1)) == Zeros(8 * n);
    }
  }

  /** The CRC of A ++ B is the CRC of B started from the CRC of A. */
  lemma {:induction false} SerialCrcConcat(p: Params, c: Bits, a: seq<byte>, b: seq<byte>)
    requires |c| == |p.poly| >= 8
    ensures SerialCrc(p, c, a + b) == SerialCrc(p, SerialCrc(p, c, a), b)
    decreases |a|
  {
    if a == [] {
      assert a + b == b;
    } else {
      assert (a + b)[1..] == a[1..] + b;
      SerialCrcConcat(p, SerialByte(p, c, a[0]), a[1..], b);
    }
  }
}
