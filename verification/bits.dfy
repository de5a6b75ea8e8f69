/** Machine integers as bit lists, and the bytes of a buffer.

  An unsigned integer of w bits is a sequence of w booleans, least significant bit first.
  Shifts, exclusive or and narrowing casts are therefore exact for every width, including
  the bits that a C++ cast or shift drops. */
module BitLists {
  type Bits = seq<bool>
  type byte = x: int | 0 <= x < 256

  function Zeros(n: nat): (r: Bits)
    ensures |r| == n
  {
    seq(n, _ => false)
  }

  function Xor(a: Bits, b: Bits): (r: Bits)
    requires |a| == |b|
    ensures |r| == |a|
  {
    seq(|a|, i requires 0 <= i < |a| => a[i] != b[i])
  }

  /** x >> k on a register of |x| bits. */
  function Shr(x: Bits, k: nat): (r: Bits)
    requires k <= |x|
    ensures |r| == |x|
  {
    x[k..] + Zeros(k)
  }

  /** x << k on a register of |x| bits: the top k bits are lost. */
  function Shl(x: Bits, k: nat): (r: Bits)
    requires k <= |x|
    ensures |r| == |x|
  {
    Zeros(k) + x[..|x| - k]
  }

  function Reverse(x: Bits): (r: Bits)
    ensures |r| == |x|
  {
    seq(|x|, i requires 0 <= i < |x| => x[|x| - 1 - i])
  }

  function Bit(b: bool): nat { if b then 1 else 0 }

  /** The number a bit list denotes. */
  function ToNat(x: Bits): nat {
    if x == [] then 0 else Bit(x[0]) + 2 * ToNat(x[1..])
  }

  /** The low w bits of n: what a cast to a w-bit unsigned type keeps. */
  function FromNat(n: nat, w: nat): (r: Bits)
    ensures |r| == w
    decreases w
  {
    if w == 0 then [] else [n % 2 == 1] + FromNat(n / 2, w - 1)
  }

  function Pow2(n: nat): (r: nat)
    ensures r > 0
  {
    if n == 0 then 1 else 2 * Pow2(n - 1)
  }

  lemma Pow2Of32()
    ensures Pow2(32) == 0x1_0000_0000
  {
    assert Pow2(8) == 0x100;
    assert Pow2(16) == 0x1_0000;
    assert Pow2(24) == 0x100_0000;
  }

  lemma {:induction false} ToNatBound(x: Bits)
    ensures ToNat(x) < Pow2(|x|)
  {
    if x != [] { ToNatBound(x[1..]); }
  }

  lemma {:induction false} ZerosAreZero(n: nat)
    ensures ToNat(Zeros(n)) == 0
  {
    if n > 0 {
      assert Zeros(n)[1..] == Zeros(n - 1);
      ZerosAreZero(n - 1);
    }
  }

  lemma {:induction false} FromToNat(x: Bits)
    ensures FromNat(ToNat(x), |x|) == x
  {
    if x != [] {
      FromToNat(x[1..]);
      assert x == [x[0]] + x[1..];
    }
  }

  lemma {:induction false} ToFromNat(n: nat, w: nat)
    requires n < Pow2(w)
    ensures ToNat(FromNat(n, w)) == n
    decreases w
  {
    if w > 0 {
      ToFromNat(n / 2, w - 1);
      assert FromNat(n, w)[1..] == FromNat(n / 2, w - 1);
    }
  }

  // ---- bytes ----

  function ByteBits(b: byte): (r: Bits)
    ensures |r| == 8
  {
    FromNat(b, 8)
  }

  function BitsByte(x: Bits): byte
    requires |x| == 8
  {
    ToNatBound(x);
    assert Pow2(8) == 256;
    ToNat(x)
  }

  lemma BytesAreBits(b: byte, x: Bits)
    requires |x| == 8
    ensures BitsByte(ByteBits(b)) == b
    ensures ByteBits(BitsByte(x)) == x
  {
    assert Pow2(8) == 256;
    ToFromNat(b, 8);
    FromToNat(x);
  }

  /** static_cast<uint8_t>(x & 0xFF) */
  function LowByte(x: Bits): byte
    requires |x| >= 8
  {
    BitsByte(x[..8])
  }

  /** A byte widened to a w-bit integer. */
  function Widen(b: byte, w: nat): (r: Bits)
    requires w >= 8
    ensures |r| == w
  {
    ByteBits(b) + Zeros(w - 8)
  }

  function XorByte(a: byte, b: byte): byte {
    BitsByte(Xor(ByteBits(a), ByteBits(b)))
  }

  // ---- exclusive or is an abelian group of exponent two ----

  lemma XorZero(a: Bits)
    ensures Xor(a, Zeros(|a|)) == a
    ensures Xor(Zeros(|a|), a) == a
  {
  }

  lemma XorSelf(a: Bits)
    ensures Xor(a, a) == Zeros(|a|)
  {
  }

  lemma XorAssoc(a: Bits, b: Bits, c: Bits)
    requires |a| == |b| == |c|
    ensures Xor(Xor(a, b), c) == Xor(a, Xor(b, c))
  {
  }

  lemma XorComm(a: Bits, b: Bits)
    requires |a| == |b|
    ensures Xor(a, b) == Xor(b, a)
  {
  }

  lemma XorCancel(a: Bits, b: Bits)
    requires |a| == |b|
    ensures Xor(Xor(a, b), b) == a
    ensures Xor(a, Xor(a, b)) == b
  {
  }

  /** Exclusive or distributes over concatenation of pieces of equal length. */
  lemma XorConcat(a: Bits, b: Bits, c: Bits, d: Bits)
    requires |a| == |c| && |b| == |d|
    ensures Xor(a + b, c + d) == Xor(a, c) + Xor(b, d)
  {
  }

  lemma ReverseReverse(x: Bits)
    ensures Reverse(Reverse(x)) == x
  {
  }

  lemma ReverseXor(a: Bits, b: Bits)
    requires |a| == |b|
    ensures Reverse(Xor(a, b)) == Xor(Reverse(a), Reverse(b))
  {
  }

  lemma ReverseShl(x: Bits, k: nat)
    requires k <= |x|
    ensures Reverse(Shl(x, k)) == Shr(Reverse(x), k)
  {
  }
}
