/** What the OEM CRC-32 guarantees: trailers and burst errors. */
module CrcDetection {
  import opened BitLists
  import opened ShiftRegister
  import opened Crc
  import opened MachineRegister
  import ZeroPolynomial
  import opened OemCrc

  lemma GeneratorTopBit()
    ensures Generator()[31]
  {
    TopMask();
    WordAt(0xEDB88320, 31);
  }

  /** The generator has the bit that leaves last, so a step never maps a register to zero. */
  lemma FeedInjective(r: Bits)
    requires |r| == 32 && Feed(Generator(), r, false) == Zeros(32)
    ensures r == Zeros(32)
  {
    hide Generator;
    GeneratorTopBit();
    var s := Feed(Generator(), r, false);
    FeedAt(Generator(), r, 31);
    assert !s[31];
    forall j | 1 <= j < 32
      ensures !r[j]
    {
      FeedAt(Generator(), r, j - 1);
      assert !s[j - 1];
    }
    assert forall j | 0 <= j < 32 :: !r[j];
  }

  lemma {:induction false} ShiftedInjective(r: Bits, n: nat)
    requires |r| == 32 && ZeroPolynomial.Shifted(r, n) == Zeros(32)
    ensures r == Zeros(32)
    decreases n
  {
    hide Generator, Feed;
    if n > 0 {
      assert Zeros(n)[1..] == Zeros(n - 1);
      ShiftedInjective(Feed(Generator(), r, false), n - 1);
      FeedInjective(r);
    }
  }

  /** Feeding a 32-bit value into a register empties it just when the two are equal. */
  lemma AbsorbSelf(c: Bits, t: Bits)
    requires |c| == |t| == 32
    ensures Absorb(Generator(), c, t) == Zeros(32) <==> c == t
  {
    hide Absorb, Generator, Xor;
    assert c + [] == c && t + [] == t && [] + Zeros(32) == Zeros(32);
    Cancel(Generator(), c, []);
    Cancel(Generator(), t, []);
    if Absorb(Generator(), c, t) == Zeros(32) {
      XorSelf(t);
      XorSelf(Zeros(32));
      AbsorbLinear(Generator(), c, t, t, t);
      assert ZeroPolynomial.Shifted(Xor(c, t), 32) == Zeros(32);
      ShiftedInjective(Xor(c, t), 32);
      XorCancel(c, t);
      XorZero(t);
    }
  }

  /** The four bytes that a 32-bit value occupies in memory, lowest byte first. */
  function LittleEndian(c: Bits): (b: seq<byte>)
    requires |c| == 32
    ensures |b| == 4
  {
    [BitsByte(c[0..8]), BitsByte(c[8..16]), BitsByte(c[16..24]), BitsByte(c[24..32])]
  }

  lemma LittleEndianBits(c: Bits)
    requires |c| == 32
    ensures Flatten(Oem(), LittleEndian(c)) == c
  {
    hide Oem, BitsByte, ByteBits, Flatten;
    var b := LittleEndian(c);
    forall k | 0 <= k < 4
      ensures ByteBits(b[k]) == c[8 * k..8 * k + 8]
    {
      BytesAreBits(0, c[8 * k..8 * k + 8]);
    }
    FlattenBits(b, c);
  }

  /** The bits of four bytes read as a little-endian uint32_t. */
  function ReadUint32(b: seq<byte>): (c: Bits)
    requires |b| == 4
    ensures |c| == 32
  {
    Flatten(Oem(), b)
  }

  /** The CRC of a string with a trailer is zero just when the trailer is the CRC. */
  lemma TrailerIsCrc(body: seq<byte>, trailer: seq<byte>)
    requires |trailer| == 4
    ensures Crc32(Zeros(32), body) == ReadUint32(trailer) <==> Crc32(Zeros(32), body + trailer) == Zeros(32)
  {
    hide Flatten, Absorb, Generator;
    var c := Crc32(Zeros(32), body);
    SerialCrcConcat(Oem(), Zeros(32), body, trailer);
    SerialCrcAbsorbs(Oem(), c, trailer);
    AbsorbSelf(c, ReadUint32(trailer));
  }

  /** The two messages differ, and only within 32 consecutive bits in stream order (the least
      significant bit of each byte first) from bit lo. */
  ghost predicate Burst(a: seq<byte>, b: seq<byte>, lo: nat)
    requires |a| == |b|
  {
    && a != b
    && forall i | 0 <= i < 8 * |a| && !(lo <= i < lo + 32) ::
         Flatten(Oem(), a)[i] == Flatten(Oem(), b)[i]
  }

  /** A byte that is not zero has a CRC that is not zero. */
  lemma ByteHasCrc(b: byte)
    requires b != 0
    ensures Crc32(Zeros(32), [b]) != Zeros(32)
  {
    hide SerialCrc, Absorb, Generator;
    var zero: seq<byte> := [0];
    FlattenZeros(Oem(), 1);
    assert ZeroBytes(1) == zero;
    SerialCrcAbsorbs(Oem(), Zeros(32), zero);
    ZeroStays(Generator(), 8);
    BurstChangesCrc(Zeros(32), zero, [b], 0);
  }

  lemma {:induction false} FlattenInjective(a: seq<byte>, b: seq<byte>)
    requires |a| == |b| && Flatten(Oem(), a) == Flatten(Oem(), b)
    ensures a == b
    decreases |a|
  {
    hide ByteBits, BitsByte, Generator;
    if a != [] {
      var x, y := Flatten(Oem(), a), Flatten(Oem(), b);
      assert x[..8] == ByteBits(a[0]) && y[..8] == ByteBits(b[0]);
      assert x[8..] == Flatten(Oem(), a[1..]) && y[8..] == Flatten(Oem(), b[1..]);
      BytesAreBits(a[0], Zeros(8));
      BytesAreBits(b[0], Zeros(8));
      FlattenInjective(a[1..], b[1..]);
      assert a == [a[0]] + a[1..] && b == [b[0]] + b[1..];
    }
  }

  /** A short nonzero message between zeros has a nonzero remainder. */
  lemma BurstRemainder(lo: nat, p: Bits, n: nat)
    requires |p| <= 32
    ensures Divide((Zeros(lo) + p) + Zeros(n)) == Zeros(32) ==> p == Zeros(|p|)
  {
    hide Absorb, Generator;
    var m := Zeros(lo) + p;
    var x := p + Zeros(32 - |p|);
    DivideZeros(m, n);
    AbsorbConcat(Generator(), Zeros(32), Zeros(lo), p);
    ZeroStays(Generator(), lo);
    PlacedIsFed(Generator(), Zeros(32), p, 32 - |p|);
    XorZero(x);
    assert Divide(m) == ZeroPolynomial.Shifted(x, |p|);
    if Divide(m + Zeros(n)) == Zeros(32) {
      ShiftedInjective(Divide(m), n);
      ShiftedInjective(x, |p|);
      assert x[..|p|] == p;
      assert p == Zeros(|p|);
    }
  }

  /** A difference confined to bits lo.. of at most 32 is a short message between zeros. */
  lemma BurstShape(e: Bits, lo: nat, hi: nat)
    requires lo <= hi <= |e|
    requires forall i | 0 <= i < |e| && !(lo <= i < hi) :: !e[i]
    ensures e == (Zeros(lo) + e[lo..hi]) + Zeros(|e| - hi)
    ensures e != Zeros(|e|) ==> e[lo..hi] != Zeros(hi - lo)
  {
    if e[lo..hi] == Zeros(hi - lo) {
      forall i | 0 <= i < |e|
        ensures !e[i]
      {
        if lo <= i < hi {
          assert e[i] == e[lo..hi][i - lo];
        }
      }
      assert e == Zeros(|e|);
    }
  }

  /** Any burst of at most 32 bits changes the CRC. */
  lemma BurstChangesCrc(initial: Bits, a: seq<byte>, b: seq<byte>, lo: nat)
    requires |initial| == 32 && |a| == |b| && Burst(a, b, lo)
    ensures Crc32(initial, a) != Crc32(initial, b)
  {
    hide Flatten, Absorb, Generator;
    var x, y := Flatten(Oem(), a), Flatten(Oem(), b);
    var e := Xor(x, y);
    var hi := if lo + 32 < |e| then lo + 32 else |e|;
    var from := if lo < |e| then lo else |e|;
    if e == Zeros(|e|) {
      XorCancel(x, y);
      XorZero(y);
      FlattenInjective(a, b);
    }
    BurstShape(e, from, hi);
    BurstRemainder(from, e[from..hi], |e| - hi);
    SerialCrcAbsorbs(Oem(), initial, a);
    SerialCrcAbsorbs(Oem(), initial, b);
    XorSelf(initial);
    AbsorbLinear(Generator(), initial, initial, x, y);
    XorSelf(Crc32(initial, b));
  }
}
