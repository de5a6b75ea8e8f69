/** The 32-bit register of the reflected CRC as a machine word, and as a bit list. */
module MachineRegister {
  import opened BitLists
  import ShiftRegister

  /** The bit of weight 2^i of a machine word. */
  function Mask(i: nat): bv32 {
    if i == 0 then 1 else Mask(i - 1) << 1
  }

  function At(x: bv32, m: bv32): bool { x & m != 0 }

  /** A machine word as a bit list. */
  function Word(x: bv32): (r: Bits)
    ensures |r| == 32
  {
    seq(32, i requires 0 <= i < 32 => At(x, Mask(i)))
  }

  /** The reflected generator polynomial. */
  function Generator(): (g: Bits)
    ensures |g| == 32
  {
    Word(0xEDB88320)
  }

  /** The register step on a machine word. */
  function Step(x: bv32): bv32 {
    (x >> 1) ^ (if x & 1 != 0 then 0xEDB88320 else 0)
  }

  ghost predicate AtMostOneBit(m: bv32) { m & (m - 1) == 0 }

  lemma {:induction false} MaskHasOneBit(i: nat)
    ensures AtMostOneBit(Mask(i))
  {
    if i > 0 {
      MaskHasOneBit(i - 1);
      ShiftKeepsOneBit(Mask(i - 1));
    }
  }

  lemma ShiftKeepsOneBit(m: bv32)
    requires AtMostOneBit(m)
    ensures AtMostOneBit(m << 1)
  {
  }

  lemma TopMask()
    ensures Mask(31) == 0x8000_0000 && Mask(32) == 0
  {
    assert Mask(8) == 0x100;
    assert Mask(16) == 0x1_0000;
    assert Mask(24) == 0x100_0000;
  }

  lemma StepBit(x: bv32, m: bv32)
    requires AtMostOneBit(m)
    ensures At(Step(x), m) == (At(x, m << 1) != (At(x, 1) && At(0xEDB88320, m)))
  {
  }

  lemma FeedAt(g: Bits, r: Bits, i: nat)
    requires |g| == |r| > i
    ensures ShiftRegister.Feed(g, r, false)[i] == ((i + 1 < |r| && r[i + 1]) != (r[0] && g[i]))
  {
  }

  lemma WordAt(x: bv32, i: nat)
    requires i < 32
    ensures Word(x)[i] == At(x, Mask(i))
  {
  }

  lemma StepAt(x: bv32, i: nat)
    requires i < 32
    ensures ShiftRegister.Feed(Generator(), Word(x), false)[i] == Word(Step(x))[i]
  {
    hide At, Step, Word, ShiftRegister.Feed;
    FeedAt(Generator(), Word(x), i);
    WordAt(0xEDB88320, i);
    WordAt(x, 0);
    WordAt(Step(x), i);
    MaskHasOneBit(i);
    StepBit(x, Mask(i));
    if i < 31 {
      WordAt(x, i + 1);
    } else {
      TopMask();
      NoBit(x);
    }
  }

  lemma NoBit(x: bv32)
    ensures !At(x, 0)
  {
  }

  /** One step of the machine-word register is one step of the bit-list register. */
  lemma StepIsFeed(x: bv32)
    ensures ShiftRegister.Feed(Generator(), Word(x), false) == Word(Step(x))
  {
    hide *;
    forall i | 0 <= i < 32
      ensures ShiftRegister.Feed(Generator(), Word(x), false)[i] == Word(Step(x))[i]
    {
      StepAt(x, i);
    }
  }

  lemma WordXor(x: bv32, y: bv32)
    ensures Word(x ^ y) == Xor(Word(x), Word(y))
  {
    hide At;
    forall i | 0 <= i < 32
      ensures At(x ^ y, Mask(i)) == (At(x, Mask(i)) != At(y, Mask(i)))
    {
      MaskHasOneBit(i);
      XorBit(x, y, Mask(i));
    }
  }

  lemma XorBit(x: bv32, y: bv32, m: bv32)
    requires AtMostOneBit(m)
    ensures At(x ^ y, m) == (At(x, m) != At(y, m))
  {
  }

  lemma {:induction false} MaskNonZero(i: nat)
    requires i < 32
    ensures Mask(i) != 0
    decreases 32 - i
  {
    if i == 31 {
      TopMask();
    } else {
      MaskNonZero(i + 1);
    }
  }

  lemma OnlyTop(m: bv32)
    requires AtMostOneBit(m) && m << 1 != 0
    ensures !At(0x80000000, m)
  {
  }
}
