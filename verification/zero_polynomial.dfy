/** The zero polynomial of the Chorba algorithm: x^300 + x^211 + x^183 + x^145 + 1 is a
  multiple of the generator polynomial of section 3.2.9 of IEEE 802.3.

  The 300 register steps are computed on machine words and carried over to bit lists by
  `StepIsFeed`; linearity extends the result from one bit to every register. */
module ZeroPolynomial {
  import opened BitLists
  import opened ShiftRegister
  import opened MachineRegister
  import opened RegisterRun

  /** The register after n zero bits. */
  function Shifted(r: Bits, n: nat): (s: Bits)
    requires |r| == 32
    ensures |s| == 32
  {
    Absorb(Generator(), r, Zeros(n))
  }

  lemma ShiftedAdd(r: Bits, m: nat, n: nat)
    requires |r| == 32
    ensures Shifted(Shifted(r, m), n) == Shifted(r, m + n)
  {
    hide Absorb, Generator;
    assert Zeros(m + n) == Zeros(m) + Zeros(n);
    AbsorbConcat(Generator(), r, Zeros(m), Zeros(n));
  }

  lemma ShiftedStep(x: bv32)
    ensures Shifted(Word(x), 1) == Word(Step(x))
  {
    hide Word, Step, Feed, Generator;
    StepIsFeed(x);
    assert Zeros(1)[0] == false && Zeros(1)[1..] == [];
  }

  lemma {:induction false} RunIsShifted(x: bv32, n: nat)
    ensures Shifted(Word(x), n) == Word(Run(x, n))
    decreases n
  {
    hide Shifted, Word, Step;
    if n == 0 {
      ShiftedNone(Word(x));
    } else {
      ShiftedStep(x);
      ShiftedAdd(Word(x), 1, n - 1);
      RunIsShifted(Step(x), n - 1);
    }
  }

  lemma ShiftedNone(r: Bits)
    requires |r| == 32
    ensures Shifted(r, 0) == r
  {
  }

  /** What the four lower terms of the zero polynomial make of a register. */
  function LowerTerms(r: Bits): (s: Bits)
    requires |r| == 32
    ensures |s| == 32
  {
    Xor(Xor(Shifted(r, 155), Shifted(r, 117)), Xor(Shifted(r, 89), r))
  }

  lemma TopBitIdentity(u: Bits)
    requires u == Word(0x80000000)
    ensures Shifted(u, 300) == LowerTerms(u)
  {
    hide Shifted, Word, Xor, Run;
    var top: bv32, at89: bv32, at117: bv32 := 0x80000000, 0x299DC2ED, 0xB0D97382;
    var at155: bv32, at235: bv32 := 0xE6273E9E, 0xAA525B78;
    Milestone89();
    Milestone117();
    Milestone155();
    Milestone235();
    Milestone300();
    RunIsShifted(top, 89);
    RunIsShifted(at89, 28);
    RunIsShifted(at117, 38);
    RunIsShifted(at155, 80);
    RunIsShifted(at235, 65);
    ShiftedAdd(u, 89, 28);
    ShiftedAdd(u, 117, 38);
    ShiftedAdd(u, 155, 80);
    ShiftedAdd(u, 235, 65);
    WordXor(at155, at117);
    WordXor(at89, top);
    WordXor(at155 ^ at117, at89 ^ top);
    assert (at155 ^ at117) ^ (at89 ^ top) == 0xFF638FF1;
  }

  // ---------------------------------------------------------------- every register

  lemma ShiftedLinear(r: Bits, s: Bits, n: nat)
    requires |r| == |s| == 32
    ensures Shifted(Xor(r, s), n) == Xor(Shifted(r, n), Shifted(s, n))
  {
    hide Absorb, Generator, Xor;
    XorZero(Zeros(n));
    AbsorbLinear(Generator(), r, s, Zeros(n), Zeros(n));
  }

  lemma Shuffle(a: Bits, b: Bits, c: Bits, d: Bits, e: Bits, f: Bits, g: Bits, h: Bits)
    requires |a| == |b| == |c| == |d| == |e| == |f| == |g| == |h|
    ensures Xor(Xor(Xor(a, b), Xor(c, d)), Xor(Xor(e, f), Xor(g, h)))
         == Xor(Xor(Xor(a, e), Xor(b, f)), Xor(Xor(c, g), Xor(d, h)))
  {
  }

  lemma LowerTermsLinear(r: Bits, s: Bits)
    requires |r| == |s| == 32
    ensures LowerTerms(Xor(r, s)) == Xor(LowerTerms(r), LowerTerms(s))
  {
    hide Shifted, Xor;
    ShiftedLinear(r, s, 155);
    ShiftedLinear(r, s, 117);
    ShiftedLinear(r, s, 89);
    Shuffle(Shifted(r, 155), Shifted(r, 117), Shifted(r, 89), r, Shifted(s, 155), Shifted(s, 117), Shifted(s, 89), s);
  }

  lemma LowerTermsShift(r: Bits, n: nat)
    requires |r| == 32
    ensures LowerTerms(Shifted(r, n)) == Shifted(LowerTerms(r), n)
  {
    hide Shifted, Xor;
    ShiftedAdd(r, 155, n);
    ShiftedAdd(r, n, 155);
    ShiftedAdd(r, 117, n);
    ShiftedAdd(r, n, 117);
    ShiftedAdd(r, 89, n);
    ShiftedAdd(r, n, 89);
    ShiftedLinear(Shifted(r, 155), Shifted(r, 117), n);
    ShiftedLinear(Shifted(r, 89), r, n);
    ShiftedLinear(Xor(Shifted(r, 155), Shifted(r, 117)), Xor(Shifted(r, 89), r), n);
  }

  ghost predicate Identity(r: Bits)
    requires |r| == 32
  {
    Shifted(r, 300) == LowerTerms(r)
  }

  lemma IdentityAdds(r: Bits, s: Bits)
    requires |r| == |s| == 32 && Identity(r) && Identity(s)
    ensures Identity(Xor(r, s))
  {
    hide Shifted, Xor, LowerTerms;
    ShiftedLinear(r, s, 300);
    LowerTermsLinear(r, s);
  }

  lemma IdentityShifts(r: Bits, n: nat)
    requires |r| == 32 && Identity(r)
    ensures Identity(Shifted(r, n))
  {
    hide Shifted, LowerTerms;
    ShiftedAdd(r, 300, n);
    ShiftedAdd(r, n, 300);
    LowerTermsShift(r, n);
  }

  function Unit(k: nat): (r: Bits)
    requires k < 32
    ensures |r| == 32
  {
    Zeros(k) + [true] + Zeros(31 - k)
  }

  lemma TopUnit()
    ensures Word(0x80000000) == Unit(31)
  {
    var w, u := Word(0x80000000), Unit(31);
    forall i | 0 <= i < 32
      ensures w[i] == u[i]
    {
      WordAt(0x80000000, i);
      if i < 31 {
        MaskHasOneBit(i);
        MaskNonZero(i + 1);
        OnlyTop(Mask(i));
      } else {
        TopMask();
      }
    }
  }

  lemma UnitIdentity(k: nat)
    requires k < 32
    ensures Identity(Unit(k))
  {
    hide Word, Feed, Generator, LowerTerms;
    TopUnit();
    TopBitIdentity(Unit(31));
    IdentityShifts(Unit(31), 31 - k);
    var p, y := Zeros(31 - k), Zeros(k) + [true];
    assert Unit(31) == p + y;
    Cancel(Generator(), p, y);
    assert Unit(k) == y + Zeros(31 - k);
  }

  lemma {:induction false} PrefixIdentity(x: Bits)
    requires |x| <= 32
    ensures Identity(x + Zeros(32 - |x|))
    decreases |x|
  {
    hide Identity, Unit;
    if x == [] {
      UnitIdentity(0);
      IdentityAdds(Unit(0), Unit(0));
      XorSelf(Unit(0));
      assert [] + Zeros(32) == Zeros(32);
    } else {
      var k := |x| - 1;
      PrefixIdentity(x[..k]);
      var r := x[..k] + Zeros(32 - k);
      if x[k] {
        UnitIdentity(k);
        IdentityAdds(r, Unit(k));
        AddUnit(x, k);
      } else {
        assert r == x + Zeros(32 - |x|);
      }
    }
  }

  lemma AddUnit(x: Bits, k: nat)
    requires |x| == k + 1 <= 32 && x[k]
    ensures Xor(x[..k] + Zeros(32 - k), Unit(k)) == x + Zeros(32 - |x|)
  {
  }

  /** x^300 + x^211 + x^183 + x^145 + 1 vanishes: in stream order, 300 steps of any register
      equal the sum of 155, 117, 89 and 0 steps. */
  lemma ZeroPolynomialVanishes(r: Bits)
    requires |r| == 32
    ensures Shifted(r, 300) == Xor(Xor(Shifted(r, 155), Shifted(r, 117)), Xor(Shifted(r, 89), r))
  {
    PrefixIdentity(r);
    assert r + Zeros(0) == r;
  }
}
