/** The linear feedback shift register behind every CRC in the project.

  A register is written in stream order: position 0 holds the bit that leaves next.  `Feed`
  is one step of polynomial division with one message bit; `Absorb` feeds a whole message. */
module ShiftRegister {
  import opened BitLists

  function Feed(g: Bits, r: Bits, bit: bool): (s: Bits)
    requires |g| == |r| > 0
    ensures |s| == |r|
  {
    var shifted := r[1..] + [false];
    if r[0] != bit then Xor(shifted, g) else shifted
  }

  function Absorb(g: Bits, r: Bits, m: Bits): (s: Bits)
    requires |g| == |r| > 0
    ensures |s| == |r|
    decreases |m|
  {
    if m == [] then r else Absorb(g, Feed(g, r, m[0]), m[1..])
  }

  lemma FeedLinear(g: Bits, r: Bits, s: Bits, a: bool, b: bool)
    requires |g| == |r| == |s| > 0
    ensures Feed(g, Xor(r, s), a != b) == Xor(Feed(g, r, a), Feed(g, s, b))
  {
  }

  /** Superposition: the register is linear in its start value and the message together. */
  lemma {:induction false} AbsorbLinear(g: Bits, r: Bits, s: Bits, m: Bits, n: Bits)
    requires |g| == |r| == |s| > 0 && |m| == |n|
    ensures Absorb(g, Xor(r, s), Xor(m, n)) == Xor(Absorb(g, r, m), Absorb(g, s, n))
    decreases |m|
  {
    if m != [] {
      assert Xor(m, n)[1..] == Xor(m[1..], n[1..]);
      FeedLinear(g, r, s, m[0], n[0]);
      AbsorbLinear(g, Feed(g, r, m[0]), Feed(g, s, n[0]), m[1..], n[1..]);
    }
  }

  lemma {:induction false} AbsorbConcat(g: Bits, r: Bits, m: Bits, n: Bits)
    requires |g| == |r| > 0
    ensures Absorb(g, r, m + n) == Absorb(g, Absorb(g, r, m), n)
    decreases |m|
  {
    if m == [] {
      assert m + n == n;
    } else {
      assert (m + n)[1..] == m[1..] + n;
      AbsorbConcat(g, Feed(g, r, m[0]), m[1..], n);
    }
  }

  /** A message equal to the head of the register cancels it: the register only shifts. */
  lemma {:induction false} Cancel(g: Bits, p: Bits, y: Bits)
    requires |g| == |p| + |y| > 0
    ensures Absorb(g, p + y, p) == y + Zeros(|p|)
    decreases |p|
  {
    if p == [] {
      assert p + y == y + Zeros(0);
    } else {
      assert (p + y)[1..] + [false] == p[1..] + (y + [false]);
      Cancel(g, p[1..], y + [false]);
      assert (y + [false]) + Zeros(|p| - 1) == y + Zeros(|p|);
    }
  }

  lemma {:induction false} ZeroStays(g: Bits, n: nat)
    requires |g| > 0
    ensures Absorb(g, Zeros(|g|), Zeros(n)) == Zeros(|g|)
    decreases n
  {
    if n > 0 {
      assert Zeros(|g|)[1..] + [false] == Zeros(|g|);
      assert Zeros(n)[1..] == Zeros(n - 1);
      ZeroStays(g, n - 1);
    }
  }

  /** Feeding a message no longer than the register: the rest of the register just shifts,
      and the head of the register is as good as a part of the message. */
  lemma AbsorbShort(g: Bits, p: Bits, y: Bits, m: Bits)
    requires |g| == |p| + |y| > 0 && |m| == |p|
    ensures Absorb(g, p + y, m) == Xor(y + Zeros(|p|), Absorb(g, Zeros(|g|), Xor(m, p)))
  {
    Cancel(g, p, y);
    XorZero(p + y);
    XorComm(m, p);
    XorCancel(p, m);
    AbsorbLinear(g, p + y, Zeros(|g|), p, Xor(m, p));
  }

  /** Feeding a message at least as long as the register: the register can start at zero
      if its value is added to the first bits of the message. */
  lemma AbsorbLong(g: Bits, r: Bits, m: Bits)
    requires |g| == |r| > 0 && |r| <= |m|
    ensures Absorb(g, r, m) == Absorb(g, Zeros(|r|), Xor(m, r + Zeros(|m| - |r|)))
  {
    var z := Zeros(|m| - |r|);
    XorZero(r);
    XorComm(m, r + z);
    XorCancel(r + z, m);
    AbsorbLinear(g, r, Zeros(|r|), r + z, Xor(m, r + z));
    AbsorbConcat(g, r, r, z);
    assert r + [] == r;
    Cancel(g, r, []);
    assert [] + Zeros(|r|) == Zeros(|r|);
    ZeroStays(g, |z|);
    XorZero(Absorb(g, Zeros(|r|), Xor(m, r + z)));
  }

  /** Splitting off the first part of a message fed into an empty register. */
  lemma AbsorbSplit(g: Bits, m: Bits, n: Bits)
    requires |g| > 0
    ensures Absorb(g, Zeros(|g|), m + n)
         == Xor(Absorb(g, Zeros(|g|), m + Zeros(|n|)), Absorb(g, Zeros(|g|), n))
  {
    var r := Absorb(g, Zeros(|g|), m);
    AbsorbConcat(g, Zeros(|g|), m, n);
    AbsorbConcat(g, Zeros(|g|), m, Zeros(|n|));
    XorZero(r);
    XorZero(n);
    AbsorbLinear(g, r, Zeros(|g|), Zeros(|n|), n);
  }
}
