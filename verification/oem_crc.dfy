/** The OEM CRC-32: the Chorba algorithm on long buffers, slice-by-8 on short ones. */
module OemCrc {
  import opened BitLists
  import opened ShiftRegister
  import opened Crc
  import CrcBlock
  import opened MachineRegister
  import opened ZeroPolynomial

  const CHORBA_WINDOW: nat := 48

  /** uint32_t, 0xEDB88320, reflected */
  function Oem(): (p: Params)
    ensures p.Valid() && |p.poly| == 32
  {
    Params(Generator(), true)
  }

  /** The reference: fold CalculateCharacterCrc32 over the bytes. */
  function Crc32(initial: Bits, data: seq<byte>): (r: Bits)
    requires |initial| == 32
    ensures |r| == 32
  {
    SerialCrc(Oem(), initial, data)
  }

  ghost predicate IsWords(ws: seq<Bits>, n: nat) {
    |ws| == n && forall k | 0 <= k < n :: |ws[k]| == 64
  }

  /** Five 64-bit words in stream order: on a little-endian host, the memory they fill. */
  function Five(a: Bits, b: Bits, c: Bits, d: Bits, e: Bits): (r: Bits)
    requires |a| == |b| == |c| == |d| == |e| == 64
    ensures |r| == 320
  {
    a + (b + (c + (d + e)))
  }

  lemma FiveXor(a: Bits, b: Bits, c: Bits, d: Bits, e: Bits, f: Bits, g: Bits, h: Bits, i: Bits, j: Bits)
    requires |a| == |b| == |c| == |d| == |e| == |f| == |g| == |h| == |i| == |j| == 64
    ensures Xor(Five(a, b, c, d, e), Five(f, g, h, i, j)) == Five(Xor(a, f), Xor(b, g), Xor(c, h), Xor(d, i), Xor(e, j))
  {
    hide Xor;
    XorConcat(d, e, i, j);
    XorConcat(c, d + e, h, i + j);
    XorConcat(b, c + (d + e), g, h + (i + j));
    XorConcat(a, b + (c + (d + e)), f, g + (h + (i + j)));
  }

  /** A word moved k bits down a stream of five words. */
  function Moved(cur: Bits, k: nat): (r: Bits)
    requires |cur| == 64 && k <= 256
    ensures |r| == 320
  {
    Zeros(k) + (cur + Zeros(256 - k))
  }

  /** A left shift by s and its overflow into the next word move the word s bits down. */
  lemma MovedWords(cur: Bits, q: nat, s: nat)
    requires |cur| == 64 && q <= 3 && 0 < s < 64
    ensures Moved(cur, 64 * q + s) == Zeros(64 * q) + (Shl(cur, s) + (Shr(cur, 64 - s) + Zeros(64 * (3 - q))))
  {
  }

  lemma MovedByTerm(cur: Bits)
    requires |cur| == 64
    ensures var z := Zeros(64);
            && Moved(cur, 81) == Five(z, Shl(cur, 17), Shr(cur, 47), z, z)
            && Moved(cur, 119) == Five(z, Shl(cur, 55), Shr(cur, 9), z, z)
            && Moved(cur, 147) == Five(z, z, Shl(cur, 19), Shr(cur, 45), z)
            && Moved(cur, 236) == Five(z, z, z, Shl(cur, 44), Shr(cur, 20))
  {
    hide Moved, Shl, Shr;
    MovedWords(cur, 1, 17);
    MovedWords(cur, 1, 55);
    MovedWords(cur, 2, 19);
    MovedWords(cur, 3, 44);
    assert Zeros(128) == Zeros(64) + Zeros(64);
    assert Zeros(192) == Zeros(64) + (Zeros(64) + Zeros(64));
    var z, m, n := Zeros(64), Shl(cur, 19), Shr(cur, 45);
    assert Zeros(128) + (m + (n + z)) == z + (z + (m + (n + z)));
    var o, w := Shl(cur, 44), Shr(cur, 20);
    assert Zeros(192) + (o + (w + [])) == z + (z + (z + (o + w)));
  }

  /** The words that the algorithm pushes downstream for one word of input. */
  function Spread(cur: Bits): (r: Bits)
    requires |cur| == 64
    ensures |r| == 320
  {
    Five(Zeros(64),
         Xor(Shl(cur, 17), Shl(cur, 55)),
         Xor(Xor(Shr(cur, 47), Shr(cur, 9)), Shl(cur, 19)),
         Xor(Shr(cur, 45), Shl(cur, 44)),
         Shr(cur, 20))
  }

  lemma SpreadIsSum(cur: Bits)
    requires |cur| == 64
    ensures Spread(cur) == Xor(Xor(Moved(cur, 81), Moved(cur, 119)), Xor(Moved(cur, 147), Moved(cur, 236)))
  {
    hide Moved, Shl, Shr, Five, Xor;
    var z := Zeros(64);
    MovedByTerm(cur);
    FiveXor(z, Shl(cur, 17), Shr(cur, 47), z, z, z, Shl(cur, 55), Shr(cur, 9), z, z);
    FiveXor(z, z, Shl(cur, 19), Shr(cur, 45), z, z, z, z, Shl(cur, 44), Shr(cur, 20));
    XorSelf(z);
    XorZero(Shl(cur, 19));
    XorZero(Shl(cur, 44));
    XorZero(Shr(cur, 45));
    XorZero(Shr(cur, 20));
    var f0, c := Xor(Shl(cur, 17), Shl(cur, 55)), Xor(Shr(cur, 47), Shr(cur, 9));
    FiveXor(z, f0, c, z, z, z, z, Shl(cur, 19), Xor(Shr(cur, 45), Shl(cur, 44)), Shr(cur, 20));
    XorZero(f0);
    XorZero(Xor(Shr(cur, 45), Shl(cur, 44)));
  }

  function Divide(m: Bits): (r: Bits)
    ensures |r| == 32
  {
    Absorb(Generator(), Zeros(32), m)
  }

  lemma DivideLinear(m: Bits, n: Bits)
    requires |m| == |n|
    ensures Divide(Xor(m, n)) == Xor(Divide(m), Divide(n))
  {
    hide Absorb, Generator, Xor;
    XorZero(Zeros(32));
    AbsorbLinear(Generator(), Zeros(32), Zeros(32), m, n);
  }

  lemma DivideZeros(m: Bits, n: nat)
    ensures Divide(m + Zeros(n)) == Shifted(Divide(m), n)
  {
    hide Absorb, Generator;
    AbsorbConcat(Generator(), Zeros(32), m, Zeros(n));
  }

  lemma DivideMoved(cur: Bits, k: nat)
    requires |cur| == 64 && k <= 256
    ensures Divide(Moved(cur, k)) == Shifted(Divide(cur), 256 - k)
  {
    hide Absorb, Generator;
    AbsorbConcat(Generator(), Zeros(32), Zeros(k), cur + Zeros(256 - k));
    ZeroStays(Generator(), k);
    DivideZeros(cur, 256 - k);
  }

  /** A word followed by five zero words has the remainder of what it spreads to. */
  lemma SpreadKeepsRemainder(cur: Bits)
    requires |cur| == 64
    ensures Divide(Spread(cur)) == Divide(cur + Zeros(320))
  {
    hide Divide, Moved, Spread, Xor, Shifted;
    var r := Divide(cur);
    SpreadIsSum(cur);
    DivideLinear(Moved(cur, 81), Moved(cur, 119));
    DivideLinear(Moved(cur, 147), Moved(cur, 236));
    DivideLinear(Xor(Moved(cur, 81), Moved(cur, 119)), Xor(Moved(cur, 147), Moved(cur, 236)));
    DivideMoved(cur, 81);
    DivideMoved(cur, 119);
    DivideMoved(cur, 147);
    DivideMoved(cur, 236);
    DivideZeros(cur, 320);
    ZeroPolynomialVanishes(r);
    ShiftedLinear(Shifted(r, 155), Shifted(r, 117), 20);
    ShiftedLinear(Shifted(r, 89), r, 20);
    ShiftedLinear(Xor(Shifted(r, 155), Shifted(r, 117)), Xor(Shifted(r, 89), r), 20);
    ShiftedAdd(r, 300, 20);
    ShiftedAdd(r, 155, 20);
    ShiftedAdd(r, 117, 20);
    ShiftedAdd(r, 89, 20);
  }

  /** Replacing the first word by what it spreads to, in a message of any length. */
  lemma Chorba(cur: Bits, q: Bits)
    requires |cur| == 64 && |q| >= 320
    ensures Divide(cur + q) == Divide(Xor(q, Spread(cur) + Zeros(|q| - 320)))
  {
    hide Absorb, Generator, Xor, Spread, Shifted;
    var n := |q| - 320;
    AbsorbSplit(Generator(), cur, q);
    assert cur + Zeros(|q|) == (cur + Zeros(320)) + Zeros(n);
    DivideZeros(cur + Zeros(320), n);
    DivideZeros(Spread(cur), n);
    SpreadKeepsRemainder(cur);
    DivideLinear(q, Spread(cur) + Zeros(n));
    XorComm(Divide(q), Divide(cur + Zeros(|q|)));
  }

  // ---------------------------------------------------------------- the algorithm

  /** The bits of the remaining input with the accumulators added to its next five words. */
  function Pending(acc: seq<Bits>, rest: seq<byte>): (r: Bits)
    requires IsWords(acc, 5) && |rest| >= 40
    ensures |r| == 8 * |rest|
  {
    Xor(Flatten(Oem(), rest), Five(acc[0], acc[1], acc[2], acc[3], acc[4]) + Zeros(8 * |rest| - 320))
  }

  /** Before the loop only the initial CRC is pending. */
  lemma PendingStart(initial: Bits, data: seq<byte>)
    requires |initial| == 32 && |data| >= 40
    ensures var z := Zeros(64);
            Crc32(initial, data) == Divide(Pending([initial + Zeros(32), z, z, z, z], data))
  {
    hide Absorb, Xor, Flatten, Generator, Five, Zeros;
    var n := 8 * |data| - 320;
    SerialCrcAbsorbs(Oem(), initial, data);
    AbsorbLong(Generator(), initial, Flatten(Oem(), data));
    ZerosBehind(initial, n);
  }

  lemma ZerosBehind(initial: Bits, n: nat)
    requires |initial| == 32
    ensures var z := Zeros(64); initial + Zeros(n + 288) == Five(initial + Zeros(32), z, z, z, z) + Zeros(n)
  {
  }

  /** The first word of the pending input, and what is left when it is cut off. */
  lemma PendingSplit(acc: seq<Bits>, rest: seq<byte>)
    requires IsWords(acc, 5) && |rest| >= 48
    ensures var cur := Xor(Flatten(Oem(), rest[..8]), acc[0]);
            Pending(acc, rest) == cur + Pending([acc[1], acc[2], acc[3], acc[4], Zeros(64)], rest[8..])
  {
    hide Xor, Flatten;
    var n := 8 * |rest| - 320;
    var tail := Five(acc[1], acc[2], acc[3], acc[4], Zeros(64)) + Zeros(n - 64);
    assert rest == rest[..8] + rest[8..];
    FlattenConcat(Oem(), rest[..8], rest[8..]);
    assert Five(acc[0], acc[1], acc[2], acc[3], acc[4]) + Zeros(n) == acc[0] + tail;
    XorConcat(Flatten(Oem(), rest[..8]), Flatten(Oem(), rest[8..]), acc[0], tail);
  }

  lemma PendingAdd(a: seq<Bits>, b: seq<Bits>, rest: seq<byte>)
    requires IsWords(a, 5) && IsWords(b, 5) && |rest| >= 40
    ensures Pending([Xor(a[0], b[0]), Xor(a[1], b[1]), Xor(a[2], b[2]), Xor(a[3], b[3]), Xor(a[4], b[4])], rest)
         == Xor(Pending(a, rest), Five(b[0], b[1], b[2], b[3], b[4]) + Zeros(8 * |rest| - 320))
  {
    hide Xor, Flatten, Five;
    var z := Zeros(8 * |rest| - 320);
    var x, y := Five(a[0], a[1], a[2], a[3], a[4]), Five(b[0], b[1], b[2], b[3], b[4]);
    FiveXor(a[0], a[1], a[2], a[3], a[4], b[0], b[1], b[2], b[3], b[4]);
    XorSelf(z);
    XorConcat(x, z, y, z);
    XorAssoc(Flatten(Oem(), rest), x + z, y + z);
  }

  /** The accumulators after one iteration whose input word is m. */
  function Next(acc: seq<Bits>, m: Bits): (next: seq<Bits>)
    requires IsWords(acc, 5) && |m| == 64
    ensures IsWords(next, 5)
  {
    var cur := Xor(m, acc[0]);
    [ acc[1],
      Xor(acc[2], Xor(Shl(cur, 17), Shl(cur, 55))),
      Xor(acc[3], Xor(Xor(Shr(cur, 47), Shr(cur, 9)), Shl(cur, 19))),
      Xor(acc[4], Xor(Shr(cur, 45), Shl(cur, 44))),
      Shr(cur, 20) ]
  }

  /** One iteration of the main loop keeps the remainder of the pending input. */
  lemma IterationKeepsRemainder(acc: seq<Bits>, rest: seq<byte>)
    requires IsWords(acc, 5) && |rest| >= 48
    ensures Divide(Pending(acc, rest)) == Divide(Pending(Next(acc, Flatten(Oem(), rest[..8])), rest[8..]))
  {
    hide Xor, Flatten, Five, Divide, Pending, Shl, Shr;
    var cur := Xor(Flatten(Oem(), rest[..8]), acc[0]);
    var f0 := Xor(Shl(cur, 17), Shl(cur, 55));
    var f1 := Xor(Xor(Shr(cur, 47), Shr(cur, 9)), Shl(cur, 19));
    var f2 := Xor(Shr(cur, 45), Shl(cur, 44));
    var z := Zeros(64);
    PendingSplit(acc, rest);
    Chorba(cur, Pending([acc[1], acc[2], acc[3], acc[4], z], rest[8..]));
    PendingAdd([acc[1], acc[2], acc[3], acc[4], z], [z, f0, f1, f2, Shr(cur, 20)], rest[8..]);
    XorZero(acc[1]);
    XorZero(Shr(cur, 20));
  }

  // ---------------------------------------------------------------- the leftover words

  /** Six 64-bit words holding at most 48 bytes, zero filled: memcpy into zeroed words. */
  function ToWords(data: seq<byte>): (ws: seq<Bits>)
    requires |data| <= 48
    ensures IsWords(ws, 6)
  {
    var m := Flatten(Oem(), data) + Zeros(384 - 8 * |data|);
    seq(6, j requires 0 <= j < 6 => m[64 * j..64 * (j + 1)])
  }

  /** The bytes that six words occupy on a little-endian host. */
  function ToBytes(ws: seq<Bits>): (b: seq<byte>)
    requires IsWords(ws, 6)
    ensures |b| == 48
  {
    seq(48, k requires 0 <= k < 48 => BitsByte(ws[k / 8][8 * (k % 8)..8 * (k % 8) + 8]))
  }

  lemma {:induction false} FlattenBits(data: seq<byte>, m: Bits)
    requires |m| == 8 * |data|
    requires forall k | 0 <= k < |data| :: ByteBits(data[k]) == m[8 * k..8 * k + 8]
    ensures Flatten(Oem(), data) == m
    decreases |data|
  {
    hide ByteBits;
    if data != [] {
      forall k | 0 <= k < |data| - 1
        ensures ByteBits(data[1..][k]) == m[8..][8 * k..8 * k + 8]
      {
        assert data[1..][k] == data[k + 1];
        assert m[8..][8 * k..8 * k + 8] == m[8 * (k + 1)..8 * (k + 1) + 8];
      }
      FlattenBits(data[1..], m[8..]);
      assert ByteBits(data[0]) == m[0..8];
      assert m == m[0..8] + m[8..];
    }
  }

  function Concat(ws: seq<Bits>): (r: Bits)
    requires forall k | 0 <= k < |ws| :: |ws[k]| == 64
    ensures |r| == 64 * |ws|
  {
    if ws == [] then [] else ws[0] + Concat(ws[1..])
  }

  lemma {:induction false} ConcatSlice(ws: seq<Bits>, j: nat, lo: nat, hi: nat)
    requires forall k | 0 <= k < |ws| :: |ws[k]| == 64
    requires j < |ws| && lo <= hi <= 64
    ensures Concat(ws)[64 * j + lo..64 * j + hi] == ws[j][lo..hi]
    decreases j
  {
    if j > 0 {
      ConcatSlice(ws[1..], j - 1, lo, hi);
      var w, rest := ws[0], Concat(ws[1..]);
      assert Concat(ws) == w + rest && |w| == 64;
      assert Concat(ws)[64 * j + lo..64 * j + hi] == Concat(ws[1..])[64 * (j - 1) + lo..64 * (j - 1) + hi];
    }
  }

  lemma ToBytesBits(ws: seq<Bits>)
    requires IsWords(ws, 6)
    ensures Flatten(Oem(), ToBytes(ws)) == Concat(ws)
  {
    hide Flatten, ByteBits, BitsByte, Concat;
    var m := Concat(ws);
    forall k | 0 <= k < 48
      ensures ByteBits(ToBytes(ws)[k]) == m[8 * k..8 * k + 8]
    {
      var lo := 8 * (k % 8);
      ConcatSlice(ws, k / 8, lo, lo + 8);
      BytesAreBits(0, ws[k / 8][lo..lo + 8]);
    }
    FlattenBits(ToBytes(ws), m);
  }

  lemma SixConcat(ws: seq<Bits>)
    requires IsWords(ws, 6)
    ensures Concat(ws) == Five(ws[0], ws[1], ws[2], ws[3], ws[4]) + ws[5]
  {
    assert Concat(ws[5..]) == ws[5] + Concat(ws[6..]);
    assert Concat(ws[3..]) == ws[3] + (ws[4] + Concat(ws[5..])) by { assert ws[3..][1..] == ws[4..]; assert ws[4..][1..] == ws[5..]; }
    assert Concat(ws[1..]) == ws[1] + (ws[2] + Concat(ws[3..])) by { assert ws[1..][1..] == ws[2..]; assert ws[2..][1..] == ws[3..]; }
  }

  lemma ToWordsConcat(data: seq<byte>)
    requires |data| <= 48
    ensures Concat(ToWords(data)) == Flatten(Oem(), data) + Zeros(384 - 8 * |data|)
  {
    hide Flatten;
    SixConcat(ToWords(data));
    SixSlices(Flatten(Oem(), data) + Zeros(384 - 8 * |data|));
  }

  lemma SixSlices(m: Bits)
    requires |m| == 384
    ensures m == Five(m[0..64], m[64..128], m[128..192], m[192..256], m[256..320]) + m[320..384]
  {
  }

  /** ws with the accumulators added to the first five words */
  ghost predicate Patched(acc: seq<Bits>, ws: seq<Bits>, out: seq<Bits>)
    requires IsWords(acc, 5) && IsWords(ws, 6)
  {
    && |out| == 6 && out[5] == ws[5]
    && forall j | 0 <= j < 5 :: out[j] == Xor(ws[j], acc[j])
  }

  /** At loop exit at least 41 bytes remain, so all five accumulators land in the tail. */
  lemma PatchedTail(acc: seq<Bits>, rest: seq<byte>, out: seq<Bits>)
    requires IsWords(acc, 5) && 40 <= |rest| <= 48 && Patched(acc, ToWords(rest), out)
    ensures Flatten(Oem(), ToBytes(out)[..|rest|]) == Pending(acc, rest)
  {
    hide Flatten, Xor, Concat, ToBytes, ToWords, Five;
    var ws, n := ToWords(rest), 8 * |rest|;
    var z, pad := Zeros(64), Zeros(384 - n);
    var five := Five(acc[0], acc[1], acc[2], acc[3], acc[4]);
    ToBytesBits(out);
    SixConcat(out);
    SixConcat(ws);
    ToWordsConcat(rest);
    FiveXor(ws[0], ws[1], ws[2], ws[3], ws[4], acc[0], acc[1], acc[2], acc[3], acc[4]);
    XorZero(ws[5]);
    XorConcat(Five(ws[0], ws[1], ws[2], ws[3], ws[4]), ws[5], five, z);
    assert five + z == (five + Zeros(n - 320)) + pad;
    XorConcat(Flatten(Oem(), rest), pad, five + Zeros(n - 320), pad);
    var b := ToBytes(out);
    assert b == b[..|rest|] + b[|rest|..];
    FlattenConcat(Oem(), b[..|rest|], b[|rest|..]);
    assert Flatten(Oem(), b)[..n] == Flatten(Oem(), b[..|rest|]);
  }

  // ---------------------------------------------------------------- the code

  /** CalculateBlockCrc32Chorba */
  method CalculateBlockCrc32Chorba(tables: array2<Bits>, buffer: array<byte>, start: nat, count: nat, initial: Bits)
    returns (crc: Bits)
    requires CrcBlock.IsTable(Oem(), tables) && |initial| == 32
    requires start + count <= buffer.Length && CHORBA_WINDOW < count
    ensures crc == Crc32(initial, buffer[start..start + count])
  {
    hide Flatten, Next, Pending, Divide, Crc32, CrcBlock.IsTable, ToWords, Patched;
    ghost var data := buffer[start..start + count];
    var acc := new Bits[5](_ => Zeros(64));
    acc[0] := initial + Zeros(32);
    var f := new Bits[4](_ => Zeros(64));
    var cur := Zeros(64);
    PendingStart(initial, data);
    assert acc[..] == [initial + Zeros(32), Zeros(64), Zeros(64), Zeros(64), Zeros(64)];
    assert data[0..] == data;
    var i := 0;
    while i + CHORBA_WINDOW < count
      invariant 0 <= i && i + 40 < count
      invariant IsWords(acc[..], 5)
      invariant Divide(Pending(acc[..], data[i..])) == Crc32(initial, data)
    {
      cur := Flatten(Oem(), buffer[start + i..start + i + 8]);
      assert buffer[start + i..start + i + 8] == data[i..][..8];
      IterationKeepsRemainder(acc[..], data[i..]);
      assert data[i..][8..] == data[i + 8..];
      Iterate(acc, f, cur);
      i := i + 8;
    }
    ghost var rest := data[i..];
    var tail := buffer[start + i..start + count];
    assert tail == rest;
    var leftover := Leftover(tail, acc);
    PatchedTail(acc[..], rest, leftover[..]);
    var bytes := BytesOf(leftover);
    crc := CrcBlock.CalculateBlockCrc(Oem(), tables, bytes, 0, count - i, Zeros(32));
    RemainderIsCrc(bytes[..count - i]);
  }

  /** The body of the main loop after the load of the input word. */
  method Iterate(acc: array<Bits>, f: array<Bits>, m: Bits)
    requires acc != f && f.Length == 4 && IsWords(acc[..], 5) && |m| == 64
    modifies acc, f
    ensures acc[..] == Next(old(acc[..]), m)
  {
    hide Xor, Shl, Shr;
    var cur := Xor(m, acc[0]);

    f[0] := Xor(Shl(cur, 17), Shl(cur, 55));
    f[1] := Xor(Xor(Shr(cur, 47), Shr(cur, 9)), Shl(cur, 19));
    f[2] := Xor(Shr(cur, 45), Shl(cur, 44));
    f[3] := Shr(cur, 20);

    acc[0] := acc[1];
    acc[1] := Xor(acc[2], f[0]);
    acc[2] := Xor(acc[3], f[1]);
    acc[3] := Xor(acc[4], f[2]);
    acc[4] := f[3];
  }

  lemma RemainderIsCrc(data: seq<byte>)
    ensures Divide(Flatten(Oem(), data)) == SerialCrc(Oem(), Zeros(32), data)
  {
    SerialCrcAbsorbs(Oem(), Zeros(32), data);
  }

  /** The zeroed words filled from the last bytes, then patched in place. */
  method Leftover(tail: seq<byte>, acc: array<Bits>) returns (leftover: array<Bits>)
    requires |tail| <= 48 && IsWords(acc[..], 5)
    ensures fresh(leftover) && IsWords(leftover[..], 6) && Patched(acc[..], ToWords(tail), leftover[..])
  {
    hide Xor, ToWords;
    var ws := ToWords(tail);
    leftover := new Bits[6](j requires 0 <= j < 6 => ws[j]);
    for j := 0 to 5
      invariant acc[..] == old(acc[..])
      invariant forall k | 0 <= k < j :: leftover[k] == Xor(ws[k], acc[k])
      invariant forall k | j <= k < 6 :: leftover[k] == ws[k]
    {
      leftover[j] := Xor(leftover[j], acc[j]);
    }
  }

  /** The words read as bytes. */
  method BytesOf(words: array<Bits>) returns (b: array<byte>)
    requires IsWords(words[..], 6)
    ensures fresh(b) && b[..] == ToBytes(words[..])
  {
    var bytes := ToBytes(words[..]);
    b := new byte[48](k requires 0 <= k < 48 => bytes[k]);
  }

  /** The OEM CalculateBlockCrc32. */
  method CalculateBlockCrc32(tables: array2<Bits>, buffer: array<byte>, start: nat, count: nat, initial: Bits)
    returns (crc: Bits)
    requires CrcBlock.IsTable(Oem(), tables) && |initial| == 32 && start + count <= buffer.Length
    ensures crc == Crc32(initial, buffer[start..start + count])
  {
    if count > CHORBA_WINDOW {
      crc := CalculateBlockCrc32Chorba(tables, buffer, start, count, initial);
    } else {
      crc := CrcBlock.CalculateBlockCrc(Oem(), tables, buffer, start, count, initial);
    }
  }
}
