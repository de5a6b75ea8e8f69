/** The table-driven CRC code, proved against the bit-serial definition. */
module CrcBlock {
  import opened BitLists
  import ShiftRegister
  import opened Crc

  /** What table t holds for byte b: the CRC of b followed by t zero bytes. */
  function Entry(p: Params, t: nat, b: byte): (r: Bits)
    requires p.Valid()
    ensures |r| == |p.poly|
  {
    SerialCrc(p, Zeros(|p.poly|), [b] + ZeroBytes(t))
  }

  ghost predicate IsTable(p: Params, tables: array2<Bits>)
    requires p.Valid()
    reads tables
  {
    && tables.Length0 == 8 && tables.Length1 == 256
    && forall t, b | 0 <= t < 8 && 0 <= b < 256 :: tables[t, b] == Entry(p, t, b)
  }

  lemma EntryZero(p: Params, b: byte)
    requires p.Valid()
    ensures Entry(p, 0, b) == SerialByte(p, Zeros(|p.poly|), b)
    ensures Entry(p, 0, b) == Rounds(p, Placed(p, b), 8)
  {
    assert [b] + ZeroBytes(0) == [b];
    SerialCrcOne(p, Zeros(|p.poly|), b);
    XorZero(Placed(p, b));
  }

  lemma SerialCrcEmpty(p: Params, c: Bits)
    requires p.Valid() && |c| == |p.poly|
    ensures SerialCrc(p, c, []) == c
  {
  }

  /** Extending the part of the message already absorbed. */
  lemma SerialCrcExtend(p: Params, c: Bits, data: seq<byte>, i: nat, n: nat)
    requires p.Valid() && |c| == |p.poly| && i + n <= |data|
    ensures SerialCrc(p, c, data[..i + n]) == SerialCrc(p, SerialCrc(p, c, data[..i]), data[i..i + n])
  {
    hide SerialCrc;
    assert data[..i + n] == data[..i] + data[i..i + n];
    SerialCrcConcat(p, c, data[..i], data[i..i + n]);
  }

  lemma SerialCrcOne(p: Params, c: Bits, b: byte)
    requires p.Valid() && |c| == |p.poly|
    ensures SerialCrc(p, c, [b]) == SerialByte(p, c, b)
  {
    hide SerialByte;
    assert [b][1..] == [];
  }

  lemma EntryNext(p: Params, t: nat, b: byte)
    requires p.Valid()
    ensures Entry(p, t + 1, b) == SerialByte(p, Entry(p, t, b), 0)
  {
    hide SerialByte;
    SerialCrcOne(p, Entry(p, t, b), 0);
    assert [b] + ZeroBytes(t + 1) == ([b] + ZeroBytes(t)) + [0];
    SerialCrcConcat(p, Zeros(|p.poly|), [b] + ZeroBytes(t), [0]);
  }

  /** The byte by which the code indexes table 0. */
  function Index(p: Params, c: Bits, ch: byte): byte
    requires |c| == |p.poly| >= 8
  {
    if p.rev then LowByte(Xor(c, Widen(ch, |c|)))
    else LowByte(Xor(Shr(c, |c| - 8), Widen(ch, |c|)))
  }

  /** One table lookup does the work of eight rounds. */
  lemma ByteByTable(p: Params, c: Bits, ch: byte)
    requires p.Valid() && |c| == |p.poly|
    ensures var e := Entry(p, 0, Index(p, c, ch));
            SerialByte(p, c, ch) == Xor(if p.rev then Shr(c, 8) else Shl(c, 8), e)
  {
    hide Xor, ShiftRegister.Absorb, Rounds, Index, SerialByte, Placed, Reverse;
    var g, s, w, m := Stream(p, p.poly), Stream(p, c), |c|, Stream(p, ByteBits(ch));
    var i := Index(p, c, ch);
    var e := Entry(p, 0, i);
    var moved := if p.rev then Shr(c, 8) else Shl(c, 8);
    MovedBits(p, c);
    IndexBits(p, c, ch);
    SerialByteAbsorbs(p, c, ch);
    assert s == s[..8] + s[8..];
    ShiftRegister.AbsorbShort(g, s[..8], s[8..], m);
    EntryZero(p, i);
    SerialByteAbsorbs(p, Zeros(w), i);
    StreamZeros(p, w);
    StreamXor(p, moved, e);
    StreamInjective(p, SerialByte(p, c, ch), Xor(moved, e));
  }

  lemma MovedBits(p: Params, c: Bits)
    requires |c| >= 8
    ensures Stream(p, if p.rev then Shr(c, 8) else Shl(c, 8)) == Stream(p, c)[8..] + Zeros(8)
  {
    ReverseShl(c, 8);
  }

  lemma IndexBits(p: Params, c: Bits, ch: byte)
    requires |c| == |p.poly| >= 8
    ensures Stream(p, ByteBits(Index(p, c, ch))) == Xor(Stream(p, ByteBits(ch)), Stream(p, c)[..8])
  {
    hide ByteBits, BitsByte, Stream, Xor, Widen, Shr;
    var top := if p.rev then c[..8] else c[|c| - 8..];
    var x := Xor(if p.rev then c else Shr(c, |c| - 8), Widen(ch, |c|));
    IndexedBits(p, c, ch);
    BytesAreBits(ch, x[..8]);
    StreamXor(p, ByteBits(ch), top);
  }

  lemma IndexedBits(p: Params, c: Bits, ch: byte)
    requires |c| == |p.poly| >= 8
    ensures var top := if p.rev then c[..8] else c[|c| - 8..];
            && Xor(if p.rev then c else Shr(c, |c| - 8), Widen(ch, |c|))[..8] == Xor(ByteBits(ch), top)
            && Stream(p, top) == Stream(p, c)[..8]
  {
  }

  /** make_crc_table */
  method MakeCrcTable(p: Params) returns (tables: array2<Bits>)
    requires p.Valid()
    ensures fresh(tables) && IsTable(p, tables)
  {
    hide Xor, Entry, SerialByte, LowByte, Placed, Rounds;
    tables := new Bits[8, 256];
    for i := 0 to 256
      invariant forall b | 0 <= b < i :: tables[0, b] == Entry(p, 0, b)
    {
      var crc := Placed(p, i);
      crc := EightRounds(p, crc);
      EntryZero(p, i);
      tables[0, i] := crc;
    }
    for t := 1 to 8
      invariant forall s, b | 0 <= s < t && 0 <= b < 256 :: tables[s, b] == Entry(p, s, b)
    {
      for i := 0 to 256
        invariant forall s, b | 0 <= s < t && 0 <= b < 256 :: tables[s, b] == Entry(p, s, b)
        invariant forall b | 0 <= b < i :: tables[t, b] == Entry(p, t, b)
      {
        var next := NextEntry(p, tables, tables[t - 1, i]);
        EntryNext(p, t - 1, i);
        tables[t, i] := next;
      }
    }
  }

  /** An entry for one more zero byte, from table 0. */
  method NextEntry(p: Params, tables: array2<Bits>, crc: Bits) returns (next: Bits)
    requires p.Valid() && |crc| == |p.poly| && tables.Length0 == 8 && tables.Length1 == 256
    requires forall b | 0 <= b < 256 :: tables[0, b] == Entry(p, 0, b)
    ensures next == SerialByte(p, crc, 0)
  {
    hide Xor, Entry, SerialByte, LowByte;
    ZeroByteIndex(p, crc);
    if p.rev {
      if |p.poly| == 8 {
        next := tables[0, LowByte(crc)];
      } else {
        next := Xor(Shr(crc, 8), tables[0, LowByte(crc)]);
      }
    } else {
      next := Xor(Shl(crc, 8), tables[0, LowByte(Shr(crc, |crc| - 8))]);
    }
  }

  /** The innermost loop of make_crc_table. */
  method EightRounds(p: Params, start: Bits) returns (crc: Bits)
    requires p.Valid() && |start| == |p.poly|
    ensures crc == Rounds(p, start, 8)
  {
    hide Xor, Shr, Shl;
    crc := start;
    for j := 0 to 8
      invariant |crc| == |p.poly|
      invariant Rounds(p, crc, 8 - j) == Rounds(p, start, 8)
    {
      if p.rev {
        crc := if crc[0] then Xor(Shr(crc, 1), p.poly) else Shr(crc, 1);
      } else {
        crc := if crc[|crc| - 1] then Xor(Shl(crc, 1), p.poly) else Shl(crc, 1);
      }
    }
  }

  /** Feeding a zero byte through the table, in the three forms the code writes it. */
  lemma ZeroByteIndex(p: Params, c: Bits)
    requires p.Valid() && |c| == |p.poly|
    ensures p.rev ==> SerialByte(p, c, 0) == Xor(Shr(c, 8), Entry(p, 0, LowByte(c)))
    ensures p.rev && |c| == 8 ==> SerialByte(p, c, 0) == Entry(p, 0, LowByte(c))
    ensures !p.rev ==> SerialByte(p, c, 0) == Xor(Shl(c, 8), Entry(p, 0, LowByte(Shr(c, |c| - 8))))
  {
    ByteByTable(p, c, 0);
    WideZero(c);
    hide Xor, Entry, SerialByte, LowByte;
    XorZero(c);
    XorZero(Shr(c, |c| - 8));
    if p.rev && |c| == 8 {
      assert Shr(c, 8) == Zeros(8);
      XorZero(Entry(p, 0, LowByte(c)));
    }
  }

  lemma WideZero(c: Bits)
    requires |c| >= 8
    ensures Widen(0, |c|) == Zeros(|c|)
  {
    ZeroByteBits();
  }

  /** CalculateCharacterCrc: the new value of the CRC passed by reference. */
  method CalculateCharacterCrc(p: Params, tables: array2<Bits>, crc: Bits, ch: byte) returns (r: Bits)
    requires p.Valid() && IsTable(p, tables) && |crc| == |p.poly|
    ensures r == SerialByte(p, crc, ch)
  {
    var w := |p.poly|;
    ByteByTable(p, crc, ch);
    if p.rev {
      var index := LowByte(Xor(crc, Widen(ch, w)));
      if w == 8 {
        r := tables[0, index];
        assert Shr(crc, 8) == Zeros(8);
        XorZero(r);
      } else {
        r := Xor(Shr(crc, 8), tables[0, index]);
      }
    } else {
      var index := LowByte(Xor(Shr(crc, w - 8), Widen(ch, w)));
      r := Xor(Shl(crc, 8), tables[0, index]);
    }
  }

  // ---------------------------------------------------------------- slice-by-8

  /** The CRC of a string from an empty register is the sum over its bytes of the table
      entry for that byte and the number of bytes behind it. */
  function Sliced(p: Params, d: seq<byte>): (r: Bits)
    requires p.Valid()
    ensures |r| == |p.poly|
    decreases |d|
  {
    if d == [] then Zeros(|p.poly|) else Xor(Entry(p, |d| - 1, d[0]), Sliced(p, d[1..]))
  }

  /** The CRC of a message from 0 is the entry of its first byte plus the CRC of the rest. */
  lemma CrcSplits(p: Params, b: byte, rest: seq<byte>)
    requires p.Valid()
    ensures var z := Zeros(|p.poly|); SerialCrc(p, z, [b] + rest) == Xor(Entry(p, |rest|, b), SerialCrc(p, z, rest))
  {
    hide ShiftRegister.Absorb, Flatten, Stream, SerialCrc, Xor, ZeroBytes;
    var g, z, head := Stream(p, p.poly), Zeros(|p.poly|), [b];
    var m, n := Flatten(p, head), Flatten(p, rest);
    FlattenConcat(p, head, rest);
    FlattenConcat(p, head, ZeroBytes(|rest|));
    FlattenZeros(p, |rest|);
    StreamZeros(p, |p.poly|);
    SerialCrcAbsorbs(p, z, head + rest);
    SerialCrcAbsorbs(p, z, head + ZeroBytes(|rest|));
    SerialCrcAbsorbs(p, z, rest);
    ShiftRegister.AbsorbSplit(g, m, n);
    StreamXor(p, Entry(p, |rest|, b), SerialCrc(p, z, rest));
    StreamInjective(p, SerialCrc(p, z, head + rest), Xor(Entry(p, |rest|, b), SerialCrc(p, z, rest)));
  }

  lemma {:induction false} SlicedIsCrc(p: Params, d: seq<byte>)
    requires p.Valid()
    ensures SerialCrc(p, Zeros(|p.poly|), d) == Sliced(p, d)
    decreases |d|
  {
    hide Xor, Entry;
    if d != [] {
      assert d == [d[0]] + d[1..];
      CrcSplits(p, d[0], d[1..]);
      SlicedIsCrc(p, d[1..]);
    }
  }

  /** The register byte that is added to the k-th of the next bytes of the message. */
  function CrcByte(p: Params, c: Bits, k: nat): byte
    requires 8 * (k + 1) <= |c|
  {
    if p.rev then LowByte(Shr(c, 8 * k)) else LowByte(Shr(c, |c| - 8 - 8 * k))
  }

  /** Byte k of the block with the register added. */
  function InjectedByte(p: Params, crc: Bits, d: byte, k: nat): byte
    requires p.Valid() && |crc| == |p.poly|
  {
    if 8 * k < |crc| then XorByte(d, CrcByte(p, crc, k)) else d
  }

  /** b is the block d with the register c added to its first bytes. */
  ghost predicate Injected(p: Params, c: Bits, d: seq<byte>, b: seq<byte>)
    requires p.Valid() && |c| == |p.poly|
  {
    && |d| == |b| == 8
    && forall k | 0 <= k < 8 :: b[k] == InjectedByte(p, c, d[k], k)
  }

  lemma CrcByteBits(p: Params, c: Bits, k: nat, b: byte)
    requires p.Valid() && |c| == |p.poly| && 8 * (k + 1) <= |c|
    ensures Stream(p, ByteBits(XorByte(b, CrcByte(p, c, k))))
         == Xor(Stream(p, ByteBits(b)), Stream(p, c)[8 * k..8 * (k + 1)])
  {
    hide Xor, ByteBits, BitsByte;
    var x := if p.rev then Shr(c, 8 * k)[..8] else Shr(c, |c| - 8 - 8 * k)[..8];
    BytesAreBits(b, x);
    BytesAreBits(b, Xor(ByteBits(b), x));
    StreamXor(p, ByteBits(b), x);
    StreamPiece(p, c, k);
  }

  lemma StreamPiece(p: Params, c: Bits, k: nat)
    requires p.Valid() && |c| == |p.poly| && 8 * (k + 1) <= |c|
    ensures Stream(p, if p.rev then Shr(c, 8 * k)[..8] else Shr(c, |c| - 8 - 8 * k)[..8]) == Stream(p, c)[8 * k..8 * (k + 1)]
  {
  }

  lemma {:induction false} InjectedBits(p: Params, c: Bits, d: seq<byte>, b: seq<byte>, k: nat)
    requires p.Valid() && |c| == |p.poly| && Injected(p, c, d, b) && k <= 8
    ensures var s := Stream(p, c) + Zeros(64 - |c|);
            Flatten(p, b[k..]) == Xor(Flatten(p, d[k..]), s[8 * k..])
    decreases 8 - k
  {
    hide Xor, XorByte, CrcByte, Stream, ByteBits, Flatten;
    var s := Stream(p, c) + Zeros(64 - |c|);
    if k < 8 {
      InjectedBits(p, c, d, b, k + 1);
      var piece, m := s[8 * k..8 * (k + 1)], Stream(p, ByteBits(d[k]));
      FirstByte(p, b, k);
      FirstByte(p, d, k);
      InjectedPiece(p, c, d, b, k);
      assert s[8 * k..] == piece + s[8 * (k + 1)..];
      XorConcat(m, Flatten(p, d[k + 1..]), piece, s[8 * (k + 1)..]);
    } else {
      XorZero([]);
      NoBytes(p, b);
      NoBytes(p, d);
    }
  }

  lemma FirstByte(p: Params, b: seq<byte>, k: nat)
    requires k < |b|
    ensures Flatten(p, b[k..]) == Stream(p, ByteBits(b[k])) + Flatten(p, b[k + 1..])
  {
    hide Stream, ByteBits;
    assert b[k..][1..] == b[k + 1..];
  }

  lemma NoBytes(p: Params, b: seq<byte>)
    ensures Flatten(p, b[|b|..]) == []
  {
  }

  lemma InjectedPiece(p: Params, c: Bits, d: seq<byte>, b: seq<byte>, k: nat)
    requires p.Valid() && |c| == |p.poly| && Injected(p, c, d, b) && k < 8
    ensures var s := Stream(p, c) + Zeros(64 - |c|);
            Stream(p, ByteBits(b[k])) == Xor(Stream(p, ByteBits(d[k])), s[8 * k..8 * (k + 1)])
  {
    hide Xor, XorByte, CrcByte, Stream, ByteBits;
    var s := Stream(p, c) + Zeros(64 - |c|);
    var piece := s[8 * k..8 * (k + 1)];
    if 8 * k < |c| {
      CrcByteBits(p, c, k, d[k]);
      assert piece == Stream(p, c)[8 * k..8 * (k + 1)];
    } else {
      assert piece == Zeros(8);
      XorZero(Stream(p, ByteBits(d[k])));
    }
  }

  /** The claim behind slice-by-8, for one block of eight bytes. */
  lemma SliceBy8(p: Params, c: Bits, d: seq<byte>, b: seq<byte>)
    requires p.Valid() && |c| == |p.poly| && Injected(p, c, d, b)
    ensures SerialCrc(p, c, d) == Sliced(p, b)
  {
    hide Xor, ShiftRegister.Absorb, Flatten, SerialCrc, Sliced, Stream, CrcByte, XorByte;
    var g, z := Stream(p, p.poly), Zeros(|p.poly|);
    InjectedBits(p, c, d, b, 0);
    assert b[0..] == b && d[0..] == d;
    SerialCrcAbsorbs(p, c, d);
    SerialCrcAbsorbs(p, z, b);
    StreamZeros(p, |p.poly|);
    ShiftRegister.AbsorbLong(g, Stream(p, c), Flatten(p, d));
    StreamInjective(p, SerialCrc(p, c, d), SerialCrc(p, z, b));
    SlicedIsCrc(p, b);
  }

  lemma SlicedEight(p: Params, b: seq<byte>)
    requires p.Valid() && |b| == 8
    ensures Sliced(p, b)
         == Xor(Xor(Xor(Xor(Xor(Xor(Xor(Entry(p, 7, b[0]), Entry(p, 6, b[1])), Entry(p, 5, b[2])),
                Entry(p, 4, b[3])), Entry(p, 3, b[4])), Entry(p, 2, b[5])), Entry(p, 1, b[6])), Entry(p, 0, b[7]))
  {
    hide Xor, Entry, Sliced;
    var s2 := Xor(Entry(p, 7, b[0]), Entry(p, 6, b[1]));
    var s3 := Xor(s2, Entry(p, 5, b[2]));
    var s4 := Xor(s3, Entry(p, 4, b[3]));
    var s5 := Xor(s4, Entry(p, 3, b[4]));
    var s6 := Xor(s5, Entry(p, 2, b[5]));
    assert LeftSum(p, b, 2) == s2;
    assert LeftSum(p, b, 3) == s3;
    assert LeftSum(p, b, 4) == s4;
    assert LeftSum(p, b, 5) == s5;
    assert LeftSum(p, b, 6) == s6;
    LeftSumIsSliced(p, b, 8);
  }

  /** The first k entries summed from the left, as the code writes them. */
  function LeftSum(p: Params, b: seq<byte>, k: nat): (r: Bits)
    requires p.Valid() && |b| == 8 && 1 <= k <= 8
    ensures |r| == |p.poly|
  {
    if k == 1 then Entry(p, 7, b[0]) else Xor(LeftSum(p, b, k - 1), Entry(p, 8 - k, b[k - 1]))
  }

  lemma {:induction false} LeftSumIsSliced(p: Params, b: seq<byte>, k: nat)
    requires p.Valid() && |b| == 8 && 1 <= k <= 8
    ensures Xor(LeftSum(p, b, k), Sliced(p, b[k..])) == Sliced(p, b)
    ensures k == 8 ==> LeftSum(p, b, k) == Sliced(p, b)
  {
    hide Xor, Entry;
    if k == 1 {
    } else {
      LeftSumIsSliced(p, b, k - 1);
      assert b[k - 1..][1..] == b[k..];
      XorAssoc(LeftSum(p, b, k - 1), Entry(p, 8 - k, b[k - 1]), Sliced(p, b[k..]));
    }
    XorZero(LeftSum(p, b, k));
  }

  /** CalculateBlockCrc over count bytes of a buffer from index start. */
  method CalculateBlockCrc(p: Params, tables: array2<Bits>, buffer: array<byte>, start: nat, count: nat, initial: Bits)
    returns (crc: Bits)
    requires p.Valid() && IsTable(p, tables) && |initial| == |p.poly|
    requires start + count <= buffer.Length
    ensures crc == SerialCrc(p, initial, buffer[start..start + count])
  {
    hide SerialCrc, SerialByte, Sliced, Injected, Entry, IsTable;
    crc := initial;
    var i := 0;
    var chunks := count / 8;
    ghost var data := buffer[start..start + count];
    assert data[..0] == [];
    SerialCrcEmpty(p, initial);
    for k := 0 to chunks
      invariant i == 8 * k && |crc| == |p.poly|
      invariant crc == SerialCrc(p, initial, data[..i])
    {
      var b := NextBlock(p, buffer, start + i, crc);
      assert buffer[start + i..start + i + 8] == data[i..i + 8];
      SerialCrcExtend(p, initial, data, i, 8);
      SliceBy8(p, crc, data[i..i + 8], b[..]);
      crc := LookupEight(p, tables, b);
      i := i + 8;
    }
    while i < count
      invariant 0 <= i <= count && |crc| == |p.poly|
      invariant crc == SerialCrc(p, initial, data[..i])
    {
      SerialCrcExtend(p, initial, data, i, 1);
      assert data[i..i + 1] == [buffer[start + i]];
      SerialCrcOne(p, crc, buffer[start + i]);
      crc := CalculateCharacterCrc(p, tables, crc, buffer[start + i]);
      i := i + 1;
    }
    assert data[..count] == data;
  }

  /** The sum of the eight table entries for one block. */
  method LookupEight(p: Params, tables: array2<Bits>, b: array<byte>) returns (crc: Bits)
    requires p.Valid() && IsTable(p, tables) && b.Length == 8
    ensures crc == Sliced(p, b[..])
  {
    hide Entry, Xor, Sliced;
    SlicedEight(p, b[..]);
    crc := Xor(Xor(Xor(Xor(Xor(Xor(Xor(tables[7, b[0]], tables[6, b[1]]), tables[5, b[2]]),
               tables[4, b[3]]), tables[3, b[4]]), tables[2, b[5]]), tables[1, b[6]]), tables[0, b[7]]);
  }

  /** The eight bytes at index i with the running CRC added, statement by statement. */
  method NextBlock(p: Params, buffer: array<byte>, i: nat, crc: Bits) returns (b: array<byte>)
    requires p.Valid() && |crc| == |p.poly| && i + 8 <= buffer.Length
    ensures fresh(b) && b.Length == 8 && Injected(p, crc, buffer[i..i + 8], b[..])
  {
    hide Xor, XorByte, BitsByte, Shr;
    b := new byte[8](k requires 0 <= k < 8 && i + 8 <= buffer.Length reads buffer => buffer[i + k]);
    ghost var d := b[..];
    assert d == buffer[i..i + 8];
    if p.rev {
      InjectReversed(p, crc, b);
    } else {
      InjectForward(p, crc, b);
    }
  }

  /** The register is added lowest byte first. */
  method InjectReversed(p: Params, crc: Bits, b: array<byte>)
    requires p.Valid() && p.rev && |crc| == |p.poly| && b.Length == 8
    modifies b
    ensures Injected(p, crc, old(b[..]), b[..])
  {
    hide Xor, XorByte, BitsByte, ByteBits, Shr, LowByte, CrcByte, Injected;
    var w := |p.poly|;
    ghost var d := b[..];
    ReversedBytes(p, crc);
    b[0] := XorByte(b[0], LowByte(crc));
    if w > 8 {
      b[1] := XorByte(b[1], LowByte(Shr(crc, 8)));
    }
    if w > 16 {
      b[2] := XorByte(b[2], LowByte(Shr(crc, 16)));
      b[3] := XorByte(b[3], LowByte(Shr(crc, 24)));
    }
    if w > 32 {
      b[4] := XorByte(b[4], LowByte(Shr(crc, 32)));
      b[5] := XorByte(b[5], LowByte(Shr(crc, 40)));
      b[6] := XorByte(b[6], LowByte(Shr(crc, 48)));
      b[7] := XorByte(b[7], LowByte(Shr(crc, 56)));
    }
    AllInjected(p, crc, d, b[..]);
  }

  lemma ReversedBytes(p: Params, crc: Bits)
    requires p.Valid() && p.rev && |crc| == |p.poly|
    ensures CrcByte(p, crc, 0) == LowByte(crc)
    ensures |crc| >= 16 ==> CrcByte(p, crc, 1) == LowByte(Shr(crc, 8))
    ensures |crc| >= 32 ==> CrcByte(p, crc, 2) == LowByte(Shr(crc, 16)) && CrcByte(p, crc, 3) == LowByte(Shr(crc, 24))
    ensures |crc| == 64 ==> CrcByte(p, crc, 4) == LowByte(Shr(crc, 32)) && CrcByte(p, crc, 5) == LowByte(Shr(crc, 40))
    ensures |crc| == 64 ==> CrcByte(p, crc, 6) == LowByte(Shr(crc, 48)) && CrcByte(p, crc, 7) == LowByte(Shr(crc, 56))
  {
    ShrZero(crc);
  }

  /** The register is added highest byte first. */
  method InjectForward(p: Params, crc: Bits, b: array<byte>)
    requires p.Valid() && !p.rev && |crc| == |p.poly| && b.Length == 8
    modifies b
    ensures Injected(p, crc, old(b[..]), b[..])
  {
    hide Xor, XorByte, BitsByte, Shr;
    var w := |p.poly|;
    if w == 8 {
      b[0] := XorByte(b[0], LowByte(crc));
    } else if w == 16 {
      b[0] := XorByte(b[0], LowByte(Shr(crc, 8)));
      b[1] := XorByte(b[1], LowByte(crc));
    } else if w == 32 {
      b[0] := XorByte(b[0], LowByte(Shr(crc, 24)));
      b[1] := XorByte(b[1], LowByte(Shr(crc, 16)));
      b[2] := XorByte(b[2], LowByte(Shr(crc, 8)));
      b[3] := XorByte(b[3], LowByte(crc));
    } else {
      InjectForward64(p, crc, b);
    }
    ShrZero(crc);
  }

  method InjectForward64(p: Params, crc: Bits, b: array<byte>)
    requires p.Valid() && !p.rev && |crc| == |p.poly| == 64 && b.Length == 8
    modifies b
    ensures Injected(p, crc, old(b[..]), b[..])
  {
    hide Xor, XorByte, BitsByte, ByteBits, Shr, LowByte, CrcByte, Injected;
    ghost var d := b[..];
    ForwardBytes(p, crc);
    b[0] := XorByte(b[0], LowByte(Shr(crc, 56)));
    b[1] := XorByte(b[1], LowByte(Shr(crc, 48)));
    b[2] := XorByte(b[2], LowByte(Shr(crc, 40)));
    b[3] := XorByte(b[3], LowByte(Shr(crc, 32)));
    b[4] := XorByte(b[4], LowByte(Shr(crc, 24)));
    b[5] := XorByte(b[5], LowByte(Shr(crc, 16)));
    b[6] := XorByte(b[6], LowByte(Shr(crc, 8)));
    b[7] := XorByte(b[7], LowByte(crc));
    AllInjected(p, crc, d, b[..]);
  }

  lemma AllInjected(p: Params, crc: Bits, d: seq<byte>, b: seq<byte>)
    requires p.Valid() && |crc| == |p.poly| && |d| == |b| == 8
    requires b[0] == InjectedByte(p, crc, d[0], 0) && b[1] == InjectedByte(p, crc, d[1], 1)
    requires b[2] == InjectedByte(p, crc, d[2], 2) && b[3] == InjectedByte(p, crc, d[3], 3)
    requires b[4] == InjectedByte(p, crc, d[4], 4) && b[5] == InjectedByte(p, crc, d[5], 5)
    requires b[6] == InjectedByte(p, crc, d[6], 6) && b[7] == InjectedByte(p, crc, d[7], 7)
    ensures Injected(p, crc, d, b)
  {
    hide XorByte, CrcByte;
  }

  lemma ForwardBytes(p: Params, crc: Bits)
    requires p.Valid() && !p.rev && |crc| == |p.poly| == 64
    ensures CrcByte(p, crc, 0) == LowByte(Shr(crc, 56)) && CrcByte(p, crc, 1) == LowByte(Shr(crc, 48))
    ensures CrcByte(p, crc, 2) == LowByte(Shr(crc, 40)) && CrcByte(p, crc, 3) == LowByte(Shr(crc, 32))
    ensures CrcByte(p, crc, 4) == LowByte(Shr(crc, 24)) && CrcByte(p, crc, 5) == LowByte(Shr(crc, 16))
    ensures CrcByte(p, crc, 6) == LowByte(Shr(crc, 8)) && CrcByte(p, crc, 7) == LowByte(crc)
  {
    ShrZero(crc);
  }

  lemma ShrZero(x: Bits)
    ensures Shr(x, 0) == x
  {
  }

  /** The string_view overload: a character at a time. */
  method CalculateStringCrc(p: Params, tables: array2<Bits>, text: seq<byte>, initial: Bits) returns (crc: Bits)
    requires p.Valid() && IsTable(p, tables) && |initial| == |p.poly|
    ensures crc == SerialCrc(p, initial, text)
  {
    hide SerialCrc, SerialByte, Sliced, Injected, Entry, IsTable;
    crc := initial;
    assert text[..0] == [];
    SerialCrcEmpty(p, initial);
    for i := 0 to |text|
      invariant |crc| == |p.poly|
      invariant crc == SerialCrc(p, initial, text[..i])
    {
      SerialCrcExtend(p, initial, text, i, 1);
      assert text[i..i + 1] == [text[i]];
      SerialCrcOne(p, crc, text[i]);
      crc := CalculateCharacterCrc(p, tables, crc, text[i]);
    }
    assert text[..|text|] == text;
  }
}
