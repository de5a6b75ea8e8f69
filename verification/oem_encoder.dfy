/** EncodeBody of the OEM encoder: a body and its trailer, behind a header already written. */
module OemEncoder {
  import opened BitLists
  import opened Hex
  import opened CrcBlock
  import opened OemCrc
  import opened CrcDetection
  import opened Framing
  import opened Memory
  import opened Streaming
  import Delivery
  import FixedBuffers
  import opened Writing
  import opened Fields
  import opened AsciiMeaning
  import opened BinaryScript
  import opened MessageFrames
  import A = AsciiScript
  import AsciiEncoder
  import BinaryEncoder

  const ASCII_TRAILER: nat := 1 + 8 + 2

  /** '*', eight hex digits and CRLF */
  function Trailer(crc: Bits): seq<byte> { [STAR] + PaddedHex(ToNat(crc), 8) + [CR, LF] }

  /** The CRC of all but the sync byte, appended to an ASCII message that ends at ptr. */
  method AppendAsciiTrailer(tables: array2<Bits>, buffer: array<byte>, header: nat, ptr: nat, left: nat, ghost k: Kind)
    returns (ok: bool, end: nat)
    requires IsTable(Oem(), tables) && header < ptr && ptr + left <= buffer.Length
    requires k.Ascii? && buffer[header] == k.syncByte
    modifies buffer
    ensures ok <==> ASCII_TRAILER <= left
    ensures ok ==> end == ptr + ASCII_TRAILER && buffer[header..end] == AsciiFrame(k, old(buffer[header + 1..ptr]))
    ensures buffer[..ptr] == old(buffer[..ptr]) && buffer[ptr + left..] == old(buffer[ptr + left..])
  {
    hide IsTable, Crc32, Ran, ToNat, ToBytes, PaddedHex, HexText;
    var crc := CalculateBlockCrc32(tables, buffer, header + 1, ptr - header - 1, Zeros(32));
    var w := new Writer(buffer, ptr, left);
    CrcDigits(crc);
    ok := WriteTrailer(w, crc);
    end := w.pos;
    if ok {
      TrailerInPlace(buffer[..], header, ptr, end, Trailer(crc));
      assert buffer[ptr..end] == Trailer(crc) by { CellsInPlace(w, Trailer(crc)); }
      assert buffer[header..ptr] == [k.syncByte] + old(buffer[header + 1..ptr]);
    }
  }

  lemma TrailerInPlace(all: seq<byte>, header: nat, ptr: nat, end: nat, trailer: seq<byte>)
    requires header <= ptr <= end <= |all|
    ensures all[header..end] == all[header..ptr] + all[ptr..end]
  {
  }

  /** The cells of a writer that has only written texts are in the buffer. */
  lemma CellsInPlace(w: Writer, text: seq<byte>)
    requires w.Valid() && w.cells == Cells(text)
    ensures w.pos == w.start + |text| && w.buffer[w.start..w.pos] == text
  {
    forall i | 0 <= i < |text|
      ensures w.buffer[w.start + i] == text[i]
    {
      assert w.cells[i] == Out(text[i]);
    }
  }

  lemma CrcDigits(crc: Bits)
    requires |crc| == 32
    ensures |HexText(ToNat(crc))| <= 8 && |PaddedHex(ToNat(crc), 8)| == 8
  {
    hide HexText;
    ToNatBound(crc);
    Pow2Of32();
    SixteenToTheEighth();
    HexTextLength(ToNat(crc), 8);
  }

  method WriteTrailer(w: Writer, crc: Bits) returns (ok: bool)
    requires w.Valid() && w.cells == [] && |crc| == 32 && |HexText(ToNat(crc))| <= 8 && |PaddedHex(ToNat(crc), 8)| == 8
    modifies w, w.buffer
    ensures w.Valid() && w.Outside()
    ensures ok <==> ASCII_TRAILER <= old(w.left)
    ensures ok ==> w.cells == Cells(Trailer(crc))
  {
    hide HexText, PaddedHex, ToNat, Ran;
    var text := PaddedHex(ToNat(crc), 8);
    ghost var c, l := w.cells, w.left;
    ok := w.CopyToBuffer([STAR]);
    PutRan(c, l, [STAR], 0, ok, w.cells, w.left);
    if ok {
      c, l := w.cells, w.left;
      ok := w.WriteHexToBuffer(ToNat(crc), 8, 8);
      PutRan(c, l, text, 0, ok, w.cells, w.left);
    }
    if ok {
      c, l := w.cells, w.left;
      ok := w.CopyToBuffer([CR, LF]);
      PutRan(c, l, [CR, LF], 0, ok, w.cells, w.left);
      assert Cells([STAR]) + Cells(text) + Cells([CR, LF]) == Cells(Trailer(crc));
    }
  }

  /** EncodeAsciiBody at start, in a window of this size. */
  method PlaceAsciiBody(f: Formats, b: Body, defs: seq<Def>, buffer: array<byte>, start: nat, size: nat)
    returns (ok: bool, pos: nat, left: nat)
    requires start + size <= buffer.Length && ValidFormats(f) && Conforms(b, defs) && CsvDefs(defs)
    modifies buffer
    ensures OnlyPuts(A.BodyScript(f, b, defs, false, 1)) && start <= pos && pos + left == start + size
    ensures var s := A.BodyScript(f, b, defs, false, 1);
            ok == Fits(s, size) && (ok ==> pos == start + Size(s) && buffer[start..pos] == TextOf(s))
    ensures buffer[..start] == old(buffer[..start]) && buffer[start + size..] == old(buffer[start + size..])
  {
    hide A.BodyScript, Conforms, CsvDefs, ValidFormats, Fits, TextOf, OnlyPuts;
    BodyEndsWithSeparator(f, b, defs, false, 1, []);
    var w := new Writer(buffer, start, size);
    ok := AsciiEncoder.EncodeAsciiBody(f, b, defs, false, 1, w);
    if ok {
      CellsInPlace(w, TextOf(A.BodyScript(f, b, defs, false, 1)));
    }
    pos, left := w.pos, w.left;
  }

  /** The ASCII branch: the body, less its last separator, and the trailer.  The byte that the removed
      separator leaves free is not counted as left. */
  method EncodeAsciiMessage(f: Formats, b: Body, defs: seq<Def>, tables: array2<Bits>, buffer: array<byte>,
                            header: nat, start: nat, size: nat, ghost k: Kind)
    returns (ok: bool, end: nat)
    requires IsTable(Oem(), tables) && header + 2 <= start && start + size <= buffer.Length
    requires k.Ascii? && buffer[header] == k.syncByte
    requires ValidFormats(f) && Conforms(b, defs) && CsvDefs(defs)
    modifies buffer
    ensures OnlyPuts(A.BodyScript(f, b, defs, false, 1))
    ensures var s := A.BodyScript(f, b, defs, false, 1); ok <==> Fits(s, size) && Size(s) + ASCII_TRAILER <= size
    ensures ok ==> var all := old(buffer[header + 1..start]) + TextOf(A.BodyScript(f, b, defs, false, 1));
                   var message := AsciiFrame(k, all[..|all| - 1]);
                   end == header + |message| <= buffer.Length && buffer[header..end] == message
    ensures buffer[..start - 1] == old(buffer[..start - 1]) && buffer[start + size..] == old(buffer[start + size..])
  {
    hide IsTable, A.BodyScript, Conforms, CsvDefs, ValidFormats, Crc32, Fits, TextOf, OnlyPuts, AsciiFrame;
    ghost var before := buffer[..];
    var left;
    ok, end, left := PlaceAsciiBody(f, b, defs, buffer, start, size);
    if !ok {
      SameEnds(buffer[..], before, start, start + size);
      return;
    }
    ghost var placed := buffer[..];
    ghost var all := before[header + 1..start] + TextOf(A.BodyScript(f, b, defs, false, 1));
    Header(placed, before, header, start);
    BodyInPlace(placed, header + 1, start, end, all);
    SameEnds(placed, before, start, start + size);
    var ptr := end - 1;
    ok, end := AppendAsciiTrailer(tables, buffer, header, ptr, left, k);
    SameEnds(buffer[..], placed, ptr, ptr + left);
  }

  lemma Header(placed: seq<byte>, before: seq<byte>, header: nat, start: nat)
    requires header < start <= |placed| && |before| == |placed| && placed[..start] == before[..start]
    ensures placed[header] == before[header] && placed[header + 1..start] == before[header + 1..start]
  {
    assert placed[header] == placed[..start][header];
    assert placed[header + 1..start] == placed[..start][header + 1..];
  }

  /** What is unchanged outside a window is unchanged outside a larger one. */
  lemma SameEnds(x: seq<byte>, y: seq<byte>, lo: nat, hi: nat)
    requires |x| == |y| && lo <= hi <= |x| && x[..lo] == y[..lo] && x[hi..] == y[hi..]
    ensures forall i | 0 <= i <= lo :: x[..i] == y[..i]
    ensures forall i | hi <= i <= |x| :: x[i..] == y[i..]
  {
    forall i | 0 <= i <= lo
      ensures x[..i] == y[..i]
    {
      assert x[..i] == x[..lo][..i];
    }
    forall i | hi <= i <= |x|
      ensures x[i..] == y[i..]
    {
      assert x[i..] == x[hi..][i - hi..];
    }
  }

  lemma BodyInPlace(buffer: seq<byte>, header: nat, start: nat, pos: nat, all: seq<byte>)
    requires header < start <= pos <= |buffer| && buffer[header..start] + buffer[start..pos] == all
    ensures buffer[header..pos - 1] == all[..|all| - 1]
  {
    assert buffer[header..pos] == all;
  }

  /** A header with the length of the body in its length field. */
  function WithLength(k: Kind, head: seq<byte>, length: nat): (h: seq<byte>)
    requires k.Binary? && k.Valid() && |head| == k.headerLength
    ensures |h| == k.headerLength
  {
    Stored(head, k.lengthIndex, LittleEndianBytes(length, k.lengthSize))
  }

  /** The cells are in place, but for the bytes that were skipped. */
  ghost predicate InPlace(buffer: seq<byte>, start: nat, cells: seq<Cell>) {
    start + |cells| <= |buffer| && forall i | start <= i < start + |cells| :: cells[i - start].Out? ==> buffer[i] == cells[i - start].b
  }

  method StoreLength(buffer: array<byte>, header: nat, length: nat, k: Kind)
    requires k.Binary? && k.Valid() && header + k.headerLength <= buffer.Length
    modifies buffer
    ensures buffer[header..header + k.headerLength] == WithLength(k, old(buffer[header..header + k.headerLength]), length)
    ensures buffer[..header] == old(buffer[..header])
    ensures buffer[header + k.headerLength..] == old(buffer[header + k.headerLength..])
  {
    hide Stored;
    var bytes, at := LittleEndianBytes(length, k.lengthSize), header + k.lengthIndex;
    StoredInside(buffer[..], at, bytes, header, header + k.headerLength);
    StoredParts(buffer[..], at, bytes, header, header + k.headerLength);
    Store(buffer, at, bytes);
  }

  /** EncodeBinaryBody at start, in a window of this size. */
  method PlaceBinaryBody(flatten: bool, b: Body, defs: seq<Def>, buffer: array<byte>, base: nat, start: nat, size: nat)
    returns (ok: bool, pos: nat, left: nat)
    requires start + size <= buffer.Length && Encodable(b, defs)
    modifies buffer
    ensures start <= pos && pos + left == start + size
    ensures var s := BodyScript(b, defs, flatten, base + start);
            ok == Fits(s, size) && (ok ==> pos == start + Size(s) && InPlace(buffer[..], start, Apply([], s)))
    ensures buffer[..start] == old(buffer[..start]) && buffer[start + size..] == old(buffer[start + size..])
  {
    hide Encodable, BodyScript, Fits;
    var w := new Writer(buffer, start, size);
    ok := BinaryEncoder.EncodeBinaryBody(flatten, b, defs, w, base);
    pos, left := w.pos, w.left;
    if ok {
      forall i | start <= i < start + |w.cells|
        ensures w.cells[i - start].Out? ==> buffer[i] == w.cells[i - start].b
      {
        assert buffer[start + (i - start)] == buffer[i];
      }
    }
  }

  /** The length of the body stored in the header, and the CRC of both appended at pos. */
  method AppendBinaryTrailer(tables: array2<Bits>, buffer: array<byte>, header: nat, pos: nat, left: nat, k: Kind,
                             ghost s: Script)
    returns (ok: bool, end: nat)
    requires IsTable(Oem(), tables) && k.Binary? && k.Valid()
    requires header + k.headerLength + Size(s) == pos && pos + left <= buffer.Length
    requires InPlace(buffer[..], header + k.headerLength, Apply([], s))
    modifies buffer
    ensures ok <==> 4 <= left
    ensures ok ==> end == pos + 4 && Encoded(k, old(buffer[header..header + k.headerLength]), s, buffer[header..end])
    ensures buffer[..header] == old(buffer[..header]) && buffer[pos + left..] == old(buffer[pos + left..])
  {
    hide IsTable, Crc32, InPlace, WithLength, LittleEndian, Size, Apply, Ran, Encoded;
    var start := header + k.headerLength;
    ghost var head, placed := buffer[header..start], buffer[..];
    StoreLength(buffer, header, pos - start, k);
    ghost var stored := buffer[..];
    StillInPlace(placed, stored, start, Apply([], s));
    SameEnds(stored, placed, header, start);
    var crc := CalculateBlockCrc32(tables, buffer, header, pos - header, Zeros(32));
    var w := new Writer(buffer, pos, left);
    ok := w.CopyToBuffer(LittleEndian(crc));
    PutRan([], left, LittleEndian(crc), 0, ok, w.cells, w.left);
    SameEnds(buffer[..], stored, pos, pos + left);
    end := w.pos;
    if ok {
      assert [] + Cells(LittleEndian(crc)) == Cells(LittleEndian(crc));
      CellsInPlace(w, LittleEndian(crc));
      IsEncoded(k, head, s, buffer[..], stored, header, pos, end);
    }
  }

  /** The binary branches: the body, its length in the header, and the CRC of both behind them. */
  method EncodeBinaryMessage(flatten: bool, b: Body, defs: seq<Def>, tables: array2<Bits>, buffer: array<byte>,
                             base: nat, header: nat, size: nat, k: Kind)
    returns (ok: bool, end: nat)
    requires IsTable(Oem(), tables) && k.Binary? && k.Valid() && Encodable(b, defs)
    requires header + k.headerLength + size <= buffer.Length
    modifies buffer
    ensures var s := BodyScript(b, defs, flatten, base + header + k.headerLength); ok <==> Fits(s, size) && Size(s) + 4 <= size
    ensures ok ==> var s := BodyScript(b, defs, flatten, base + header + k.headerLength);
                   && end == header + k.headerLength + Size(s) + 4 <= buffer.Length
                   && Encoded(k, old(buffer[header..header + k.headerLength]), s, buffer[header..end])
    ensures buffer[..header] == old(buffer[..header])
    ensures var behind := header + k.headerLength + size; buffer[behind..] == old(buffer[behind..])
  {
    hide IsTable, Encodable, BodyScript, Fits, InPlace, Encoded;
    var start := header + k.headerLength;
    ghost var s, before := BodyScript(b, defs, flatten, base + start), buffer[..];
    var left;
    ok, end, left := PlaceBinaryBody(flatten, b, defs, buffer, base, start, size);
    SameEnds(buffer[..], before, start, start + size);
    if ok {
      assert buffer[header..start] == buffer[..start][header..] && before[header..start] == before[..start][header..];
      ok, end := AppendBinaryTrailer(tables, buffer, header, end, left, k, s);
    }
  }

  lemma StillInPlace(x: seq<byte>, y: seq<byte>, start: nat, cells: seq<Cell>)
    requires |x| == |y| && start <= |x| && x[start..] == y[start..] && InPlace(x, start, cells)
    ensures InPlace(y, start, cells)
  {
    forall i | start <= i < |x|
      ensures x[i] == y[i]
    {
      assert x[i] == x[start..][i - start] && y[i] == y[start..][i - start];
    }
  }

  /** A whole binary message: the header with its length, the body, and the CRC of both. */
  ghost predicate Encoded(k: Kind, head: seq<byte>, s: Script, frame: seq<byte>)
    requires k.Binary? && k.Valid() && |head| == k.headerLength
  {
    |frame| == k.headerLength + Size(s) + 4 &&
    var message := frame[..|frame| - 4];
    && message[..k.headerLength] == WithLength(k, head, Size(s))
    && InPlace(message, k.headerLength, Apply([], s))
    && frame == message + LittleEndian(Crc32(Zeros(32), message))
  }

  lemma IsEncoded(k: Kind, head: seq<byte>, s: Script, buffer: seq<byte>, stored: seq<byte>, header: nat, pos: nat, end: nat)
    requires k.Binary? && k.Valid() && |head| == k.headerLength && |buffer| == |stored|
    requires header + k.headerLength + Size(s) == pos <= end <= |buffer|
    requires stored[header..header + k.headerLength] == WithLength(k, head, Size(s))
    requires InPlace(stored, header + k.headerLength, Apply([], s))
    requires buffer[..pos] == stored[..pos]
    requires buffer[pos..end] == LittleEndian(Crc32(Zeros(32), stored[header..pos]))
    ensures Encoded(k, head, s, buffer[header..end])
  {
    hide WithLength, LittleEndian, Crc32;
    var frame, start := buffer[header..end], header + k.headerLength;
    var message := frame[..|frame| - 4];
    assert message == buffer[header..pos] && buffer[header..pos] == buffer[..pos][header..];
    assert stored[header..pos] == stored[..pos][header..];
    assert message == stored[header..pos];
    assert message[..k.headerLength] == stored[header..start];
    var cells := Apply([], s);
    forall i | k.headerLength <= i < k.headerLength + |cells| && cells[i - k.headerLength].Out?
      ensures message[i] == cells[i - k.headerLength].b
    {
      assert message[i] == stored[header + i];
      assert cells[header + i - start] == cells[i - k.headerLength];
    }
  }

  /** Behind a header that begins with the sync bytes, a message short enough for the framer is
      one that the framer reads the right length from. */
  lemma EncodedIsMessage(k: Kind, head: seq<byte>, s: Script, frame: seq<byte>)
    requires k == FRAMER_BINARY || k == FRAMER_BINARY_SHORT
    requires |head| == k.headerLength && head[..3] == k.syncBytes && Encoded(k, head, s, frame)
    requires |frame| <= k.maxLength
    ensures BinaryMessage(k, frame[..|frame| - 4])
  {
    hide Crc32, LittleEndian, InPlace, LittleEndianBytes, FixedBuffers.LittleEndianValue, Pow2, WithLength, Size;
    var message, n := frame[..|frame| - 4], Size(s);
    var bytes := LittleEndianBytes(n, k.lengthSize);
    LengthReadsBack(n, k.lengthSize);
    LengthFits();
    WithLengthParts(k, head, n);
    SliceOfSlice(message, 0, k.headerLength, 0, 3);
    SliceOfSlice(message, 0, k.headerLength, k.lengthIndex, k.lengthIndex + k.lengthSize);
    assert message[0..k.headerLength] == message[..k.headerLength];
  }

  /** So it is taken by the framer whole, whatever follows it. */
  lemma EncodedIsTaken(k: Kind, head: seq<byte>, s: Script, frame: seq<byte>, more: seq<byte>, room: nat)
    requires k == FRAMER_BINARY || k == FRAMER_BINARY_SHORT
    requires |head| == k.headerLength && head[..3] == k.syncBytes && Encoded(k, head, s, frame)
    requires |frame| <= k.maxLength && |frame| <= room
    ensures Resumable(k, frame + more, 0) && Decide(k, frame + more, 0, room) == Take(|frame|)
  {
    hide Crc32, LittleEndian, InPlace, Decide, WithLength, BinaryMessage;
    EncodedIsMessage(k, head, s, frame);
    BinaryMessageIsTaken(k, frame[..|frame| - 4], more, room);
  }

  /** And it is not lost, whatever the stream holds before it. */
  lemma EncodedIsNotLost(k: Kind, head: seq<byte>, s: Script, frame: seq<byte>, before: seq<byte>, more: seq<byte>)
    requires k == FRAMER_BINARY || k == FRAMER_BINARY_SHORT
    requires |head| == k.headerLength && head[..3] == k.syncBytes && Encoded(k, head, s, frame)
    requires |frame| <= k.maxLength
    ensures Delivery.NotLost(k, Pump(k, before + frame + more, 0), |before|, frame)
  {
    hide Crc32, LittleEndian, InPlace, Pump, Delivery.NotLost, WithLength, BinaryMessage;
    EncodedIsMessage(k, head, s, frame);
    BinaryMessageIsNotLost(k, before, frame[..|frame| - 4], more);
  }

  lemma WithLengthParts(k: Kind, head: seq<byte>, length: nat)
    requires k == FRAMER_BINARY || k == FRAMER_BINARY_SHORT
    requires |head| == k.headerLength
    ensures var h := WithLength(k, head, length);
            && h[0..3] == head[..3]
            && h[k.lengthIndex..k.lengthIndex + k.lengthSize] == LittleEndianBytes(length, k.lengthSize)
  {
    hide LittleEndianBytes;
  }

  lemma LengthFits()
    ensures Pow2(8) == 256 && Pow2(16) == 65536
  {
    EightBits(0);
    EightBits(8);
  }
}
