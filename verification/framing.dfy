/** What the OEM framers decide about a buffer. */
module Framing {
  import opened BitLists
  import opened OemCrc
  import opened CrcDetection
  import opened FixedBuffers
  import opened Hex

  const STAR: byte := 42
  const CR: byte := 13
  const LF: byte := 10
  const MAX_LOOKAHEAD_BYTES: nat := 256
  const OEM4_ASCII_CRC_LENGTH: nat := 8
  const OEM4_ASCII_SYNC_LENGTH: nat := 1
  const OEM4_BINARY_SYNC_LENGTH: nat := 3
  const OEM4_BINARY_CRC_LENGTH: nat := 4
  const MESSAGE_SIZE_MAX: nat := 0x8000
  const TRAILER: nat := OEM4_ASCII_CRC_LENGTH + 3

  datatype Status = Complete | Response | Incomplete | Invalid

  datatype Format = Unknown | BinaryFormat | ShortBinary | AsciiFormat | ShortAscii

  datatype Verdict = Verdict(status: Status, format: Format, index: nat)

  /** The template arguments of FramerAsciiBase and FramerBinaryBase. */
  datatype Kind =
    | Ascii(format: Format, syncByte: byte, maxLength: nat)
    | Binary(format: Format, syncBytes: seq<byte>, headerLength: nat, lengthIndex: nat, lengthSize: nat, maxLength: nat)
  {
    ghost predicate Valid() {
      match this
      case Ascii(_, syncByte, maxLength) => syncByte != STAR && maxLength > 0
      case Binary(_, syncBytes, headerLength, lengthIndex, lengthSize, _) =>
        |syncBytes| == 3 && lengthSize > 0 && 3 <= headerLength && lengthIndex + lengthSize <= headerLength
    }

    function Sync(): (s: seq<byte>)
      requires Valid()
      ensures 0 < |s| <= 3
    {
      if Ascii? then [syncByte] else syncBytes
    }
  }

  const FRAMER_ASCII := Ascii(AsciiFormat, 35, MESSAGE_SIZE_MAX)
  const FRAMER_ASCII_SHORT := Ascii(ShortAscii, 37, MESSAGE_SIZE_MAX)
  const FRAMER_BINARY := Binary(BinaryFormat, [0xAA, 0x44, 0x12], 28, 8, 2, MESSAGE_SIZE_MAX)
  const FRAMER_BINARY_SHORT := Binary(ShortBinary, [0xAA, 0x44, 0x13], 12, 3, 1, 12 + 255 + 4)

  // ---------------------------------------------------------------- sync search

  function FindSync(k: Kind, data: seq<byte>): (n: nat)
    requires k.Valid()
    ensures n <= |data| && n <= MAX_LOOKAHEAD_BYTES
  {
    var end := WindowEnd(data, 0, MAX_LOOKAHEAD_BYTES);
    var r := Search(data, k.Sync(), 0, end);
    if r == NPOS then end else r
  }

  /** The sync bytes start at p, all of them. */
  ghost predicate SyncAt(k: Kind, data: seq<byte>, p: nat)
    requires k.Valid()
  {
    p + |k.Sync()| <= |data| && data[p..p + |k.Sync()|] == k.Sync()
  }

  /** Every buffered byte from p on agrees with the sync bytes, as far as there are any. */
  ghost predicate MaybeSync(k: Kind, data: seq<byte>, p: nat)
    requires k.Valid() && p <= |data|
  {
    MatchAt(data, k.Sync(), p, |data|)
  }

  /** A match that fails in a window fails in every larger window. */
  lemma MatchShrinks(data: seq<byte>, more: seq<byte>, values: seq<byte>, p: nat, end: nat, far: nat)
    requires p <= end <= |data| && end <= far <= |data + more|
    requires MatchAt(data + more, values, p, far)
    ensures MatchAt(data, values, p, end)
  {
    var n := if |values| <= end - p then |values| else end - p;
    var m := if |values| <= far - p then |values| else far - p;
    var all := data + more;
    forall i | 0 <= i < n
      ensures data[p..p + n][i] == values[..n][i]
    {
      assert all[p..p + m][i] == values[..m][i];
    }
  }

  /** What FindSync tells: nothing before the result can become a sync, whatever follows;
      and a result of zero is a sync as far as the buffer shows one. */
  lemma FindSyncMeaning(k: Kind, data: seq<byte>)
    requires k.Valid()
    ensures forall p | 0 <= p < FindSync(k, data) :: !MaybeSync(k, data, p)
    ensures data != [] && FindSync(k, data) == 0 ==> MaybeSync(k, data, 0)
  {
    hide MatchAt, Search;
    var end, sync := WindowEnd(data, 0, MAX_LOOKAHEAD_BYTES), k.Sync();
    SearchFirst(data, sync, 0, end);
    assert data + [] == data;
    forall p | 0 <= p < FindSync(k, data)
      ensures !MaybeSync(k, data, p)
    {
      if MaybeSync(k, data, p) {
        MatchShrinks(data, [], sync, p, end, |data|);
      }
    }
    if data != [] && FindSync(k, data) == 0 {
      WiderMatch(data, sync, 0, end);
    }
  }

  /** The sync search stops at the first place in the first 256 bytes where the buffer agrees with the
      sync bytes as far as these 256 show it, or behind all of them. */
  lemma FindSyncIsExact(k: Kind, data: seq<byte>)
    requires k.Valid()
    ensures var n, end, sync := FindSync(k, data), if |data| < 256 then |data| else 256, k.Sync();
            && n <= end
            && (n < end ==> Agrees(data, sync, n, end))
            && forall p: nat | p < n :: !Agrees(data, sync, p, end)
  {
    hide MatchAt, Search;
    var n, end, sync := FindSync(k, data), WindowEnd(data, 0, MAX_LOOKAHEAD_BYTES), k.Sync();
    SearchFirst(data, sync, 0, end);
    if n < end {
      MatchMeans(data, sync, n, end);
    }
    forall p: nat | p < n
      ensures !Agrees(data, sync, p, end)
    {
      MatchMeans(data, sync, p, end);
    }
  }

  /** The bytes from p on are those of the values, as far as there are any before end. */
  predicate Agrees(data: seq<byte>, values: seq<byte>, p: nat, end: nat)
    requires end <= |data|
  {
    forall i | 0 <= i < |values| && p + i < end :: data[p + i] == values[i]
  }

  lemma MatchMeans(data: seq<byte>, values: seq<byte>, p: nat, end: nat)
    requires p <= end <= |data|
    ensures MatchAt(data, values, p, end) <==> Agrees(data, values, p, end)
  {
    var n := if |values| <= end - p then |values| else end - p;
    if MatchAt(data, values, p, end) {
      forall i | 0 <= i < |values| && p + i < end
        ensures data[p + i] == values[i]
      {
        assert data[p..p + n][i] == values[..n][i];
      }
    }
  }

  lemma WiderMatch(data: seq<byte>, values: seq<byte>, p: nat, end: nat)
    requires p <= end <= |data| && MatchAt(data, values, p, end)
    requires p + |values| <= end || end == |data|
    ensures MatchAt(data, values, p, |data|)
  {
  }

  lemma SyncIsMaybe(k: Kind, data: seq<byte>, more: seq<byte>, p: nat)
    requires k.Valid() && p <= |data| && SyncAt(k, data + more, p)
    ensures MaybeSync(k, data, p)
  {
    MatchShrinks(data, more, k.Sync(), p, |data|, |data + more|);
  }

  /** No sync is ever discarded: not one in the buffer, nor one that later bytes complete. */
  lemma DiscardsHoldNoSync(k: Kind, data: seq<byte>, more: seq<byte>, p: nat)
    requires k.Valid() && p < FindSync(k, data)
    ensures !SyncAt(k, data + more, p)
  {
    FindSyncMeaning(k, data);
    if SyncAt(k, data + more, p) {
      SyncIsMaybe(k, data, more, p);
    }
  }

  /** Progress: with at least as many bytes as the sync has, a search that discards nothing
      sits on a true sync. */
  lemma ZeroIsSync(k: Kind, data: seq<byte>)
    requires k.Valid() && |k.Sync()| <= |data| && FindSync(k, data) == 0
    ensures SyncAt(k, data, 0)
  {
    FindSyncMeaning(k, data);
  }

  // ---------------------------------------------------------------- ASCII frame end

  predicate IsCrlf(data: seq<byte>, p: nat) {
    p + 1 < |data| && data[p] == CR && data[p + 1] == LF
  }

  predicate IsAsciiCrc(data: seq<byte>, p: nat) {
    IsCrlf(data, p + OEM4_ASCII_CRC_LENGTH)
  }

  /** search_char(OEM4_ASCII_CRC_DELIMITER, start, MaxMessageLength) */
  function NextStar(k: Kind, data: seq<byte>, start: nat): (d: int)
    requires k.Ascii?
    ensures d == NPOS || start <= d < |data|
  {
    if start >= |data| then NPOS else Search(data, [STAR], start, WindowEnd(data, start, k.maxLength))
  }

  /** The loop of FindFrameEnd: passes over every '*' whose whole trailer is buffered but is
      not closed by a CRLF. */
  function Delimiter(k: Kind, data: seq<byte>, d: int): (r: int)
    requires k.Ascii? && (d == NPOS || 0 <= d < |data|)
    ensures r == NPOS || 0 <= r < |data|
    decreases if d == NPOS then 0 else |data| - d
  {
    if d != NPOS && |data| - d >= TRAILER && !IsAsciiCrc(data, d + 1) then
      Delimiter(k, data, NextStar(k, data, d + 1))
    else d
  }

  function AsciiFrameEnd(k: Kind, data: seq<byte>, start: nat): (v: Verdict)
    requires k.Ascii?
    ensures v.status != Invalid ==> v.index <= |data|
  {
    var d := Delimiter(k, data, NextStar(k, data, start));
    if d == NPOS then
      if |data| >= k.maxLength then Verdict(Invalid, Unknown, OEM4_ASCII_SYNC_LENGTH)
      else Verdict(Incomplete, k.format, |data|)
    else if |data| - d < TRAILER then Verdict(Incomplete, k.format, d)
    else Verdict(Complete, k.format, d + TRAILER)
  }

  /** A '*' that FindFrameEnd passes over. */
  ghost predicate Rejected(data: seq<byte>, d: nat) {
    d < |data| && data[d] == STAR && |data| - d >= TRAILER && !IsAsciiCrc(data, d + 1)
  }

  /** That is one with ten bytes behind it, of which the last two are not CRLF. */
  lemma RejectedMeans(data: seq<byte>, d: nat)
    ensures Rejected(data, d) <==> d + 11 <= |data| && data[d] == 42 && !(data[d + 9] == 13 && data[d + 10] == 10)
  {
  }

  /** Every '*' from lo up to hi is passed over. */
  ghost predicate Clean(data: seq<byte>, lo: nat, hi: nat) {
    hi <= |data| && forall p | lo <= p < hi :: data[p] == STAR ==> Rejected(data, p)
  }

  lemma StarMatch(data: seq<byte>, p: nat, end: nat)
    requires p < end <= |data|
    ensures MatchAt(data, [STAR], p, end) <==> data[p] == STAR
  {
    assert [STAR][..1] == [STAR];
    if data[p] == STAR {
      assert data[p..p + 1] == [STAR];
    } else {
      assert data[p..p + 1][0] != [STAR][0];
    }
  }

  /** What the search for a '*' tells. */
  lemma NextStarMeaning(k: Kind, data: seq<byte>, start: nat)
    requires k.Ascii? && start <= |data|
    ensures var d, end := NextStar(k, data, start), WindowEnd(data, start, k.maxLength);
            && (d != NPOS ==> start <= d < end && data[d] == STAR)
            && forall p | start <= p < (if d == NPOS then end else d) :: data[p] != STAR
  {
    hide MatchAt, Search;
    var d, end := NextStar(k, data, start), WindowEnd(data, start, k.maxLength);
    SearchFirst(data, [STAR], start, end);
    forall p | start <= p < (if d == NPOS then end else d)
      ensures data[p] != STAR
    {
      StarMatch(data, p, end);
      assert !MatchAt(data, [STAR], p, end);
    }
    if d != NPOS {
      StarMatch(data, d, end);
    }
  }

  lemma NextStarIs(k: Kind, data: seq<byte>, start: nat, d: nat)
    requires k.Ascii? && start <= d < |data| && d < start + k.maxLength
    requires data[d] == STAR && forall p | start <= p < d :: data[p] != STAR
    ensures NextStar(k, data, start) == d
  {
    hide NextStar;
    NextStarMeaning(k, data, start);
  }

  /** The '*' at which the loop stops is the first one that is not passed over. */
  lemma {:induction false} DelimiterMeaning(k: Kind, data: seq<byte>, start: nat)
    requires k.Ascii? && start <= |data|
    ensures var d := Delimiter(k, data, NextStar(k, data, start));
            && (d != NPOS ==> start <= d && data[d] == STAR && !Rejected(data, d) && Clean(data, start, d))
            && (d == NPOS && |data| < k.maxLength ==> Clean(data, start, |data|))
    decreases |data| - start
  {
    hide NextStar, IsAsciiCrc;
    NextStarMeaning(k, data, start);
    var d := NextStar(k, data, start);
    if d != NPOS && Rejected(data, d) {
      DelimiterMeaning(k, data, d + 1);
    }
  }

  /** A prefix known to be clean can be skipped. */
  lemma {:induction false} DelimiterSkip(k: Kind, data: seq<byte>, start: nat, from: nat)
    requires k.Ascii? && k.Valid() && start <= from <= |data| && Clean(data, start, from)
    ensures var d, e := Delimiter(k, data, NextStar(k, data, start)), Delimiter(k, data, NextStar(k, data, from));
            d != NPOS || |data| < k.maxLength ==> d == e
    decreases |data| - start
  {
    hide NextStar, IsAsciiCrc;
    NextStarMeaning(k, data, start);
    NextStarMeaning(k, data, from);
    var d := NextStar(k, data, start);
    if d != NPOS {
      if d < from {
        assert Rejected(data, d);
        DelimiterSkip(k, data, d + 1, from);
      } else {
        NextStarIs(k, data, from, d);
      }
    }
  }

  /** An INCOMPLETE verdict carries an index up to which the buffer is clean. */
  lemma IncompleteIsClean(k: Kind, data: seq<byte>, start: nat)
    requires k.Ascii? && start <= |data| && AsciiFrameEnd(k, data, start).status == Incomplete
    ensures var i := AsciiFrameEnd(k, data, start).index; start <= i <= |data| && Clean(data, start, i)
  {
    hide NextStar, IsAsciiCrc, Delimiter;
    DelimiterMeaning(k, data, start);
  }

  lemma CleanExtends(data: seq<byte>, more: seq<byte>, lo: nat, hi: nat)
    requires Clean(data, lo, hi)
    ensures Clean(data + more, lo, hi)
  {
    forall p | lo <= p < hi && (data + more)[p] == STAR
      ensures Rejected(data + more, p)
    {
      assert data[p] == STAR;
      assert Rejected(data, p);
    }
  }

  lemma CleanJoin(data: seq<byte>, lo: nat, mid: nat, hi: nat)
    requires Clean(data, lo, mid) && Clean(data, mid, hi)
    ensures Clean(data, lo, hi)
  {
  }

  /** Resuming after a clean prefix gives the verdict of a search from scratch, unless that
      verdict is INVALID. */
  lemma ResumeIsScratch(k: Kind, data: seq<byte>, start: nat, from: nat)
    requires k.Ascii? && k.Valid() && start <= from && Clean(data, start, from)
    requires AsciiFrameEnd(k, data, start).status != Invalid
    ensures AsciiFrameEnd(k, data, from) == AsciiFrameEnd(k, data, start)
  {
    hide NextStar, Delimiter;
    DelimiterSkip(k, data, start, from);
  }

  /** A COMPLETE verdict is stable under any further bytes. */
  lemma {:induction false} DelimiterStable(k: Kind, data: seq<byte>, more: seq<byte>, start: nat)
    requires k.Ascii? && k.Valid() && start <= |data|
    requires var d := Delimiter(k, data, NextStar(k, data, start)); d != NPOS && |data| - d >= TRAILER
    ensures Delimiter(k, data + more, NextStar(k, data + more, start)) == Delimiter(k, data, NextStar(k, data, start))
    decreases |data| - start
  {
    hide NextStar;
    var d := NextStar(k, data, start);
    NextStarMeaning(k, data, start);
    NextStarIs(k, data + more, start, d);
    if Rejected(data, d) {
      DelimiterStable(k, data, more, d + 1);
    }
  }

  lemma CompleteIsStable(k: Kind, data: seq<byte>, more: seq<byte>, start: nat)
    requires k.Ascii? && k.Valid() && start <= |data| && AsciiFrameEnd(k, data, start).status == Complete
    ensures AsciiFrameEnd(k, data + more, start) == AsciiFrameEnd(k, data, start)
  {
    hide NextStar, Delimiter;
    DelimiterStable(k, data, more, start);
  }

  // ---------------------------------------------------------------- a run of resumed searches

  /** The verdict of searches resumed as the stream grows to each of the cuts, and the cut at
      which they stop: the first verdict that is not INCOMPLETE, or the last cut. */
  function ResumeRun(k: Kind, stream: seq<byte>, cuts: seq<nat>, start: nat): (r: (Verdict, nat))
    requires k.Ascii? && |cuts| > 0 && forall i | 0 <= i < |cuts| :: cuts[i] <= |stream|
  {
    var v := AsciiFrameEnd(k, stream[..cuts[0]], start);
    if v.status == Incomplete && |cuts| > 1 then ResumeRun(k, stream, cuts[1..], v.index) else (v, cuts[0])
  }

  ghost predicate Increasing(cuts: seq<nat>) {
    forall i, j | 0 <= i < j < |cuts| :: cuts[i] <= cuts[j]
  }

  /** Chunk independence of FindFrameEnd over any sequence of writes. */
  lemma {:induction false} ChunksDoNotMatter(k: Kind, stream: seq<byte>, cuts: seq<nat>, origin: nat, start: nat)
    requires k.Ascii? && k.Valid() && |cuts| > 0 && Increasing(cuts)
    requires forall i | 0 <= i < |cuts| :: cuts[i] <= |stream|
    requires origin <= start <= cuts[0] && Clean(stream[..cuts[0]], origin, start)
    ensures var (v, n) := ResumeRun(k, stream, cuts, start);
            n <= |stream| &&
            var scratch := AsciiFrameEnd(k, stream[..n], origin);
            scratch.status != Invalid ==> v == scratch
    decreases |cuts|
  {
    hide AsciiFrameEnd, Clean;
    var data := stream[..cuts[0]];
    var v := AsciiFrameEnd(k, data, start);
    if v.status == Incomplete && |cuts| > 1 {
      IncompleteIsClean(k, data, start);
      CleanJoin(data, origin, start, v.index);
      var more := stream[cuts[0]..cuts[1]];
      assert stream[..cuts[1]] == data + more;
      CleanExtends(data, more, origin, v.index);
      ChunksDoNotMatter(k, stream, cuts[1..], origin, v.index);
    } else if AsciiFrameEnd(k, data, origin).status != Invalid {
      ResumeIsScratch(k, data, origin, start);
    }
  }

  /** Below the maximum message length no verdict is INVALID. */
  lemma ShortIsNotInvalid(k: Kind, data: seq<byte>, start: nat)
    requires k.Ascii? && |data| < k.maxLength
    ensures AsciiFrameEnd(k, data, start).status != Invalid
  {
  }

  // ---------------------------------------------------------------- binary frame end

  function BinaryFrameEnd(k: Kind, data: seq<byte>, start: nat): (v: Verdict)
    requires k.Binary? && k.Valid()
  {
    if |data| < k.headerLength then
      if |data| < OEM4_BINARY_SYNC_LENGTH then Verdict(Incomplete, Unknown, start)
      else Verdict(Incomplete, k.format, |data|)
    else
      var total := k.headerLength + LittleEndianValue(data[k.lengthIndex..k.lengthIndex + k.lengthSize]) + OEM4_BINARY_CRC_LENGTH;
      if total > k.maxLength then Verdict(Invalid, Unknown, OEM4_BINARY_SYNC_LENGTH)
      else if total > |data| then Verdict(Incomplete, k.format, |data|)
      else Verdict(Complete, k.format, total)
  }

  /** A verdict that is not INCOMPLETE depends only on bytes already buffered. */
  lemma BinaryIsStable(k: Kind, data: seq<byte>, more: seq<byte>, start: nat)
    requires k.Binary? && k.Valid() && BinaryFrameEnd(k, data, start).status != Incomplete
    ensures BinaryFrameEnd(k, data + more, start) == BinaryFrameEnd(k, data, start)
  {
    assert (data + more)[k.lengthIndex..k.lengthIndex + k.lengthSize] == data[k.lengthIndex..k.lengthIndex + k.lengthSize];
  }

  // ---------------------------------------------------------------- both kinds

  function FrameEnd(k: Kind, data: seq<byte>, start: nat): (v: Verdict)
    requires k.Valid()
  {
    if k.Ascii? then AsciiFrameEnd(k, data, start) else BinaryFrameEnd(k, data, start)
  }

  lemma NeverResponse(k: Kind, data: seq<byte>, start: nat)
    requires k.Valid()
    ensures FrameEnd(k, data, start).status != Response
  {
  }

  /** The number of bytes to discard, 0 for a valid frame. */
  function Validate(k: Kind, data: seq<byte>, frameEnd: nat): (n: nat)
    requires k.Valid() && frameEnd <= |data| && (if k.Ascii? then TRAILER + OEM4_ASCII_SYNC_LENGTH else 4) <= frameEnd
  {
    if k.Ascii? then
      var text := data[frameEnd - OEM4_ASCII_CRC_LENGTH - 2..frameEnd - 2];
      var crc := Crc32(Zeros(32), data[OEM4_ASCII_SYNC_LENGTH..frameEnd - TRAILER]);
      if ParseHex(text) == Value(ToNat(crc)) then 0 else OEM4_ASCII_SYNC_LENGTH
    else
      var crc := Crc32(Zeros(32), data[..frameEnd - 4]);
      if crc == ReadUint32(data[frameEnd - 4..frameEnd]) then 0 else OEM4_BINARY_SYNC_LENGTH
  }

  lemma ValidateIsStable(k: Kind, data: seq<byte>, more: seq<byte>, frameEnd: nat)
    requires k.Valid() && frameEnd <= |data| && (if k.Ascii? then TRAILER + OEM4_ASCII_SYNC_LENGTH else 4) <= frameEnd
    ensures Validate(k, data + more, frameEnd) == Validate(k, data, frameEnd)
  {
    hide Crc32, ParseHex, ReadUint32, ToNat;
    var all := data + more;
    if k.Ascii? {
      assert all[frameEnd - OEM4_ASCII_CRC_LENGTH - 2..frameEnd - 2] == data[frameEnd - OEM4_ASCII_CRC_LENGTH - 2..frameEnd - 2];
      assert all[OEM4_ASCII_SYNC_LENGTH..frameEnd - TRAILER] == data[OEM4_ASCII_SYNC_LENGTH..frameEnd - TRAILER];
    } else {
      assert all[..frameEnd - 4] == data[..frameEnd - 4];
      assert all[frameEnd - 4..frameEnd] == data[frameEnd - 4..frameEnd];
    }
  }

  /** A binary frame is valid just when the CRC of the whole frame, trailer included, is 0. */
  lemma BinaryValidIffZeroCrc(k: Kind, data: seq<byte>, frameEnd: nat)
    requires k.Binary? && k.Valid() && 4 <= frameEnd <= |data|
    ensures Validate(k, data, frameEnd) == 0 <==> Crc32(Zeros(32), data[..frameEnd]) == Zeros(32)
  {
    hide Crc32, ReadUint32;
    TrailerIsCrc(data[..frameEnd - 4], data[frameEnd - 4..frameEnd]);
    assert data[..frameEnd] == data[..frameEnd - 4] + data[frameEnd - 4..frameEnd];
  }

  /** A valid binary frame altered by a burst of at most 32 bits is always rejected. */
  lemma BurstIsRejected(k: Kind, data: seq<byte>, altered: seq<byte>, frameEnd: nat, lo: nat)
    requires k.Binary? && k.Valid() && 4 <= frameEnd <= |data| && frameEnd <= |altered|
    requires Validate(k, data, frameEnd) == 0
    requires Burst(data[..frameEnd], altered[..frameEnd], lo)
    ensures Validate(k, altered, frameEnd) == OEM4_BINARY_SYNC_LENGTH
  {
    hide Crc32, Burst;
    BinaryValidIffZeroCrc(k, data, frameEnd);
    BinaryValidIffZeroCrc(k, altered, frameEnd);
    BurstChangesCrc(Zeros(32), data[..frameEnd], altered[..frameEnd], lo);
  }

  /** A body with the CRC that the encoder appends to a binary message is valid. */
  lemma BinaryFrameIsValid(k: Kind, body: seq<byte>, more: seq<byte>)
    requires k.Binary? && k.Valid()
    ensures var frame := body + LittleEndian(Crc32(Zeros(32), body));
            Validate(k, frame + more, |frame|) == 0
  {
    hide Crc32, LittleEndian;
    var crc := Crc32(Zeros(32), body);
    var data := body + LittleEndian(crc) + more;
    LittleEndianBits(crc);
    assert data[..|body|] == body;
    assert data[|body|..|body| + 4] == LittleEndian(crc);
  }

  /** The text of an ASCII frame: sync, body, delimiter, eight hex digits, CRLF. */
  function AsciiFrame(k: Kind, body: seq<byte>): (frame: seq<byte>)
    requires k.Ascii?
  {
    [k.syncByte] + body + [STAR] + PaddedHex(ToNat(Crc32(Zeros(32), body)), 8) + [CR, LF]
  }

  /** No '*' of the body is followed nine bytes later by a CRLF. */
  ghost predicate NoFalseTrailer(body: seq<byte>) {
    forall i | 0 <= i < |body| && body[i] == STAR :: !IsCrlf(body, i + 9)
  }

  lemma {:induction false} DelimiterReaches(k: Kind, data: seq<byte>, start: nat, d: nat)
    requires k.Ascii? && k.Valid() && start <= d && d + TRAILER <= |data| && d < k.maxLength
    requires data[d] == STAR && IsAsciiCrc(data, d + 1) && Clean(data, start, d)
    ensures Delimiter(k, data, NextStar(k, data, start)) == d
    decreases d - start
  {
    hide NextStar;
    NextStarMeaning(k, data, start);
    var e := NextStar(k, data, start);
    if e < d {
      assert Rejected(data, e);
      DelimiterReaches(k, data, e + 1, d);
    }
  }

  /** Frame round trip: the frame is found at exactly its length, whatever follows it, if and
      only if its body has no false trailer. */
  lemma AsciiFrameIsFound(k: Kind, body: seq<byte>, more: seq<byte>)
    requires k.Ascii? && k.Valid() && |AsciiFrame(k, body)| <= k.maxLength
    ensures var frame := AsciiFrame(k, body);
            AsciiFrameEnd(k, frame + more, 0) == Verdict(Complete, k.format, |frame|) <==> NoFalseTrailer(body)
  {
    hide NoFalseTrailer, AsciiFrameEnd;
    if NoFalseTrailer(body) {
      FrameIsFound(k, body, more);
    } else {
      FalseTrailerIsFound(k, body, more);
    }
  }

  /** A false trailer ends the frame early. */
  lemma FalseTrailerIsFound(k: Kind, body: seq<byte>, more: seq<byte>)
    requires k.Ascii? && k.Valid() && !NoFalseTrailer(body)
    ensures AsciiFrameEnd(k, AsciiFrame(k, body) + more, 0) != Verdict(Complete, k.format, |AsciiFrame(k, body)|)
  {
    hide Crc32, PaddedHex, NextStar, ToNat, Delimiter;
    CrcHex(Crc32(Zeros(32), body));
    var data, d := AsciiFrame(k, body) + more, |body| + 1;
    DelimiterMeaning(k, data, 0);
    var i :| 0 <= i < |body| && body[i] == STAR && IsCrlf(body, i + 9);
    assert data[i + 1] == body[i] && data[i + 10] == body[i + 9] && data[i + 11] == body[i + 10];
    assert !Rejected(data, i + 1);
  }

  /** A body that looks like a trailer: of the 23 bytes of its frame, 12 are found. */
  lemma TrailerInBody(k: Kind, more: seq<byte>)
    requires k.Ascii? && k.Valid() && k.maxLength > 1
    ensures var body := [STAR] + Repeat(ZERO, 8) + [CR, LF];
            && |AsciiFrame(k, body)| == 23
            && AsciiFrameEnd(k, AsciiFrame(k, body) + more, 0) == Verdict(Complete, k.format, 12)
  {
    hide Crc32, PaddedHex, NextStar, ToNat;
    var body := [STAR] + Repeat(ZERO, 8) + [CR, LF];
    CrcHex(Crc32(Zeros(32), body));
    var data := AsciiFrame(k, body) + more;
    assert data[0] == k.syncByte && data[1] == STAR && data[10] == CR && data[11] == LF;
    NextStarIs(k, data, 0, 1);
  }

  lemma FrameIsFound(k: Kind, body: seq<byte>, more: seq<byte>)
    requires k.Ascii? && k.Valid() && NoFalseTrailer(body)
    requires |AsciiFrame(k, body)| <= k.maxLength
    ensures var frame := AsciiFrame(k, body);
            AsciiFrameEnd(k, frame + more, 0) == Verdict(Complete, k.format, |frame|)
  {
    hide Crc32, PaddedHex, NextStar, ToNat, Delimiter;
    var crc, d := Crc32(Zeros(32), body), |body| + 1;
    var frame := AsciiFrame(k, body);
    var data := frame + more;
    CrcHex(crc);
    var hex := PaddedHex(ToNat(crc), 8);
    assert frame[d] == STAR && frame[d + 9] == CR && frame[d + 10] == LF;
    assert frame[d + 1..d + 9] == hex;
    forall p | 0 <= p < d && data[p] == STAR
      ensures Rejected(data, p)
    {
      assert frame[p] == body[p - 1];
      if p + 10 < d {
        assert frame[p + 9] == body[p + 8] && frame[p + 10] == body[p + 9];
      } else if p + 10 > d {
        var i := p + 9 - (d + 1);
        if i >= 0 {
          assert data[p + 9] == hex[i];
          assert DigitValue(hex[i]) < 16;
        }
      }
    }
    DelimiterReaches(k, data, 0, d);
  }

  /** The CRC text has eight characters, all of them digits, and reads back as the CRC. */
  lemma CrcHex(crc: Bits)
    requires |crc| == 32
    ensures var t := PaddedHex(ToNat(crc), 8);
            |t| == 8 && AllDigits(t) && ParseHex(t) == Value(ToNat(crc))
  {
    ToNatBound(crc);
    Pow2Of32();
    HexRoundTrip(ToNat(crc));
  }

  /** The text of an ASCII frame with any trailer. */
  function AsciiFrameWith(k: Kind, body: seq<byte>, trailer: seq<byte>): seq<byte>
    requires k.Ascii? && |trailer| == 8
  {
    [k.syncByte] + body + [STAR] + trailer + [CR, LF]
  }

  /** A frame is valid if and only if the digits of its trailer are the number of the CRC of its body;
      it loses its sync byte if not. */
  lemma AsciiValidIffCrc(k: Kind, body: seq<byte>, trailer: seq<byte>, more: seq<byte>)
    requires k.Ascii? && k.Valid() && |trailer| == 8
    ensures var frame := AsciiFrameWith(k, body, trailer);
            Validate(k, frame + more, |frame|) == if ParseHex(trailer) == Value(ToNat(Crc32(Zeros(32), body))) then 0 else 1
    ensures var frame := AsciiFrameWith(k, body, trailer);
            AllDigits(trailer) ==>
              (Validate(k, frame + more, |frame|) == 0 <==> DigitsValue(trailer) == ToNat(Crc32(Zeros(32), body)))
  {
    hide Crc32, ToNat, ParseHex, DigitsValue;
    var frame := AsciiFrameWith(k, body, trailer);
    var data := frame + more;
    assert data[1..|frame| - TRAILER] == body;
    assert data[|frame| - 10..|frame| - 2] == trailer;
    if AllDigits(trailer) {
      DigitsAreRead(trailer);
    }
  }

  lemma DigitsAreRead(trailer: seq<byte>)
    requires |trailer| == 8 && AllDigits(trailer)
    ensures ParseHex(trailer) == Value(DigitsValue(trailer))
  {
    hide DigitsValue;
    AllDigitsCount(trailer);
    assert trailer[..8] == trailer;
    DigitsBound(trailer);
    SixteenToTheEighth();
  }

  /** A valid ASCII frame is always rejected when its body is altered by a burst of at most 32 bits,
      whatever its trailer is. */
  lemma AsciiBurstIsRejected(k: Kind, body: seq<byte>, altered: seq<byte>, trailer: seq<byte>, lo: nat, more: seq<byte>)
    requires k.Ascii? && k.Valid() && |trailer| == 8 && |altered| == |body| && Burst(body, altered, lo)
    requires var frame := AsciiFrameWith(k, body, trailer); Validate(k, frame + more, |frame|) == 0
    ensures var frame := AsciiFrameWith(k, altered, trailer); Validate(k, frame + more, |frame|) == OEM4_ASCII_SYNC_LENGTH
  {
    hide Crc32, ToNat, ParseHex, Burst;
    var x, y := Crc32(Zeros(32), body), Crc32(Zeros(32), altered);
    AsciiValidIffCrc(k, body, trailer, more);
    AsciiValidIffCrc(k, altered, trailer, more);
    BurstChangesCrc(Zeros(32), body, altered, lo);
    FromToNat(x);
    FromToNat(y);
  }

  /** A frame whose body is one letter, and its trailer zero, is rejected. */
  lemma WrongCrcIsRejected(k: Kind, more: seq<byte>)
    requires k.Ascii? && k.Valid()
    ensures var frame := AsciiFrameWith(k, [65], Repeat(ZERO, 8));
            |frame| == 13 && Validate(k, frame + more, 13) == OEM4_ASCII_SYNC_LENGTH
  {
    hide Crc32, ToNat, Validate, ParseHex, FromNat;
    var zeros := Repeat(ZERO, 8);
    AsciiValidIffCrc(k, [65], zeros, more);
    PaddingValue([], 8);
    assert zeros + [] == zeros;
    DigitsAreRead(zeros);
    ByteHasCrc(65);
    ZerosAreZero(32);
    FromToNat(Crc32(Zeros(32), [65]));
    FromToNat(Zeros(32));
  }

  lemma AsciiFrameIsValid(k: Kind, body: seq<byte>, more: seq<byte>)
    requires k.Ascii? && k.Valid()
    ensures var frame := AsciiFrame(k, body); Validate(k, frame + more, |frame|) == 0
  {
    hide Crc32, PaddedHex, ToNat, ParseHex;
    var crc := Crc32(Zeros(32), body);
    CrcHex(crc);
    var frame := AsciiFrame(k, body);
    var data := frame + more;
    assert data[1..|frame| - TRAILER] == body;
    assert data[|frame| - 10..|frame| - 2] == PaddedHex(ToNat(crc), 8);
  }
}
