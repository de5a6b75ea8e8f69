/** No valid frame is lost, and when a framer waits. */
module Delivery {
  import opened BitLists
  import Hex
  import FixedBuffers
  import opened Framing
  import opened Arrival
  import opened Streaming
  import Candidates
  import Chunking

  /** GetFrame hands out n bytes as a valid frame when the buffer starts at p of the stream. */
  ghost predicate ValidFrameAt(k: Kind, stream: seq<byte>, p: nat, n: nat)
    requires k.Valid() && p <= |stream|
  {
    SyncAt(k, stream, p) && Decide(k, stream[p..], 0, |stream| - p) == Take(n)
  }

  /** Two syncs do not overlap. */
  ghost predicate SyncsApart(k: Kind)
    requires k.Valid()
  {
    forall j | 0 < j < |k.Sync()| :: k.Sync()[j..] != k.Sync()[..|k.Sync()| - j]
  }

  /** The offset in the stream at which an item starts. */
  function Offset(items: seq<Item>, i: nat): nat
    requires i <= |items|
  {
    |Bytes(items[..i])|
  }

  ghost predicate TakenAt(items: seq<Item>, p: nat, bytes: seq<byte>) {
    exists i | 0 <= i < |items| :: Offset(items, i) == p && items[i] == Frame(bytes)
  }

  /** Position p lies inside a frame that starts before it. */
  ghost predicate InsideFrame(items: seq<Item>, p: nat) {
    exists i | 0 <= i < |items| :: Offset(items, i) < p && Overlaps(items[i], p - Offset(items, i))
  }

  predicate Overlaps(item: Item, distance: nat) {
    item.Frame? && distance < |item.bytes|
  }

  /** The frame at p was taken, or a frame over it; or a binary framer is waiting at an offset before
      it, but for less than a maximal message. */
  ghost predicate NotLost(k: Kind, pumped: Pumped, p: nat, bytes: seq<byte>) {
    || TakenAt(pumped.items, p, bytes)
    || InsideFrame(pumped.items, p)
    || (|Bytes(pumped.items)| < p && pumped.rest != [] && WaitsBriefly(k, pumped.rest))
  }

  predicate WaitsBriefly(k: Kind, data: seq<byte>) {
    k.Binary? && (|data| < k.headerLength || |data| < k.maxLength)
  }

  lemma OffsetAfter(first: seq<Item>, items: seq<Item>, i: nat)
    requires i < |items|
    ensures Offset(first + items, |first| + i) == |Bytes(first)| + Offset(items, i)
    ensures (first + items)[|first| + i] == items[i]
  {
    hide Bytes;
    assert (first + items)[..|first| + i] == first + items[..i];
    BytesConcat(first, items[..i]);
  }

  lemma NotLostAfter(k: Kind, pumped: Pumped, first: seq<Item>, p: nat, bytes: seq<byte>)
    requires NotLost(k, pumped, p, bytes)
    ensures NotLost(k, pumped.After(first), |Bytes(first)| + p, bytes)
  {
    hide Bytes, Offset, Overlaps;
    var items := pumped.items;
    BytesConcat(first, items);
    if i :| 0 <= i < |items| && Offset(items, i) == p && items[i] == Frame(bytes) {
      OffsetAfter(first, items, i);
    } else if i :| 0 <= i < |items| && Offset(items, i) < p && Overlaps(items[i], p - Offset(items, i)) {
      OffsetAfter(first, items, i);
    }
  }

  lemma SyncShiftsBack(k: Kind, stream: seq<byte>, n: nat, p: nat)
    requires k.Valid() && n <= p <= |stream| && SyncAt(k, stream, p)
    ensures SyncAt(k, stream[n..], p - n)
  {
    assert stream == stream[..n] + stream[n..];
    SyncShift(k, stream[..n], stream[n..], p);
  }

  lemma ValidFrameShifts(k: Kind, stream: seq<byte>, n: nat, p: nat, length: nat)
    requires k.Valid() && n <= p <= |stream| && ValidFrameAt(k, stream, p, length)
    ensures ValidFrameAt(k, stream[n..], p - n, length)
    ensures stream[n..][p - n..] == stream[p..]
  {
    hide SyncAt, Decide;
    SyncShiftsBack(k, stream, n, p);
    assert stream[n..][p - n..] == stream[p..];
  }

  lemma SyncElement(k: Kind, data: seq<byte>, p: nat, i: nat)
    requires k.Valid() && SyncAt(k, data, p) && i < |k.Sync()|
    ensures p + i < |data| && data[p + i] == k.Sync()[i]
  {
    assert data[p..p + |k.Sync()|][i] == data[p + i];
  }

  lemma OverlapAgrees(k: Kind, data: seq<byte>, p: nat)
    requires k.Valid() && SyncAt(k, data, 0) && SyncAt(k, data, p) && p < |k.Sync()|
    ensures k.Sync()[p..] == k.Sync()[..|k.Sync()| - p]
  {
    hide SyncAt;
    var sync, n := k.Sync(), |k.Sync()|;
    forall i | 0 <= i < n - p
      ensures sync[p..][i] == sync[..n - p][i]
    {
      SyncElement(k, data, 0, p + i);
      SyncElement(k, data, p, i);
    }
  }

  /** A sync strictly inside another one. */
  lemma SyncInsideSync(k: Kind, data: seq<byte>, p: nat)
    requires k.Valid() && SyncsApart(k) && SyncAt(k, data, 0) && SyncAt(k, data, p) && 0 < p
    ensures |k.Sync()| <= p
  {
    hide SyncAt;
    if p < |k.Sync()| {
      OverlapAgrees(k, data, p);
    }
  }

  /** What a wait and a frame say about the search for a frame end. */
  lemma FrameEndOf(k: Kind, data: seq<byte>)
    requires k.Valid()
    ensures var d := Decide(k, data, 0, |data|);
            d.Wait? || d.Take? ==>
              && data != [] && FindSync(k, data) == 0
              && FrameEnd(k, data, 0).status == (if d.Wait? then Incomplete else Complete)
              && FrameEnd(k, data, 0).index == (if d.Wait? then d.resume else d.length)
  {
    hide FindSync, FrameEnd, Validate;
    NeverResponse(k, data, 0);
  }

  /** The '*' of a valid ASCII frame. */
  lemma ValidFrameCloses(k: Kind, data: seq<byte>, p: nat, n: nat) returns (q: nat)
    requires k.Valid() && k.Ascii? && p <= |data| && ValidFrameAt(k, data, p, n)
    ensures q + TRAILER <= |data| && data[q] == STAR && !Rejected(data, q)
  {
    hide NextStar, Delimiter, IsAsciiCrc, SyncAt, FindSync, Decide;
    var part := data[p..];
    FrameEndOf(k, part);
    DelimiterMeaning(k, part, 0);
    q := p + (n - TRAILER);
    CrcInWhole(data, p, n - TRAILER);
  }

  lemma CrcInWhole(data: seq<byte>, p: nat, d: nat)
    requires p <= |data| && d + TRAILER <= |data| - p && data[p..][d] == STAR && !Rejected(data[p..], d)
    ensures data[p + d] == STAR && !Rejected(data, p + d)
  {
    assert data[p..][d + 9] == data[p + d + 9] && data[p..][d + 10] == data[p + d + 10];
  }

  /** With a valid frame in the buffer, an ASCII framer does not wait, and a binary one only for less
      than a maximal message. */
  lemma WaitIsBrief(k: Kind, data: seq<byte>, p: nat, n: nat)
    requires k.Valid() && p <= |data| && ValidFrameAt(k, data, p, n) && Decide(k, data, 0, |data|).Wait?
    ensures WaitsBriefly(k, data)
  {
    hide NextStar, Delimiter, IsAsciiCrc, SyncAt, FindSync, Decide, ValidFrameAt, FixedBuffers.LittleEndianValue;
    FrameEndOf(k, data);
    if k.Ascii? {
      var q := ValidFrameCloses(k, data, p, n);
      IncompleteIsClean(k, data, 0);
    }
  }

  /** What is discarded holds no valid frame. */
  lemma DiscardKeepsFrames(k: Kind, data: seq<byte>, p: nat, length: nat)
    requires k.Valid() && SyncsApart(k) && p <= |data| && ValidFrameAt(k, data, p, length)
    requires Decide(k, data, 0, |data|).Discard?
    ensures Decide(k, data, 0, |data|).count <= p
  {
    hide SyncAt, FindSync, Delimiter, NextStar, FixedBuffers.LittleEndianValue, SyncsApart;
    var n := Decide(k, data, 0, |data|).count;
    if FindSync(k, data) != 0 {
      assert data + [] == data;
      if p < n {
        DiscardsHoldNoSync(k, data, [], p);
      }
    } else {
      SecondStage(k, data, 0);
      assert data[0..] == data;
      assert p > 0;
      RejectedCount(k, data);
      EnoughForSync(k, data);
      SyncInsideSync(k, data, p);
    }
  }

  /** Behind a sync, only the sync is discarded. */
  lemma RejectedCount(k: Kind, data: seq<byte>)
    requires k.Valid() && data != [] && FindSync(k, data) == 0
    requires Decide(k, data, 0, |data|).Discard?
    ensures Decide(k, data, 0, |data|).count == |k.Sync()| && FrameEnd(k, data, 0).status != Incomplete
  {
    hide FindSync, Delimiter, NextStar, FixedBuffers.LittleEndianValue;
    if FrameEnd(k, data, 0).status == Complete {
      CompleteBounds(k, data, 0);
      var n := FrameEnd(k, data, 0).index;
      assert Validate(k, data, n) == 0 || Validate(k, data, n) == |k.Sync()|;
    }
  }

  /** No valid frame is lost in a run: it is taken, or a frame that starts before it and overlaps
      it is; only a binary framer may still wait, for the end of a shorter message before it. */
  lemma {:induction false} NoFrameIsLost(k: Kind, stream: seq<byte>, p: nat, n: nat)
    requires k.Valid() && SyncsApart(k) && p <= |stream| && ValidFrameAt(k, stream, p, n)
    ensures n <= |stream| - p && NotLost(k, Pump(k, stream, 0), p, stream[p..p + n])
    decreases |stream|
  {
    hide SyncAt, FindSync, FrameEnd, Validate, SyncsApart, Pump, Bytes, Decide, JunkItems, NotLost, WaitsBriefly, Pumped.After;
    PumpUnfold(k, stream, 0);
    DecisionBounds(k, stream[p..], 0, |stream| - p);
    var d := Decide(k, stream, 0, |stream|);
    if p == 0 {
      assert stream[0..] == stream && stream[0..n] == stream[..n];
      FirstIsTaken(k, Pump(k, stream[n..], 0), stream[..n]);
    } else if d.Wait? {
      WaitIsBrief(k, stream, p, n);
      StillWaiting(k, stream, p, stream[p..p + n], d.resume);
    } else if d.Take? && p < d.length {
      FirstIsOver(k, Pump(k, stream[d.length..], 0), stream[..d.length], p, stream[p..p + n]);
    } else {
      var m := if d.Discard? then d.count else d.length;
      var first := if d.Discard? then JunkItems(stream[..m]) else [Frame(stream[..m])];
      if d.Discard? {
        DiscardKeepsFrames(k, stream, p, n);
      }
      ValidFrameShifts(k, stream, m, p, n);
      NoFrameIsLost(k, stream[m..], p - m, n);
      NotLostBehind(k, stream, m, p, n, first);
    }
  }

  lemma NotLostBehind(k: Kind, stream: seq<byte>, m: nat, p: nat, n: nat, first: seq<Item>)
    requires k.Valid() && m <= p && p + n <= |stream| && (first == JunkItems(stream[..m]) || first == [Frame(stream[..m])])
    requires Pump(k, stream, 0) == Pump(k, stream[m..], 0).After(first)
    requires NotLost(k, Pump(k, stream[m..], 0), p - m, stream[m..][p - m..p - m + n])
    ensures NotLost(k, Pump(k, stream, 0), p, stream[p..p + n])
  {
    hide Pump, Bytes, JunkItems, NotLost;
    assert stream[m..][p - m..p - m + n] == stream[p..p + n];
    JunkBytes(stream[..m]);
    FrameBytes(stream[..m]);
    NotLostAfter(k, Pump(k, stream[m..], 0), first, p - m, stream[p..p + n]);
  }

  lemma FirstIsTaken(k: Kind, p: Pumped, bytes: seq<byte>)
    ensures NotLost(k, p.After([Frame(bytes)]), 0, bytes)
  {
    var items := p.After([Frame(bytes)]).items;
    assert items[..0] == [] && items[0] == Frame(bytes) && Offset(items, 0) == 0;
  }

  lemma FirstIsOver(k: Kind, pumped: Pumped, first: seq<byte>, p: nat, bytes: seq<byte>)
    requires 0 < p < |first|
    ensures NotLost(k, pumped.After([Frame(first)]), p, bytes)
  {
    var items := pumped.After([Frame(first)]).items;
    assert items[..0] == [] && Offset(items, 0) == 0 && Overlaps(items[0], p);
  }

  lemma StillWaiting(k: Kind, rest: seq<byte>, p: nat, bytes: seq<byte>, resume: nat)
    requires 0 < p <= |rest| && WaitsBriefly(k, rest)
    ensures NotLost(k, Pumped([], rest, resume), p, bytes)
  {
  }

  /** The same for a stream that arrives in chunks. */
  lemma NoFrameIsLostInChunks(k: Kind, chunks: seq<seq<byte>>, p: nat, n: nat)
    requires k.Valid() && SyncsApart(k) && p <= |Concat(chunks)| && ValidFrameAt(k, Concat(chunks), p, n)
    requires k.Ascii? ==> Chunking.Robust(k, Concat(chunks), 0)
    ensures n <= |Concat(chunks)| - p
    ensures NotLost(k, RunChunks(k, chunks, [], 0), p, Concat(chunks)[p..p + n])
  {
    hide NotLost, ValidFrameAt, Pump, Chunking.Robust, RunChunks, SyncsApart;
    NoFrameIsLost(k, Concat(chunks), p, n);
    if k.Ascii? {
      Chunking.RobustIsIndependent(k, chunks);
    } else {
      BinaryChunkIndependence(k, chunks);
    }
  }

  /** The four framers: their parameters are valid and their syncs do not overlap. */
  lemma FramersAreApart(k: Kind)
    requires k in {FRAMER_ASCII, FRAMER_ASCII_SHORT, FRAMER_BINARY, FRAMER_BINARY_SHORT}
    ensures k.Valid() && SyncsApart(k)
  {
    if k.Binary? {
      var sync := k.Sync();
      assert sync[1..][0] != sync[..2][0] && sync[2..][0] != sync[..1][0];
    }
  }

  // ---------------------------------------------------------------- waiting

  /** A binary framer waits, at a sync, for the header and for the message that its length field
      announces; so never with a header and a maximal message buffered. */
  lemma BinaryWaits(k: Kind, data: seq<byte>)
    requires k.Valid() && k.Binary? && data != []
    ensures Decide(k, data, 0, |data|).Wait? <==>
            && FindSync(k, data) == 0
            && (|data| < k.headerLength || |data| < Announced(k, data) <= k.maxLength)
    ensures Decide(k, data, 0, |data|).Wait? ==> WaitsBriefly(k, data)
  {
    hide FindSync, Validate, FixedBuffers.LittleEndianValue;
    FrameEndOf(k, data);
    if FindSync(k, data) == 0 && FrameEnd(k, data, 0).status == Complete {
      CompleteBounds(k, data, 0);
    }
  }

  /** The length of the message whose header is buffered. */
  function Announced(k: Kind, data: seq<byte>): nat
    requires k.Valid() && k.Binary? && k.headerLength <= |data|
  {
    k.headerLength + FixedBuffers.LittleEndianValue(data[k.lengthIndex..k.lengthIndex + k.lengthSize]) + OEM4_BINARY_CRC_LENGTH
  }

  /** A '*' that a search comes to, with its trailer cut off by the end of the buffer. */
  ghost predicate OpenStar(k: Kind, data: seq<byte>, a: nat, d: nat)
    requires k.Ascii?
  {
    && a <= d < a + k.maxLength && d < |data| < d + TRAILER && data[d] == STAR
    && (a == 0 || data[a - 1] == STAR)
    && Clean(data, 0, a) && Connected(k, data, 0, a) && NoStar(data, a, d)
  }

  /** With a maximum length buffered, an ASCII framer waits exactly at such a '*', in the last ten
      bytes. */
  lemma AsciiWaits(k: Kind, data: seq<byte>)
    requires k.Valid() && k.Ascii? && k.maxLength <= |data| && data[0] == k.syncByte
    ensures Decide(k, data, 0, |data|).Wait? <==> exists a: nat, d: nat :: OpenStar(k, data, a, d)
    ensures forall d: nat :: Decide(k, data, 0, |data|) == Wait(d) <==> exists a: nat :: OpenStar(k, data, a, d)
  {
    hide NextStar, Delimiter, IsAsciiCrc, Decide, Candidates.Conclusion, OpenStar;
    NotResumed(k, data);
    Candidates.ConclusionIsDecision(k, data, 0);
    Candidates.WaitsWhenIncomplete(k, data, AsciiFrameEnd(k, data, 0));
    forall a: nat, d: nat | OpenStar(k, data, a, d)
      ensures Decide(k, data, 0, |data|) == Wait(d)
    {
      OpenStarWaits(k, data, a, d);
    }
    if AsciiFrameEnd(k, data, 0).status == Incomplete {
      var a := WaitsAtOpenStar(k, data);
    }
  }

  lemma OpenStarWaits(k: Kind, data: seq<byte>, a: nat, d: nat)
    requires k.Valid() && k.Ascii? && OpenStar(k, data, a, d)
    ensures AsciiFrameEnd(k, data, 0) == Verdict(Incomplete, k.format, d)
  {
    hide NextStar, Delimiter, IsAsciiCrc, Connected;
    SearchReaches(k, data, 0, a);
    NextStarIs(k, data, a, d);
    DelimiterAt(k, data, d);
  }

  lemma WaitsAtOpenStar(k: Kind, data: seq<byte>) returns (a: nat)
    requires k.Valid() && k.Ascii? && k.maxLength <= |data| && AsciiFrameEnd(k, data, 0).status == Incomplete
    ensures OpenStar(k, data, a, AsciiFrameEnd(k, data, 0).index)
  {
    hide NextStar, Delimiter, IsAsciiCrc, Connected;
    a := SearchFound(k, data, 0);
    DelimiterMeaning(k, data, 0);
  }

  /** A call that waits changes nothing about the next one. */
  lemma WaitRepeats(k: Kind, data: seq<byte>, i: nat)
    requires k.Valid() && Decide(k, data, 0, |data|) == Wait(i)
    ensures Resumable(k, data, i) && Decide(k, data, i, |data|) == Wait(i)
  {
    hide NextStar, Delimiter, IsAsciiCrc, FindSync, SyncAt, Clean, Validate, FixedBuffers.LittleEndianValue;
    DecisionBounds(k, data, 0, |data|);
    FrameEndOf(k, data);
    if i != 0 && k.Ascii? {
      IncompleteIsClean(k, data, 0);
      ResumeIsScratch(k, data, 0, i);
    }
  }

  /** A sync, and nothing but '*' behind it. */
  function Stars(k: Kind, n: nat): (data: seq<byte>)
    requires k.Ascii? && n > 0
    ensures |data| == n
  {
    [k.syncByte] + Hex.Repeat(STAR, n - 1)
  }

  /** So in a buffer of any capacity an ASCII framer can come to a stop: with these bytes it waits,
      at each call, and there is no room to write more. */
  lemma FullBufferWaits(k: Kind, n: nat)
    requires k.Valid() && k.Ascii? && k.maxLength > 1 && n > TRAILER
    ensures var data, d := Stars(k, n), n - OEM4_ASCII_CRC_LENGTH - 2;
            && Decide(k, data, 0, n) == Wait(d)
            && Resumable(k, data, d) && Decide(k, data, d, n) == Wait(d)
  {
    hide Decide, AsciiFrameEnd, Resumable;
    var data, d := Stars(k, n), n - OEM4_ASCII_CRC_LENGTH - 2;
    StarsAreOpen(k, n);
    OpenStarWaits(k, data, d, d);
    NotResumed(k, data);
    Candidates.ConclusionIsDecision(k, data, 0);
    WaitRepeats(k, data, d);
  }

  lemma StarsAreOpen(k: Kind, n: nat)
    requires k.Valid() && k.Ascii? && k.maxLength > 1 && n > TRAILER
    ensures var d := n - OEM4_ASCII_CRC_LENGTH - 2; OpenStar(k, Stars(k, n), d, d)
    ensures Stars(k, n)[0] == k.syncByte
  {
    var data, d := Stars(k, n), n - OEM4_ASCII_CRC_LENGTH - 2;
    assert forall p | 1 <= p < n :: data[p] == STAR;
    forall b: nat, c: nat | b + k.maxLength == c <= d
      ensures !NoStar(data, b, c)
    {
      assert data[b + 1] == STAR;
    }
  }
}
