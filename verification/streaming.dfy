/** Whole runs of a framer, and what comes out of a stream cut up in any way. */
module Streaming {
  import opened BitLists
  import FixedBuffers
  import Memory
  import opened Framing

  /** What one call of GetFrame does with a buffer. */
  datatype Decision =
    | Empty                 // nothing buffered
    | Discard(count: nat)   // unknown bytes are handed out
    | Full(index: nat)      // the caller's buffer is too small
    | Wait(resume: nat)     // more data is needed; the search resumes here
    | Take(length: nat)     // a valid frame is handed out

  /** The stages of FramerBase::GetFrame: sync search, frame end, validation.  byteCount is the
      index at which an earlier incomplete search stopped, room the size of the caller's buffer. */
  function Decide(k: Kind, data: seq<byte>, byteCount: nat, room: nat): (d: Decision)
    requires k.Valid() && Resumable(k, data, byteCount)
  {
    if data == [] then Empty
    else if byteCount == 0 && FindSync(k, data) != 0 then Discard(FindSync(k, data))
    else
      var v := FrameEnd(k, data, byteCount);
      if room < v.index then Full(v.index)
      else
        match v.status
        case Response | Complete =>
          CompleteBounds(k, data, byteCount);
          var n := Validate(k, data, v.index);
          if n != 0 then Discard(n) else Take(v.index)
        case Incomplete => Wait(v.index)
        case Invalid => Discard(v.index)
  }

  /** Between calls, a resume index other than 0 means that the buffer starts with a sync and
      that an ASCII buffer is clean up to the index. */
  ghost predicate Resumable(k: Kind, data: seq<byte>, byteCount: nat)
    requires k.Valid()
  {
    byteCount == 0 ||
    (byteCount <= |data| && SyncAt(k, data, 0) && (k.Ascii? ==> Clean(data, 0, byteCount)))
  }

  lemma NotResumed(k: Kind, data: seq<byte>)
    requires k.Valid()
    ensures Resumable(k, data, 0)
  {
  }

  /** The buffer GetFrame looks at in its second stage starts with what may be a sync. */
  lemma SecondStage(k: Kind, data: seq<byte>, byteCount: nat)
    requires k.Valid() && Resumable(k, data, byteCount) && data != []
    requires byteCount != 0 || FindSync(k, data) == 0
    ensures |k.Sync()| <= |data| ==> SyncAt(k, data, 0)
    ensures k.Ascii? ==> data[0] == k.syncByte
  {
    if byteCount == 0 && |k.Sync()| <= |data| {
      ZeroIsSync(k, data);
    }
    if k.Ascii? {
      assert data[0] == data[0..1][0];
    }
  }

  /** A complete frame is long enough for its checks and lies within the buffer. */
  lemma CompleteBounds(k: Kind, data: seq<byte>, byteCount: nat)
    requires k.Valid() && Resumable(k, data, byteCount) && data != []
    requires byteCount != 0 || FindSync(k, data) == 0
    requires FrameEnd(k, data, byteCount).status in {Response, Complete}
    ensures FrameEnd(k, data, byteCount).status == Complete
    ensures (if k.Ascii? then TRAILER + OEM4_ASCII_SYNC_LENGTH else 4) <= FrameEnd(k, data, byteCount).index <= |data|
  {
    hide NextStar, Delimiter, FindSync;
    if k.Ascii? {
      SecondStage(k, data, byteCount);
      DelimiterMeaning(k, data, byteCount);
    }
  }

  /** What GetFrame hands out or waits for lies within the buffer, and discards make progress. */
  lemma DecisionBounds(k: Kind, data: seq<byte>, byteCount: nat, room: nat)
    requires k.Valid() && Resumable(k, data, byteCount)
    ensures match Decide(k, data, byteCount, room)
            case Discard(n) => 0 < n <= |data| && n <= MAX_LOOKAHEAD_BYTES
            case Take(n) => 0 < n <= |data| && n <= room && FrameEnd(k, data, byteCount).status == Complete
            case Wait(i) => Resumable(k, data, i)
            case Full(i) => room < |data|
            case Empty => data == []
  {
    hide NextStar, Delimiter, FindSync, Validate, FixedBuffers.LittleEndianValue, SyncAt, Clean;
    if data != [] && (byteCount != 0 || FindSync(k, data) == 0) {
      var v := FrameEnd(k, data, byteCount);
      if v.status == Complete {
        CompleteBounds(k, data, byteCount);
        ValidateCount(k, data, v.index);
      } else if v.status == Incomplete && v.index != 0 {
        SecondStage(k, data, byteCount);
        if k.Ascii? {
          IncompleteIsClean(k, data, byteCount);
          if byteCount != 0 {
            CleanJoin(data, 0, byteCount, v.index);
          }
        }
      }
    }
  }

  lemma ValidateCount(k: Kind, data: seq<byte>, frameEnd: nat)
    requires k.Valid() && frameEnd <= |data| && (if k.Ascii? then TRAILER + OEM4_ASCII_SYNC_LENGTH else 4) <= frameEnd
    ensures Validate(k, data, frameEnd) <= 3 && Validate(k, data, frameEnd) <= frameEnd
  {
  }

  // ---------------------------------------------------------------- runs

  datatype Item = Junk(b: byte) | Frame(bytes: seq<byte>)

  /** What a run hands out, what it leaves in the buffer, and the resume index. */
  datatype Pumped = Pumped(items: seq<Item>, rest: seq<byte>, resume: nat) {
    function After(first: seq<Item>): Pumped {
      Pumped(first + items, rest, resume)
    }
  }

  function JunkItems(bytes: seq<byte>): (items: seq<Item>)
    ensures |items| == |bytes|
  {
    seq(|bytes|, i requires 0 <= i < |bytes| => Junk(bytes[i]))
  }

  /** GetFrame called, with a caller's buffer as large as the framer's, until it needs more data. */
  function Pump(k: Kind, data: seq<byte>, byteCount: nat): (p: Pumped)
    requires k.Valid() && Resumable(k, data, byteCount)
    ensures Resumable(k, p.rest, p.resume)
    decreases |data|
  {
    var d := Decide(k, data, byteCount, |data|);
    DecisionBounds(k, data, byteCount, |data|);
    match d
    case Discard(n) => Pump(k, data[n..], 0).After(JunkItems(data[..n]))
    case Take(n) => Pump(k, data[n..], 0).After([Frame(data[..n])])
    case Wait(i) => Pumped([], data, i)
    case _ => Pumped([], data, byteCount)
  }

  /** One call unfolded. */
  lemma PumpUnfold(k: Kind, data: seq<byte>, byteCount: nat)
    requires k.Valid() && Resumable(k, data, byteCount)
    ensures var d, p := Decide(k, data, byteCount, |data|), Pump(k, data, byteCount);
            && !d.Full?
            && (d.Empty? ==> data == [] && p == Pumped([], data, byteCount))
            && (d.Wait? ==> p == Pumped([], data, d.resume))
            && (d.Discard? ==> 0 < d.count <= |data|)
            && (d.Discard? ==> p == Pump(k, data[d.count..], 0).After(JunkItems(data[..d.count])))
            && (d.Take? ==> 0 < d.length <= |data|)
            && (d.Take? ==> p == Pump(k, data[d.length..], 0).After([Frame(data[..d.length])]))
  {
    hide Decide, FrameEnd, SyncAt, Clean;
    DecisionBounds(k, data, byteCount, |data|);
  }

  function Bytes(items: seq<Item>): seq<byte> {
    if items == [] then []
    else (if items[0].Junk? then [items[0].b] else items[0].bytes) + Bytes(items[1..])
  }

  lemma {:induction false} BytesConcat(a: seq<Item>, b: seq<Item>)
    ensures Bytes(a + b) == Bytes(a) + Bytes(b)
    decreases |a|
  {
    if a == [] {
      assert a + b == b;
    } else {
      assert (a + b)[1..] == a[1..] + b;
      BytesConcat(a[1..], b);
    }
  }

  lemma {:induction false} JunkBytes(bytes: seq<byte>)
    ensures Bytes(JunkItems(bytes)) == bytes
    decreases |bytes|
  {
    if bytes != [] {
      assert JunkItems(bytes)[1..] == JunkItems(bytes[1..]);
      JunkBytes(bytes[1..]);
    }
  }

  lemma FrameBytes(bytes: seq<byte>)
    ensures Bytes([Frame(bytes)]) == bytes
  {
    assert [Frame(bytes)][1..] == [];
  }

  lemma AfterConserves(first: seq<Item>, p: Pumped, head: seq<byte>, tail: seq<byte>)
    requires Bytes(first) == head && Bytes(p.items) + p.rest == tail
    ensures Bytes(p.After(first).items) + p.After(first).rest == head + tail
  {
    hide Bytes;
    BytesConcat(first, p.items);
  }

  /** Conservation: every byte of the stream is handed out once and in order, or still buffered. */
  lemma {:induction false} PumpConserves(k: Kind, data: seq<byte>, byteCount: nat)
    requires k.Valid() && Resumable(k, data, byteCount)
    ensures Bytes(Pump(k, data, byteCount).items) + Pump(k, data, byteCount).rest == data
    decreases |data|
  {
    hide Decide, FrameEnd, SyncAt, Clean, JunkItems, Pump;
    PumpUnfold(k, data, byteCount);
    var d := Decide(k, data, byteCount, |data|);
    if d.Discard? || d.Take? {
      var n := if d.Discard? then d.count else d.length;
      var first := if d.Discard? then JunkItems(data[..n]) else [Frame(data[..n])];
      PumpConserves(k, data[n..], 0);
      JunkBytes(data[..n]);
      FrameBytes(data[..n]);
      AfterConserves(first, Pump(k, data[n..], 0), data[..n], data[n..]);
      assert data[..n] + data[n..] == data;
    }
  }

  // ---------------------------------------------------------------- chunk independence

  lemma AfterNothing(p: Pumped)
    ensures p.After([]) == p
  {
  }

  lemma AfterAfter(p: Pumped, a: seq<Item>, b: seq<Item>)
    ensures p.After(b).After(a) == p.After(a + b)
  {
    assert a + (b + p.items) == (a + b) + p.items;
  }

  lemma JunkConcat(a: seq<byte>, b: seq<byte>)
    ensures JunkItems(a + b) == JunkItems(a) + JunkItems(b)
  {
  }

  lemma MaybeSyncShift(k: Kind, data: seq<byte>, j: nat, p: nat)
    requires k.Valid() && j + p <= |data|
    ensures MaybeSync(k, data[j..], p) == MaybeSync(k, data, j + p)
  {
    var n := if |k.Sync()| <= |data| - (j + p) then |k.Sync()| else |data| - (j + p);
    Memory.SliceOfSlice(data, j, |data|, p, p + n);
    assert data[j..] == data[j..|data|];
    assert data[j..][p..p + n] == data[j + p..j + p + n];
  }

  /** No verdict of a run from scratch over the buffer is INVALID; only ASCII kinds care. */
  ghost predicate Steady(k: Kind, data: seq<byte>)
    requires k.Valid()
    decreases |data|
  {
    k.Binary? ||
    var d := Decide(k, data, 0, |data|);
    if d.Discard? then
      (FindSync(k, data) != 0 || FrameEnd(k, data, 0).status != Invalid) &&
      (0 < d.count <= |data| ==> Steady(k, data[d.count..]))
    else if d.Take? then 0 < d.length <= |data| ==> Steady(k, data[d.length..])
    else true
  }

  lemma SteadyDiscard(k: Kind, data: seq<byte>)
    requires k.Valid() && FindSync(k, data) != 0
    ensures Steady(k, data) == Steady(k, data[FindSync(k, data)..])
    ensures Pump(k, data, 0) == Pump(k, data[FindSync(k, data)..], 0).After(JunkItems(data[..FindSync(k, data)]))
  {
    hide FindSync, FrameEnd, Pump;
    PumpUnfold(k, data, 0);
  }

  lemma HeadIsJunk(k: Kind, data: seq<byte>)
    requires k.Valid() && data != [] && !MaybeSync(k, data, 0)
    ensures FindSync(k, data) != 0
  {
    hide FindSync, MaybeSync;
    FindSyncMeaning(k, data);
  }

  /** Bytes that cannot start a sync come out as junk, however the sync search groups them. */
  lemma {:induction false} SkipJunk(k: Kind, data: seq<byte>, j: nat)
    requires k.Valid() && j <= |data|
    requires forall p | 0 <= p < j :: !MaybeSync(k, data, p)
    ensures Pump(k, data, 0) == Pump(k, data[j..], 0).After(JunkItems(data[..j]))
    ensures Steady(k, data) == Steady(k, data[j..])
    decreases |data|, j
  {
    hide MaybeSync, FindSync, Pump, Steady, JunkItems, Pumped.After;
    if j == 0 {
      assert data[0..] == data && data[..0] == [];
      JunkNothing();
      AfterNothing(Pump(k, data, 0));
    } else {
      HeadIsJunk(k, data);
      FindSyncMeaning(k, data);
      SteadyDiscard(k, data);
      var n := FindSync(k, data);
      var lo, hi := if j <= n then j else n, if j <= n then n else j;
      JunkBehind(k, data, lo, hi);
      SkipJunk(k, data[lo..], hi - lo);
      JunkJoins(Pump(k, data[hi..], 0), data, lo, hi);
    }
  }

  lemma JunkBehind(k: Kind, data: seq<byte>, lo: nat, hi: nat)
    requires k.Valid() && lo <= hi <= |data| && forall p | 0 <= p < hi :: !MaybeSync(k, data, p)
    ensures forall p | 0 <= p < hi - lo :: !MaybeSync(k, data[lo..], p)
  {
    hide MaybeSync;
    forall p | 0 <= p < hi - lo
      ensures !MaybeSync(k, data[lo..], p)
    {
      MaybeSyncShift(k, data, lo, p);
    }
  }

  /** Junk handed out in two parts and at once. */
  lemma JunkJoins(p: Pumped, data: seq<byte>, lo: nat, hi: nat)
    requires lo <= hi <= |data|
    ensures data[lo..][hi - lo..] == data[hi..] && data[lo..][..hi - lo] == data[lo..hi]
    ensures p.After(JunkItems(data[lo..hi])).After(JunkItems(data[..lo])) == p.After(JunkItems(data[..hi]))
  {
    hide JunkItems;
    JunkConcat(data[..lo], data[lo..hi]);
    assert data[..lo] + data[lo..hi] == data[..hi];
    AfterAfter(p, JunkItems(data[..lo]), JunkItems(data[lo..hi]));
  }

  lemma JunkNothing()
    ensures JunkItems([]) == []
  {
  }

  lemma JunkStaysJunk(k: Kind, data: seq<byte>, more: seq<byte>, p: nat)
    requires k.Valid() && p <= |data| && !MaybeSync(k, data, p)
    ensures !MaybeSync(k, data + more, p)
  {
    if MaybeSync(k, data + more, p) {
      MatchShrinks(data, more, k.Sync(), p, |data|, |data + more|);
    }
  }

  lemma SyncStays(k: Kind, data: seq<byte>, more: seq<byte>)
    requires k.Valid() && SyncAt(k, data, 0)
    ensures SyncAt(k, data + more, 0)
    ensures FindSync(k, data) == 0
  {
    var n, end := |k.Sync()|, FixedBuffers.WindowEnd(data, 0, MAX_LOOKAHEAD_BYTES);
    assert (data + more)[..n] == data[..n];
    assert data[0..n] == k.Sync();
    assert FixedBuffers.MatchAt(data, k.Sync(), 0, end);
  }

  /** Once a call of GetFrame decides anything but to wait, further bytes do not change it. */
  lemma DecisionIsStable(k: Kind, data: seq<byte>, more: seq<byte>)
    requires k.Valid() && data != [] && FindSync(k, data) == 0
    requires FrameEnd(k, data, 0).status != Incomplete
    requires k.Ascii? ==> FrameEnd(k, data, 0).status != Invalid
    ensures Decide(k, data + more, 0, |data + more|) == Decide(k, data, 0, |data|)
    ensures FindSync(k, data + more) == 0 && FrameEnd(k, data + more, 0) == FrameEnd(k, data, 0)
  {
    hide NextStar, Delimiter, FindSync, Validate, FixedBuffers.LittleEndianValue, SyncAt, Clean;
    SecondStage(k, data, 0);
    EnoughForSync(k, data);
    SyncStays(k, data, more);
    SyncStays(k, data + more, []);
    if k.Ascii? {
      CompleteIsStable(k, data, more, 0);
    } else {
      BinaryIsStable(k, data, more, 0);
    }
    if FrameEnd(k, data, 0).status == Complete {
      CompleteBounds(k, data, 0);
      ValidateIsStable(k, data, more, FrameEnd(k, data, 0).index);
    }
    DecisionBounds(k, data, 0, |data|);
  }

  lemma EnoughForSync(k: Kind, data: seq<byte>)
    requires k.Valid() && data != [] && FrameEnd(k, data, 0).status != Incomplete
    ensures |k.Sync()| <= |data|
  {
  }

  /** The run over a longer buffer first does what it does over the shorter one. */
  lemma {:induction false} PumpAppend(k: Kind, data: seq<byte>, more: seq<byte>)
    requires k.Valid() && Steady(k, data) && Steady(k, data + more)
    ensures var p := Pump(k, data, 0);
            && Pump(k, data + more, 0) == Pump(k, p.rest + more, 0).After(p.items)
            && Steady(k, p.rest + more)
    decreases |data|
  {
    hide Pump, MaybeSync, FindSync, JunkItems, FrameEnd, Decide, SyncAt, Clean;
    PumpUnfold(k, data, 0);
    var d := Decide(k, data, 0, |data|);
    if d.Discard? || d.Take? {
      var n := if d.Discard? then d.count else d.length;
      var first := if d.Discard? then JunkItems(data[..n]) else [Frame(data[..n])];
      PumpAppendStep(k, data, more, n);
      PumpAppend(k, data[n..], more);
      AfterAfter(Pump(k, Pump(k, data[n..], 0).rest + more, 0), first, Pump(k, data[n..], 0).items);
    } else {
      AfterNothing(Pump(k, data + more, 0));
    }
  }

  lemma PumpAppendStep(k: Kind, data: seq<byte>, more: seq<byte>, n: nat)
    requires k.Valid() && Steady(k, data) && Steady(k, data + more) && n <= |data|
    requires var d := Decide(k, data, 0, |data|); d == Discard(n) || d == Take(n)
    ensures var first := if Decide(k, data, 0, |data|).Discard? then JunkItems(data[..n]) else [Frame(data[..n])];
            Pump(k, data + more, 0) == Pump(k, data[n..] + more, 0).After(first)
    ensures Steady(k, data[n..]) && Steady(k, data[n..] + more)
  {
    hide Pump, MaybeSync, FindSync, JunkItems, FrameEnd, SyncAt, Clean, Validate, Steady;
    DecisionBounds(k, data, 0, |data|);
    var all := data + more;
    assert all[n..] == data[n..] + more && all[..n] == data[..n];
    if FindSync(k, data) != 0 {
      FindSyncMeaning(k, data);
      forall p | 0 <= p < n
        ensures !MaybeSync(k, all, p)
      {
        JunkStaysJunk(k, data, more, p);
      }
      SkipJunk(k, all, n);
      SteadyDiscard(k, data);
    } else {
      SteadyNow(k, data, n);
      DecisionIsStable(k, data, more);
      SteadyNow(k, all, n);
      PumpUnfold(k, all, 0);
    }
  }

  lemma SteadyNow(k: Kind, data: seq<byte>, n: nat)
    requires k.Valid() && Steady(k, data) && 0 < n <= |data|
    requires var d := Decide(k, data, 0, |data|); d == Discard(n) || d == Take(n)
    ensures Steady(k, data[n..])
    ensures k.Ascii? && FindSync(k, data) == 0 ==> FrameEnd(k, data, 0).status != Invalid
  {
    hide FindSync, FrameEnd, Validate;
  }

  /** A run resumed at the index of an earlier incomplete search is a run from scratch. */
  lemma PumpResumed(k: Kind, data: seq<byte>, resume: nat)
    requires k.Valid() && Resumable(k, data, resume) && Steady(k, data)
    requires resume != 0 ==> k.Binary? || FrameEnd(k, data, 0).status != Invalid
    ensures resume != 0 ==> Pump(k, data, resume) == Pump(k, data, 0)
  {
    hide NextStar, Delimiter, FindSync, Validate, FixedBuffers.LittleEndianValue, SyncAt, Clean, Steady, JunkItems;
    if resume != 0 {
      SyncStays(k, data, []);
      if k.Ascii? {
        ResumeIsScratch(k, data, 0, resume);
      } else {
        SyncIsLong(k, data);
      }
      assert Decide(k, data, resume, |data|) == Decide(k, data, 0, |data|);
    }
  }

  lemma SyncIsLong(k: Kind, data: seq<byte>)
    requires k.Valid() && SyncAt(k, data, 0)
    ensures |k.Sync()| <= |data|
  {
  }

  lemma SteadyIsNotInvalid(k: Kind, data: seq<byte>)
    requires k.Valid() && Steady(k, data) && data != [] && FindSync(k, data) == 0
    ensures k.Binary? || FrameEnd(k, data, 0).status != Invalid
  {
    hide FindSync, FrameEnd, Validate;
    DecisionBounds(k, data, 0, |data|);
  }

  lemma ResumableExtends(k: Kind, data: seq<byte>, more: seq<byte>, resume: nat)
    requires k.Valid() && Resumable(k, data, resume)
    ensures Resumable(k, data + more, resume)
  {
    hide SyncAt, Clean;
    if resume != 0 {
      SyncStays(k, data, more);
      if k.Ascii? {
        CleanExtends(data, more, 0, resume);
      }
    }
  }

  function Concat(chunks: seq<seq<byte>>): seq<byte> {
    if chunks == [] then [] else chunks[0] + Concat(chunks[1..])
  }

  /** A run in which each chunk is written and then GetFrame is called until it needs more. */
  function RunChunks(k: Kind, chunks: seq<seq<byte>>, rest: seq<byte>, resume: nat): (p: Pumped)
    requires k.Valid() && Resumable(k, rest, resume)
    decreases |chunks|
  {
    if chunks == [] then Pumped([], rest, resume)
    else
      ResumableExtends(k, rest, chunks[0], resume);
      var p := Pump(k, rest + chunks[0], resume);
      RunChunks(k, chunks[1..], p.rest, p.resume).After(p.items)
  }

  /** Searching from scratch after any number of chunks never gives an INVALID verdict. */
  ghost predicate SteadyChunks(k: Kind, base: seq<byte>, chunks: seq<seq<byte>>)
    requires k.Valid()
    decreases |chunks|
  {
    Steady(k, base) && (chunks != [] ==> SteadyChunks(k, base + chunks[0], chunks[1..]))
  }

  lemma {:induction false} ChunksFrom(k: Kind, base: seq<byte>, chunks: seq<seq<byte>>)
    requires k.Valid() && SteadyChunks(k, base, chunks)
    ensures var p := Pump(k, base, 0);
            RunChunks(k, chunks, p.rest, p.resume).After(p.items) == Pump(k, base + Concat(chunks), 0)
    decreases |chunks|
  {
    hide Pump, Steady, Resumable;
    NotResumed(k, base);
    var p := Pump(k, base, 0);
    if chunks == [] {
      assert base + [] == base && p.items + [] == p.items;
    } else {
      var c := chunks[0];
      SteadyHead(k, base + c, chunks[1..]);
      PumpAppend(k, base, c);
      ResumableExtends(k, p.rest, c, p.resume);
      ResumeChunk(k, p.rest + c, p.resume);
      ChunksFrom(k, base + c, chunks[1..]);
      assert (base + c) + Concat(chunks[1..]) == base + Concat(chunks);
      var q := Pump(k, p.rest + c, p.resume);
      AfterAfter(RunChunks(k, chunks[1..], q.rest, q.resume), p.items, q.items);
    }
  }

  lemma SteadyHead(k: Kind, base: seq<byte>, chunks: seq<seq<byte>>)
    requires k.Valid() && SteadyChunks(k, base, chunks)
    ensures Steady(k, base)
  {
  }

  lemma ResumeChunk(k: Kind, data: seq<byte>, resume: nat)
    requires k.Valid() && Resumable(k, data, resume) && Steady(k, data)
    ensures Pump(k, data, resume) == Pump(k, data, 0)
  {
    hide Pump, Steady, FindSync, FrameEnd, Clean;
    if resume != 0 {
      SyncStays(k, data, []);
      SteadyIsNotInvalid(k, data);
      PumpResumed(k, data, resume);
    }
  }

  lemma NothingToDecide(k: Kind)
    requires k.Valid()
    ensures Decide(k, [], 0, 0) == Empty
  {
  }

  /** Chunk independence: frames, unknown bytes and leftover are the same however the stream is
      cut, provided no search from scratch is INVALID. */
  lemma ChunkIndependence(k: Kind, chunks: seq<seq<byte>>)
    requires k.Valid() && SteadyChunks(k, [], chunks)
    ensures RunChunks(k, chunks, [], 0) == Pump(k, Concat(chunks), 0)
  {
    hide RunChunks, Pump, SteadyChunks, Decide;
    ChunksFrom(k, [], chunks);
    NothingToDecide(k);
    PumpUnfold(k, [], 0);
    AfterNothing(RunChunks(k, chunks, [], 0));
    assert [] + Concat(chunks) == Concat(chunks);
  }

  /** For the binary framers the proviso is empty. */
  lemma {:induction false} BinaryIsSteady(k: Kind, base: seq<byte>, chunks: seq<seq<byte>>)
    requires k.Valid() && k.Binary?
    ensures SteadyChunks(k, base, chunks)
    decreases |chunks|
  {
    if chunks != [] {
      BinaryIsSteady(k, base + chunks[0], chunks[1..]);
    }
  }

  lemma BinaryChunkIndependence(k: Kind, chunks: seq<seq<byte>>)
    requires k.Valid() && k.Binary?
    ensures RunChunks(k, chunks, [], 0) == Pump(k, Concat(chunks), 0)
  {
    BinaryIsSteady(k, [], chunks);
    ChunkIndependence(k, chunks);
  }

  // ---------------------------------------------------------------- no sync is skipped

  datatype Event = Arrive(chunk: seq<byte>) | DiscardUnknown

  /** The buffer, and the number of bytes discarded so far, after writes of chunks interleaved
      with HandleUnknownBytes(FindSync()). */
  function Scan(k: Kind, events: seq<Event>): (r: (seq<byte>, nat))
    requires k.Valid()
    decreases |events|
  {
    if events == [] then ([], 0)
    else
      var (data, gone) := Scan(k, events[..|events| - 1]);
      match events[|events| - 1]
      case Arrive(chunk) => (data + chunk, gone)
      case DiscardUnknown => (data[FindSync(k, data)..], gone + FindSync(k, data))
  }

  /** Everything that has arrived. */
  function Arrived(events: seq<Event>): seq<byte>
    decreases |events|
  {
    if events == [] then []
    else
      Arrived(events[..|events| - 1]) +
      (if events[|events| - 1].Arrive? then events[|events| - 1].chunk else [])
  }

  lemma {:induction false} ScanKeepsSuffix(k: Kind, events: seq<Event>)
    requires k.Valid()
    ensures var (data, gone) := Scan(k, events); gone <= |Arrived(events)| && data == Arrived(events)[gone..]
    decreases |events|
  {
    hide FindSync;
    if events != [] {
      ScanKeepsSuffix(k, events[..|events| - 1]);
    }
  }

  lemma SyncShift(k: Kind, head: seq<byte>, tail: seq<byte>, p: nat)
    requires k.Valid() && |head| <= p && SyncAt(k, head + tail, p)
    ensures SyncAt(k, tail, p - |head|)
  {
    var n := |k.Sync()|;
    assert (head + tail)[p..p + n] == tail[p - |head|..p - |head| + n];
  }

  /** No sync of the stream, nor one that any later bytes complete, starts in a discarded byte. */
  lemma {:induction false} NoSyncIsSkipped(k: Kind, events: seq<Event>, more: seq<byte>, p: nat)
    requires k.Valid() && p < Scan(k, events).1
    ensures !SyncAt(k, Arrived(events) + more, p)
    decreases |events|
  {
    hide FindSync, SyncAt;
    var before, last := events[..|events| - 1], events[|events| - 1];
    var (data, gone) := Scan(k, before);
    ScanKeepsSuffix(k, before);
    var stream := Arrived(before);
    match last
    case Arrive(chunk) =>
      NoSyncIsSkipped(k, before, chunk + more, p);
      assert stream + (chunk + more) == (stream + chunk) + more;
    case DiscardUnknown =>
      assert Arrived(events) == stream;
      if p < gone {
        NoSyncIsSkipped(k, before, more, p);
      } else {
        assert stream + more == stream[..gone] + (data + more);
        if SyncAt(k, stream + more, p) {
          SyncShift(k, stream[..gone], data + more, p);
          DiscardsHoldNoSync(k, data, more, p - gone);
        }
      }
  }

  /** The scan terminates: with as many bytes as a sync has, a discard either removes at least
      one byte or finds the buffer at a true sync. */
  lemma ScanProgresses(k: Kind, events: seq<Event>)
    requires k.Valid() && |k.Sync()| <= |Scan(k, events).0|
    ensures var (data, gone) := Scan(k, events);
            Scan(k, events + [DiscardUnknown]).1 > gone || SyncAt(k, data, 0)
  {
    hide FindSync, SyncAt;
    var all := events + [DiscardUnknown];
    assert all[..|all| - 1] == events;
    if FindSync(k, Scan(k, events).0) == 0 {
      ZeroIsSync(k, Scan(k, events).0);
    }
  }
}
