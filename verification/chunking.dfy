/** Exactly when what an ASCII framer hands out of a stream depends on how the stream is cut up. */
module Chunking {
  import opened BitLists
  import Hex
  import opened Framing
  import opened Arrival
  import opened Streaming
  import opened Candidates

  /** What is left of the bytes that are sure to have arrived. */
  function Left(n: nat, gone: nat): nat {
    if gone <= n then n - gone else 0
  }

  function AtLeastOne(n: nat): nat {
    if n == 0 then 1 else n
  }

  /** Every candidate that a run looks at is calm.  At least b bytes of the stream have arrived when
      its first byte comes to be looked at. */
  ghost predicate Robust(k: Kind, stream: seq<byte>, b: nat)
    requires k.Ascii? && k.Valid()
    decreases |stream|
  {
    stream == [] ||
    if stream[0] != k.syncByte then Robust(k, stream[1..], Left(b, 1))
    else
      var least := AtLeastOne(b);
      var c := Conclusion(k, stream, AsciiFrameEnd(k, stream, 0));
      var n := if c.Discard? then c.count else if c.Take? then c.length else 0;
      Calm(k, stream, least) &&
      (0 < n <= |stream| ==> Robust(k, stream[n..], Left(Earliest(k, stream, least), n)))
  }

  // ---------------------------------------------------------------- robust streams

  /** One more search after searches that were all INCOMPLETE. */
  lemma {:induction false} RunExtends(k: Kind, stream: seq<byte>, cuts: seq<nat>, c: nat, start: nat)
    requires k.Ascii? && AreCuts(stream, cuts) && c <= |stream| && AreCuts(stream, cuts + [c])
    requires ResumeRun(k, stream, cuts, start).0.status == Incomplete
    ensures ResumeRun(k, stream, cuts + [c], start)
         == (AsciiFrameEnd(k, stream[..c], ResumeRun(k, stream, cuts, start).0.index), c)
    decreases |cuts|
  {
    hide AsciiFrameEnd;
    var v, all := AsciiFrameEnd(k, stream[..cuts[0]], start), cuts + [c];
    assert all[1..] == cuts[1..] + [c];
    if |cuts| > 1 {
      assert forall i | 0 <= i < |all[1..]| :: all[1..][i] == all[i + 1];
      RunExtends(k, stream, cuts[1..], c, v.index);
    }
  }

  /** The searches so far of the candidate at the start of the buffer, resumed at these cuts. */
  ghost predicate Searched(k: Kind, data: seq<byte>, more: seq<byte>, cuts: seq<nat>, resume: nat, least: nat)
    requires k.Ascii?
  {
    if cuts == [] then resume == 0
    else
      && data != [] && data[0] == k.syncByte
      && AreCuts(data + more, cuts) && least <= cuts[0] && cuts[|cuts| - 1] <= |data|
      && ResumeRun(k, data + more, cuts, 0).0.status == Incomplete
      && ResumeRun(k, data + more, cuts, 0).0.index == resume
  }

  /** The buffer and the rest of a robust stream. */
  ghost predicate State(k: Kind, data: seq<byte>, more: seq<byte>, cuts: seq<nat>, resume: nat, b: nat)
    requires k.Ascii? && k.Valid()
  {
    b <= |data| && Robust(k, data + more, b) && Searched(k, data, more, cuts, resume, AtLeastOne(b))
  }

  lemma StateGrows(k: Kind, rest: seq<byte>, chunk: seq<byte>, more: seq<byte>, cuts: seq<nat>, resume: nat, b: nat)
    requires k.Ascii? && k.Valid() && State(k, rest, chunk + more, cuts, resume, b)
    ensures State(k, rest + chunk, more, cuts, resume, b)
  {
    hide Robust, ResumeRun;
    assert rest + (chunk + more) == (rest + chunk) + more;
  }

  /** One more search of a candidate: what GetFrame decides is what it decides about the whole
      stream, unless it waits and there is more to come. */
  lemma SearchOn(k: Kind, data: seq<byte>, more: seq<byte>, cuts: seq<nat>, resume: nat, b: nat) returns (longer: seq<nat>)
    requires k.Ascii? && k.Valid() && Resumable(k, data, resume) && b <= |data|
    requires Calm(k, data + more, AtLeastOne(b)) && Searched(k, data, more, cuts, resume, AtLeastOne(b))
    requires data != [] && data[0] == k.syncByte
    ensures var d := Decide(k, data, resume, |data|);
            && (d.Wait? ==> Searched(k, data, more, longer, d.resume, AtLeastOne(b)) && longer != [])
            && (!d.Wait? || more == [] ==> d == Decide(k, data + more, 0, |data + more|))
            && (!d.Wait? ==> Earliest(k, data + more, AtLeastOne(b)) <= |data|)
  {
    hide AsciiFrameEnd, ResumeRun, Decide, Calm, Conclusion;
    var all, c := data + more, |data|;
    assert all[..c] == data && (more == [] ==> all == data);
    longer := cuts + [c];
    if cuts == [] {
      assert longer == [c];
      OneCut(k, all, c);
    } else {
      CutsExtend(all, cuts, c);
      RunExtends(k, all, cuts, c, 0);
    }
    CalmRun(k, all, AtLeastOne(b), longer);
    StopsWithScratch(k, all, longer);
    ConclusionIsDecision(k, data, resume);
    NotResumed(k, all);
    ConclusionIsDecision(k, all, 0);
    WaitsWhenIncomplete(k, data, AsciiFrameEnd(k, data, resume));
    if AsciiFrameEnd(k, data, resume).status != Incomplete {
      EarliestIsLeast(k, all, AtLeastOne(b), c);
    }
  }

  lemma CutsExtend(stream: seq<byte>, cuts: seq<nat>, c: nat)
    requires AreCuts(stream, cuts) && cuts[|cuts| - 1] <= c <= |stream|
    ensures AreCuts(stream, cuts + [c])
  {
    assert forall i | 0 <= i < |cuts| :: (cuts + [c])[i] == cuts[i] <= cuts[|cuts| - 1];
  }

  /** A search from scratch is always possible. */
  lemma NeverResumed(k: Kind)
    requires k.Valid()
    ensures forall data: seq<byte> :: Resumable(k, data, 0)
  {
  }

  lemma OneCut(k: Kind, stream: seq<byte>, c: nat)
    requires k.Ascii? && c <= |stream|
    ensures ResumeRun(k, stream, [c], 0) == (AsciiFrameEnd(k, stream[..c], 0), c)
  {
  }

  lemma RobustIsCalm(k: Kind, stream: seq<byte>, b: nat)
    requires k.Ascii? && k.Valid() && Robust(k, stream, b) && stream != [] && stream[0] == k.syncByte
    ensures Calm(k, stream, AtLeastOne(b))
    ensures var d := Conclusion(k, stream, AsciiFrameEnd(k, stream, 0));
            var n := if d.Discard? then d.count else if d.Take? then d.length else 0;
            0 < n <= |stream| ==> Robust(k, stream[n..], Left(Earliest(k, stream, AtLeastOne(b)), n))
  {
    hide Calm, Conclusion, AsciiFrameEnd;
  }

  lemma {:induction false} RobustSkips(k: Kind, stream: seq<byte>, b: nat, n: nat)
    requires k.Ascii? && k.Valid() && Robust(k, stream, b) && n <= |stream|
    requires forall p | 0 <= p < n :: stream[p] != k.syncByte
    ensures Robust(k, stream[n..], Left(b, n))
    decreases n
  {
    hide Calm, Conclusion, AsciiFrameEnd;
    if n == 0 {
      assert stream[0..] == stream;
    } else {
      RobustSkips(k, stream[1..], Left(b, 1), n - 1);
      assert stream[1..][n - 1..] == stream[n..];
    }
  }

  /** GetFrame on the buffer hands out what it would of the whole stream, and leaves the rest in
      such a state. */
  lemma {:induction false} PumpRobust(k: Kind, data: seq<byte>, more: seq<byte>, cuts: seq<nat>, resume: nat, b: nat)
    returns (cuts': seq<nat>, b': nat)
    requires k.Ascii? && k.Valid() && State(k, data, more, cuts, resume, b) && Resumable(k, data, resume)
    ensures var p := Pump(k, data, resume);
            && Pump(k, data + more, 0) == Pump(k, p.rest + more, 0).After(p.items)
            && State(k, p.rest, more, cuts', p.resume, b')
            && (more == [] ==> p == Pump(k, data + more, 0))
    decreases |data|
  {
    hide State, Searched, Pump, JunkItems, Decide, Resumable, FindSync, MaybeSync;
    NeverResumed(k);
    PumpUnfold(k, data, resume);
    cuts', b' := cuts, b;
    if data == [] {
      EmptyState(k, more, cuts, resume, b);
      NothingToDecide(k);
      AfterNothing(Pump(k, [] + more, 0));
    } else if data[0] == k.syncByte {
      SyncAtFront(k, data, more, cuts, resume, b);
      StateIsCalm(k, data, more, cuts, resume, b);
      var longer := SearchOn(k, data, more, cuts, resume, b);
      var d := Decide(k, data, resume, |data|);
      if d.Wait? {
        StateWaits(k, data, more, cuts, resume, b, longer, d.resume);
        cuts' := longer;
        AfterNothing(Pump(k, data + more, 0));
        if more == [] {
          NotResumed(k, data + more);
          PumpUnfold(k, data + more, 0);
          assert data + more == data;
        }
      } else {
        var n := if d.Discard? then d.count else d.length;
        var first := if d.Discard? then JunkItems(data[..n]) else [Frame(data[..n])];
        StateAfter(k, data, more, cuts, resume, b);
        StepBoth(k, data, more, resume);
        cuts', b' := PumpRobust(k, data[n..], more, [], 0, Left(Earliest(k, data + more, AtLeastOne(b)), n));
        JoinSteps(k, data, more, resume, n, first);
      }
    } else {
      SyncAtFront(k, data, more, cuts, resume, b);
      FirstIsSync(k, data);
      var n := FindSync(k, data);
      JunkBoth(k, data, more, b);
      cuts', b' := PumpRobust(k, data[n..], more, [], 0, Left(b, n));
      JoinSteps(k, data, more, resume, n, JunkItems(data[..n]));
    }
  }

  /** The state after what GetFrame has handed out a candidate. */
  lemma StateAfter(k: Kind, data: seq<byte>, more: seq<byte>, cuts: seq<nat>, resume: nat, b: nat)
    requires k.Ascii? && k.Valid() && State(k, data, more, cuts, resume, b) && Resumable(k, data, resume)
    requires data != [] && data[0] == k.syncByte
    requires Decide(k, data, resume, |data|) == Decide(k, data + more, 0, |data + more|)
    requires Earliest(k, data + more, AtLeastOne(b)) <= |data|
    ensures var d := Decide(k, data, resume, |data|);
            var n := if d.Discard? then d.count else if d.Take? then d.length else 0;
            0 < n <= |data| ==> State(k, data[n..], more, [], 0, Left(Earliest(k, data + more, AtLeastOne(b)), n))
  {
    hide Calm, Conclusion, AsciiFrameEnd, Robust, Decide, Earliest;
    var all := data + more;
    RobustIsCalm(k, all, b);
    NotResumed(k, all);
    ConclusionIsDecision(k, all, 0);
    var d := Decide(k, data, resume, |data|);
    var n := if d.Discard? then d.count else if d.Take? then d.length else 0;
    if 0 < n <= |data| {
      assert all[n..] == data[n..] + more;
    }
  }

  /** The run over the whole stream takes the same step. */
  lemma StepBoth(k: Kind, data: seq<byte>, more: seq<byte>, resume: nat)
    requires k.Ascii? && k.Valid() && Resumable(k, data, resume)
    requires Decide(k, data, resume, |data|) == Decide(k, data + more, 0, |data + more|)
    ensures var d := Decide(k, data, resume, |data|);
            var n := if d.Discard? then d.count else if d.Take? then d.length else 0;
            d.Discard? || d.Take? ==>
              && 0 < n <= |data| && data[n..] + more == (data + more)[n..]
              && Pump(k, data + more, 0)
                 == Pump(k, data[n..] + more, 0).After(if d.Discard? then JunkItems(data[..n]) else [Frame(data[..n])])
  {
    hide Decide, Pump, JunkItems, Resumable;
    NotResumed(k, data + more);
    PumpUnfold(k, data, resume);
    PumpUnfold(k, data + more, 0);
    var d := Decide(k, data, resume, |data|);
    if d.Discard? || d.Take? {
      var n := if d.Discard? then d.count else d.length;
      assert (data + more)[n..] == data[n..] + more && (data + more)[..n] == data[..n];
    }
  }

  /** The same for bytes before a sync. */
  lemma JunkBoth(k: Kind, data: seq<byte>, more: seq<byte>, b: nat)
    requires k.Ascii? && k.Valid() && State(k, data, more, [], 0, b) && data != [] && FindSync(k, data) != 0
    ensures var n := FindSync(k, data);
            && Decide(k, data, 0, |data|) == Discard(n) && State(k, data[n..], more, [], 0, Left(b, n))
            && Pump(k, data + more, 0) == Pump(k, data[n..] + more, 0).After(JunkItems(data[..n]))
  {
    hide Pump, JunkItems, Robust, FindSync, MaybeSync, Steady;
    var n, all := FindSync(k, data), data + more;
    FindSyncMeaning(k, data);
    forall p | 0 <= p < n
      ensures all[p] != k.syncByte && !MaybeSync(k, all, p)
    {
      ByteIsSync(k, data, p);
      ByteIsSync(k, all, p);
    }
    RobustSkips(k, all, b, n);
    SkipJunk(k, all, n);
    assert all[n..] == data[n..] + more && all[..n] == data[..n];
  }

  lemma JoinSteps(k: Kind, data: seq<byte>, more: seq<byte>, resume: nat, n: nat, first: seq<Item>)
    requires k.Valid() && Resumable(k, data, resume) && n <= |data|
    requires Pump(k, data, resume) == Pump(k, data[n..], 0).After(first)
    requires Pump(k, data + more, 0) == Pump(k, data[n..] + more, 0).After(first)
    ensures var p := Pump(k, data[n..], 0);
            Pump(k, data[n..] + more, 0) == Pump(k, p.rest + more, 0).After(p.items) ==>
              var q := Pump(k, data, resume); Pump(k, data + more, 0) == Pump(k, q.rest + more, 0).After(q.items)
  {
    hide Pump, Resumable;
    NeverResumed(k);
    var p := Pump(k, data[n..], 0);
    AfterAfter(Pump(k, p.rest + more, 0), first, p.items);
  }

  lemma EmptyState(k: Kind, more: seq<byte>, cuts: seq<nat>, resume: nat, b: nat)
    requires k.Ascii? && k.Valid() && State(k, [], more, cuts, resume, b)
    ensures resume == 0 && cuts == [] && b == 0
  {
    hide Robust, ResumeRun;
  }

  lemma SyncAtFront(k: Kind, data: seq<byte>, more: seq<byte>, cuts: seq<nat>, resume: nat, b: nat)
    requires k.Ascii? && k.Valid() && State(k, data, more, cuts, resume, b) && data != []
    ensures data[0] != k.syncByte ==> resume == 0 && cuts == []
  {
    hide Robust, ResumeRun;
  }

  lemma StateIsCalm(k: Kind, data: seq<byte>, more: seq<byte>, cuts: seq<nat>, resume: nat, b: nat)
    requires k.Ascii? && k.Valid() && State(k, data, more, cuts, resume, b) && data != [] && data[0] == k.syncByte
    ensures b <= |data| && Calm(k, data + more, AtLeastOne(b)) && Searched(k, data, more, cuts, resume, AtLeastOne(b))
  {
    hide Robust, Searched, Calm;
    RobustIsCalm(k, data + more, b);
  }

  lemma StateWaits(k: Kind, data: seq<byte>, more: seq<byte>, cuts: seq<nat>, resume: nat, b: nat, longer: seq<nat>, i: nat)
    requires k.Ascii? && k.Valid() && State(k, data, more, cuts, resume, b)
    requires Searched(k, data, more, longer, i, AtLeastOne(b))
    ensures State(k, data, more, longer, i, b)
  {
    hide Robust, Searched;
  }

  lemma {:induction false} RunRobust(k: Kind, chunks: seq<seq<byte>>, rest: seq<byte>, resume: nat, cuts: seq<nat>, b: nat)
    requires k.Ascii? && k.Valid() && State(k, rest, Concat(chunks), cuts, resume, b) && Resumable(k, rest, resume)
    requires chunks == [] ==> Pump(k, rest, 0) == Pumped([], rest, resume)
    ensures RunChunks(k, chunks, rest, resume) == Pump(k, rest + Concat(chunks), 0)
    decreases |chunks|
  {
    hide State, Pump, Resumable;
    NeverResumed(k);
    if chunks == [] {
      assert rest + [] == rest;
    } else {
      var c, more := chunks[0], Concat(chunks[1..]);
      StateGrows(k, rest, c, more, cuts, resume, b);
      ResumableExtends(k, rest, c, resume);
      assert rest + Concat(chunks) == (rest + c) + more;
      var cuts', b' := PumpRobust(k, rest + c, more, cuts, resume, b);
      var p := Pump(k, rest + c, resume);
      if more == [] {
        assert p.rest + more == p.rest;
      }
      RunRobust(k, chunks[1..], p.rest, p.resume, cuts', b');
    }
  }

  /** A robust stream gives the same frames, unknown bytes and leftover however it is cut. */
  lemma RobustIsIndependent(k: Kind, chunks: seq<seq<byte>>)
    requires k.Ascii? && k.Valid() && Robust(k, Concat(chunks), 0)
    ensures RunChunks(k, chunks, [], 0) == Pump(k, Concat(chunks), 0)
  {
    hide Robust, Pump, ResumeRun;
    NothingToDecide(k);
    PumpUnfold(k, [], 0);
    assert [] + Concat(chunks) == Concat(chunks);
    RunRobust(k, chunks, [], 0, [], 0);
  }

  // ---------------------------------------------------------------- streams that are not robust

  /** While a candidate is incomplete, nothing comes out. */
  lemma Waits(k: Kind, data: seq<byte>, resume: nat)
    requires k.Ascii? && k.Valid() && Resumable(k, data, resume) && data != [] && data[0] == k.syncByte
    requires AsciiFrameEnd(k, data, resume).status == Incomplete
    ensures Pump(k, data, resume) == Pumped([], data, AsciiFrameEnd(k, data, resume).index)
  {
    hide Pump, Decide, AsciiFrameEnd, Resumable;
    ConclusionIsDecision(k, data, resume);
    PumpUnfold(k, data, resume);
  }

  /** What comes first out of a run that begins with a candidate. */
  lemma FirstOut(k: Kind, data: seq<byte>, resume: nat)
    requires k.Ascii? && k.Valid() && Resumable(k, data, resume) && data != [] && data[0] == k.syncByte
    ensures var c, items := Conclusion(k, data, AsciiFrameEnd(k, data, resume)), Pump(k, data, resume).items;
            && (c.Discard? ==> items != [] && items[0].Junk?)
            && (c.Wait? ==> items == [])
            && (c.Take? ==> items != [] && items[0].Frame?)
  {
    hide Pump, Decide, AsciiFrameEnd, Resumable, Conclusion;
    ConclusionIsDecision(k, data, resume);
    PumpUnfold(k, data, resume);
    OnlyThree(k, data, AsciiFrameEnd(k, data, resume));
  }

  /** The stream arrives up to b, then up to c, then the rest. */
  function ThreeChunks(stream: seq<byte>, b: nat, c: nat): seq<seq<byte>>
    requires b <= c <= |stream|
  {
    [stream[..b], stream[b..c], stream[c..]]
  }

  lemma ThreeAreWhole(stream: seq<byte>, b: nat, c: nat)
    requires b <= c <= |stream|
    ensures Concat(ThreeChunks(stream, b, c)) == stream
  {
    var chunks := ThreeChunks(stream, b, c);
    assert chunks[1..][1..] == [stream[c..]];
    assert Concat(chunks[1..][1..]) == stream[c..];
    assert Concat(chunks[1..]) == stream[b..c] + stream[c..];
  }

  /** The first items of a run are those of its first chunk. */
  lemma RunFirst(k: Kind, chunks: seq<seq<byte>>, rest: seq<byte>, resume: nat)
    requires k.Valid() && Resumable(k, rest, resume) && chunks != []
    ensures Resumable(k, rest + chunks[0], resume)
    ensures var p := Pump(k, rest + chunks[0], resume);
            && RunChunks(k, chunks, rest, resume) == RunChunks(k, chunks[1..], p.rest, p.resume).After(p.items)
  {
    hide Pump, Resumable;
    ResumableExtends(k, rest, chunks[0], resume);
  }

  /** While the candidate is incomplete, a chunk changes nothing but the resume index. */
  lemma RunWaits(k: Kind, chunks: seq<seq<byte>>, rest: seq<byte>, resume: nat)
    requires k.Ascii? && k.Valid() && Resumable(k, rest, resume) && chunks != []
    requires var data := rest + chunks[0]; data != [] && data[0] == k.syncByte && AsciiFrameEnd(k, data, resume).status == Incomplete
    ensures var data := rest + chunks[0]; var i := AsciiFrameEnd(k, data, resume).index;
            && Resumable(k, data, i)
            && RunChunks(k, chunks, rest, resume) == RunChunks(k, chunks[1..], data, i)
  {
    hide Pump, Resumable, RunChunks, AsciiFrameEnd;
    RunFirst(k, chunks, rest, resume);
    Waits(k, rest + chunks[0], resume);
    var p := Pump(k, rest + chunks[0], resume);
    AfterNothing(RunChunks(k, chunks[1..], p.rest, p.resume));
  }

  lemma RunFirstOut(k: Kind, chunks: seq<seq<byte>>, rest: seq<byte>, resume: nat)
    requires k.Ascii? && k.Valid() && Resumable(k, rest, resume) && chunks != []
    requires var data := rest + chunks[0]; data != [] && data[0] == k.syncByte
    requires AsciiFrameEnd(k, rest + chunks[0], resume).status == Invalid
    ensures var items := RunChunks(k, chunks, rest, resume).items; items != [] && items[0].Junk?
  {
    hide Pump, Resumable, RunChunks, AsciiFrameEnd;
    RunFirst(k, chunks, rest, resume);
    FirstOut(k, rest + chunks[0], resume);
  }

  /** A late '*' that is behind the first b bytes, of a candidate that is kept when it arrives at
      once: a cut before the '*' makes a difference. */
  lemma LateStarMatters(k: Kind, stream: seq<byte>, b: nat, a: nat, d: nat)
    requires k.Ascii? && k.Valid() && stream != [] && stream[0] == k.syncByte
    requires 0 < b <= d && LateStar(k, stream, a, d) && !Discards(k, stream, 0)
    ensures d < |stream| && RunChunks(k, ThreeChunks(stream, b, d), [], 0) != Pump(k, stream, 0)
  {
    hide Pump, RunChunks, AsciiFrameEnd, Conclusion, Gap;
    NeverResumed(k);
    LateStarEnd(k, stream, a, d);
    var chunks := ThreeChunks(stream, b, d);
    LateStarShows(k, stream, a, d);
    FirstOut(k, stream, 0);
    OnlyThree(k, stream, AsciiFrameEnd(k, stream, 0));
    assert [] + chunks[0] == stream[..b] && stream[..b] + stream[b..d] == stream[..d];
    var v := AsciiFrameEnd(k, stream[..b], 0);
    NoResponse(k, stream[..b], 0);
    if v.status == Complete {
      CompleteIsStable(k, stream[..b], stream[b..d], 0);
    } else if v.status == Invalid {
      RunFirstOut(k, chunks, [], 0);
    } else {
      LateAfterWait(k, stream, b, d);
      RunWaits(k, chunks, [], 0);
      assert chunks[1..][0] == stream[b..d];
      RunFirstOut(k, chunks[1..], stream[..b], v.index);
    }
  }

  lemma LateAfterWait(k: Kind, stream: seq<byte>, b: nat, d: nat)
    requires k.Ascii? && k.Valid() && b <= d <= |stream| && !Discards(k, stream, 0)
    requires AsciiFrameEnd(k, stream[..b], 0).status == Incomplete && AsciiFrameEnd(k, stream[..d], 0).status == Invalid
    ensures AsciiFrameEnd(k, stream[..d], AsciiFrameEnd(k, stream[..b], 0).index).status == Invalid
  {
    hide AsciiFrameEnd, Gap;
    if a: nat, e: nat :| Gap(k, stream, a, e) {
      GapIsDiscarded(k, stream, a, e);
    } else {
      NoGapRun(k, stream, [b, d], 0);
      TwoCuts(k, stream, b, d);
    }
  }

  /** A gap whose far '*' is not thrown away, when less than a maximum length has arrived: a cut one
      byte below it makes a difference. */
  lemma GapMatters(k: Kind, stream: seq<byte>, b: nat, a: nat, d: nat)
    requires k.Ascii? && k.Valid() && stream != [] && stream[0] == k.syncByte
    requires 0 < b < k.maxLength && Gap(k, stream, a, d) && !Discards(k, stream, d)
    ensures k.maxLength <= |stream|
    ensures RunChunks(k, ThreeChunks(stream, b, k.maxLength - 1), [], 0) != Pump(k, stream, 0)
  {
    hide Pump, RunChunks, AsciiFrameEnd, Conclusion, Gap, Resumable;
    NeverResumed(k);
    GapBounds(k, stream, a, d);
    var m, i := k.maxLength - 1, AsciiFrameEnd(k, stream[..b], 0).index;
    var chunks := ThreeChunks(stream, b, m);
    GapWaits(k, stream, a, d, b);
    GapInside(k, stream, a, d, b);
    FromInside(k, stream, a, d);
    GapIsDiscarded(k, stream, a, d);
    FirstOut(k, stream, 0);
    assert [] + chunks[0] == stream[..b] && stream[..b] + chunks[1] == stream[..m] && stream[..m] + chunks[2] == stream;
    RunWaits(k, chunks, [], 0);
    RunWaits(k, chunks[1..], stream[..b], i);
    assert chunks[1..][1..] == [chunks[2]];
    RunLast(k, chunks[2], stream[..m], m);
    FirstOut(k, stream, m);
    OnlyThree(k, stream, AsciiFrameEnd(k, stream, d));
  }

  lemma RunLast(k: Kind, chunk: seq<byte>, rest: seq<byte>, resume: nat)
    requires k.Valid() && Resumable(k, rest, resume)
    ensures Resumable(k, rest + chunk, resume)
    ensures RunChunks(k, [chunk], rest, resume).items == Pump(k, rest + chunk, resume).items
  {
    hide Pump, Resumable;
    RunFirst(k, [chunk], rest, resume);
  }

  // ---------------------------------------------------------------- what goes before

  /** The chunks that bring b bytes, then t, and then those that follow. */
  function Arriving(stream: seq<byte>, b: nat, t: nat, others: seq<seq<byte>>): seq<seq<byte>>
    requires b <= t <= |stream|
  {
    if b == t then [stream[..t]] + others else [stream[..b], stream[b..t]] + others
  }

  lemma ArrivingIsWhole(stream: seq<byte>, b: nat, t: nat, others: seq<seq<byte>>)
    requires b <= t <= |stream| && Concat(others) == stream[t..]
    ensures var chunks := Arriving(stream, b, t, others);
            Concat(chunks) == stream && chunks != [] && chunks[0] == stream[..b]
  {
    var chunks := Arriving(stream, b, t, others);
    if b == t {
      assert chunks[1..] == others;
    } else {
      assert chunks[1..] == [stream[b..t]] + others && chunks[1..][1..] == others;
      assert stream[..b] + (stream[b..t] + stream[t..]) == stream;
    }
  }

  /** With the least number of bytes with which it ends, GetFrame decides about a calm candidate as
      it does when it arrives at once. */
  lemma ArrivesAtEarliest(k: Kind, stream: seq<byte>, b: nat, others: seq<seq<byte>>) returns (resume: nat)
    requires k.Ascii? && k.Valid() && 0 < b <= |stream| && stream[0] == k.syncByte && Calm(k, stream, b)
    requires AsciiFrameEnd(k, stream, 0).status != Incomplete
    ensures var t := Earliest(k, stream, b);
            && b <= t <= |stream| && Resumable(k, stream[..t], resume) && Resumable(k, stream, 0)
            && Decide(k, stream[..t], resume, t) == Decide(k, stream, 0, |stream|)
            && var p := Pump(k, stream[..t], resume);
               RunChunks(k, Arriving(stream, b, t, others), [], 0) == RunChunks(k, others, p.rest, p.resume).After(p.items)
  {
    hide Pump, RunChunks, AsciiFrameEnd, Conclusion, Decide, Resumable, Calm, Searched;
    NeverResumed(k);
    assert stream[..|stream|] == stream;
    EarliestIsLeast(k, stream, b, |stream|);
    var t := Earliest(k, stream, b);
    var data, more := stream[..t], stream[t..];
    assert data + more == stream;
    var chunks := Arriving(stream, b, t, others);
    var cuts: seq<nat> := [];
    resume := 0;
    if b == t {
      NotSearched(k, data, more, b);
      assert [] + chunks[0] == data && chunks[1..] == others;
      RunFirst(k, chunks, [], 0);
    } else {
      cuts, resume := [b], AsciiFrameEnd(k, stream[..b], 0).index;
      EndsAtEarliest(k, stream, b, t);
      assert AsciiFrameEnd(k, stream[..b], 0).status == Incomplete;
      assert [] + chunks[0] == stream[..b] && stream[..b] + chunks[1] == data && chunks[1..][1..] == others;
      RunWaits(k, chunks, [], 0);
      SearchedOnce(k, stream, b, t);
      RunFirst(k, chunks[1..], stream[..b], resume);
    }
    var longer := SearchOn(k, data, more, cuts, resume, b);
    ConclusionIsDecision(k, data, resume);
    WaitsWhenIncomplete(k, data, AsciiFrameEnd(k, data, resume));
  }

  /** A calm candidate that arrives so is handed out as it is at once; the rest of the run begins
      with what is left of the first t bytes. */
  lemma ArrivedAndGone(k: Kind, stream: seq<byte>, b: nat, others: seq<seq<byte>>) returns (n: nat, first: seq<Item>)
    requires k.Ascii? && k.Valid() && 0 < b <= |stream| && stream[0] == k.syncByte && Calm(k, stream, b)
    requires AsciiFrameEnd(k, stream, 0).status != Incomplete
    ensures var t, c := Earliest(k, stream, b), Conclusion(k, stream, AsciiFrameEnd(k, stream, 0));
            && n == (if c.Discard? then c.count else if c.Take? then c.length else 0)
            && 0 < n <= t <= |stream| && b <= t
            && Pump(k, stream, 0) == Pump(k, stream[n..], 0).After(first)
            && RunChunks(k, Arriving(stream, b, t, others), [], 0)
               == RunChunks(k, [stream[n..t]] + others, [], 0).After(first)
  {
    hide Pump, RunChunks, AsciiFrameEnd, Conclusion, Decide, Resumable, Calm, JunkItems, Arriving;
    NeverResumed(k);
    var resume := ArrivesAtEarliest(k, stream, b, others);
    var t := Earliest(k, stream, b);
    var data, more := stream[..t], stream[t..];
    assert data + more == stream;
    ConclusionIsDecision(k, stream, 0);
    OnlyThree(k, stream, AsciiFrameEnd(k, stream, 0));
    WaitsWhenIncomplete(k, stream, AsciiFrameEnd(k, stream, 0));
    StepBoth(k, data, more, resume);
    PumpUnfold(k, data, resume);
    var d := Decide(k, data, resume, |data|);
    n := if d.Discard? then d.count else d.length;
    first := if d.Discard? then JunkItems(data[..n]) else [Frame(data[..n])];
    assert data[n..] == stream[n..t] && data[n..] + more == stream[n..];
    var q, rest := Pump(k, data[n..], 0), [stream[n..t]] + others;
    assert [] + rest[0] == data[n..] && rest[1..] == others;
    RunFirst(k, rest, [], 0);
    AfterAfter(RunChunks(k, others, q.rest, q.resume), first, q.items);
  }

  lemma NotSearched(k: Kind, data: seq<byte>, more: seq<byte>, least: nat)
    requires k.Ascii?
    ensures Searched(k, data, more, [], 0, least)
  {
  }

  lemma SearchedOnce(k: Kind, stream: seq<byte>, b: nat, t: nat)
    requires k.Ascii? && k.Valid() && 0 < b <= t <= |stream| && stream[0] == k.syncByte
    requires AsciiFrameEnd(k, stream[..b], 0).status == Incomplete
    ensures Searched(k, stream[..t], stream[t..], [b], AsciiFrameEnd(k, stream[..b], 0).index, AtLeastOne(b))
  {
    hide AsciiFrameEnd, ResumeRun;
    assert stream[..t] + stream[t..] == stream;
    OneCut(k, stream, b);
  }

  // ---------------------------------------------------------------- the theorem

  lemma AfterIsInjective(p: Pumped, q: Pumped, first: seq<Item>)
    requires p.After(first) == q.After(first)
    ensures p == q
  {
    assert p.items == (first + p.items)[|first|..] && q.items == (first + q.items)[|first|..];
  }

  lemma RobustFromOne(k: Kind, stream: seq<byte>)
    requires k.Ascii? && k.Valid() && stream != []
    ensures Robust(k, stream, 0) == Robust(k, stream, 1)
  {
    hide Calm, Conclusion, AsciiFrameEnd;
  }

  /** A stream that is not robust is cut up in some way, with b bytes first, that makes a
      difference. */
  lemma {:induction false} CutThatMatters(k: Kind, stream: seq<byte>, b: nat) returns (chunks: seq<seq<byte>>)
    requires k.Ascii? && k.Valid() && b <= |stream| && !Robust(k, stream, b)
    ensures chunks != [] && |chunks[0]| == b && Concat(chunks) == stream
    ensures RunChunks(k, chunks, [], 0) != Pump(k, stream, 0)
    decreases |stream|, 1 - b
  {
    hide Pump, RunChunks, AsciiFrameEnd, Conclusion, Calm, Robust, Earliest;
    NotRobust(k, stream, b);
    if b == 0 {
      RobustFromOne(k, stream);
      var more := CutThatMatters(k, stream, 1);
      chunks := [[]] + more;
      assert chunks[1..] == more;
      NothingFirst(k, more);
    } else if stream[0] != k.syncByte {
      var more := CutThatMatters(k, stream[1..], b - 1);
      chunks := [[stream[0]] + more[0]] + more[1..];
      assert chunks[1..] == more[1..];
      assert Concat(chunks) == [stream[0]] + Concat(more);
      JunkFirst(k, stream, more);
    } else if Calm(k, stream, b) {
      WaitsWhenIncomplete(k, stream, AsciiFrameEnd(k, stream, 0));
      var n, _ := ArrivedAndGone(k, stream, b, []);
      var more := CutThatMatters(k, stream[n..], Earliest(k, stream, b) - n);
      chunks := CutBefore(k, stream, b, n, more);
    } else {
      chunks := CutThatShows(k, stream, b);
    }
  }

  /** A cut that matters behind a calm candidate. */
  lemma CutBefore(k: Kind, stream: seq<byte>, b: nat, n: nat, more: seq<seq<byte>>) returns (chunks: seq<seq<byte>>)
    requires k.Ascii? && k.Valid() && 0 < b <= |stream| && stream[0] == k.syncByte && Calm(k, stream, b)
    requires AsciiFrameEnd(k, stream, 0).status != Incomplete
    requires var t, c := Earliest(k, stream, b), Conclusion(k, stream, AsciiFrameEnd(k, stream, 0));
             && n == (if c.Discard? then c.count else if c.Take? then c.length else 0)
             && n <= t <= |stream| && more != [] && |more[0]| == t - n
    requires Concat(more) == stream[n..] && RunChunks(k, more, [], 0) != Pump(k, stream[n..], 0)
    ensures chunks != [] && |chunks[0]| == b && Concat(chunks) == stream
    ensures RunChunks(k, chunks, [], 0) != Pump(k, stream, 0)
  {
    hide Pump, RunChunks, AsciiFrameEnd, Conclusion, Calm, Earliest, Arriving;
    var t, others := Earliest(k, stream, b), more[1..];
    FirstChunk(more);
    assert stream[n..][..t - n] == stream[n..t] && stream[n..][t - n..] == stream[t..];
    chunks := Arriving(stream, b, t, others);
    ArrivingIsWhole(stream, b, t, others);
    var m, first := ArrivedAndGone(k, stream, b, others);
    if RunChunks(k, chunks, [], 0) == Pump(k, stream, 0) {
      AfterIsInjective(RunChunks(k, more, [], 0), Pump(k, stream[n..], 0), first);
    }
  }

  /** How a stream fails to be robust. */
  lemma NotRobust(k: Kind, stream: seq<byte>, b: nat)
    requires k.Ascii? && k.Valid() && !Robust(k, stream, b)
    ensures stream != []
    ensures stream[0] != k.syncByte ==> !Robust(k, stream[1..], Left(b, 1))
    ensures var c := Conclusion(k, stream, AsciiFrameEnd(k, stream, 0));
            var n := if c.Discard? then c.count else if c.Take? then c.length else 0;
            stream[0] == k.syncByte && Calm(k, stream, AtLeastOne(b)) ==>
              0 < n <= |stream| && !Robust(k, stream[n..], Left(Earliest(k, stream, AtLeastOne(b)), n))
  {
    hide Calm, Conclusion, AsciiFrameEnd;
  }

  lemma CutThatShows(k: Kind, stream: seq<byte>, b: nat) returns (chunks: seq<seq<byte>>)
    requires k.Ascii? && k.Valid() && 0 < b <= |stream| && stream[0] == k.syncByte && !Calm(k, stream, b)
    ensures chunks != [] && |chunks[0]| == b && Concat(chunks) == stream
    ensures RunChunks(k, chunks, [], 0) != Pump(k, stream, 0)
  {
    hide Pump, RunChunks, Gap, LateStar, Discards;
    if a: nat, d: nat :| b < k.maxLength && Gap(k, stream, a, d) && !Discards(k, stream, d) {
      GapMatters(k, stream, b, a, d);
      chunks := ThreeChunks(stream, b, k.maxLength - 1);
      ThreeAreWhole(stream, b, k.maxLength - 1);
    } else {
      var a: nat, d: nat :| LateStar(k, stream, a, d) && b <= d && !Discards(k, stream, 0);
      LateStarMatters(k, stream, b, a, d);
      chunks := ThreeChunks(stream, b, d);
      ThreeAreWhole(stream, b, d);
    }
  }

  lemma NothingFirst(k: Kind, more: seq<seq<byte>>)
    requires k.Valid()
    ensures RunChunks(k, [[]] + more, [], 0) == RunChunks(k, more, [], 0)
  {
    hide Pump, RunChunks, Decide;
    NeverResumed(k);
    var chunks := [[]] + more;
    assert [] + chunks[0] == [] && chunks[1..] == more;
    RunFirst(k, chunks, [], 0);
    NothingToDecide(k);
    PumpUnfold(k, [], 0);
    AfterNothing(RunChunks(k, more, [], 0));
  }

  /** A byte that is no sync, before the first chunk. */
  lemma JunkFirst(k: Kind, stream: seq<byte>, more: seq<seq<byte>>)
    requires k.Ascii? && k.Valid() && stream != [] && stream[0] != k.syncByte && more != []
    requires RunChunks(k, more, [], 0) != Pump(k, stream[1..], 0)
    ensures RunChunks(k, [[stream[0]] + more[0]] + more[1..], [], 0) != Pump(k, stream, 0)
  {
    hide Pump, RunChunks, JunkItems, MaybeSync, Steady;
    NeverResumed(k);
    var chunks, first := [[stream[0]] + more[0]] + more[1..], JunkItems([stream[0]]);
    assert [] + chunks[0] == chunks[0] && [] + more[0] == more[0] && chunks[1..] == more[1..];
    RunFirst(k, chunks, [], 0);
    RunFirst(k, more, [], 0);
    ByteIsSync(k, chunks[0], 0);
    ByteIsSync(k, stream, 0);
    SkipJunk(k, chunks[0], 1);
    SkipJunk(k, stream, 1);
    assert chunks[0][1..] == more[0] && chunks[0][..1] == [stream[0]] && stream[..1] == [stream[0]];
    var q := Pump(k, more[0], 0);
    AfterAfter(RunChunks(k, more[1..], q.rest, q.resume), first, q.items);
    if RunChunks(k, chunks, [], 0) == Pump(k, stream, 0) {
      AfterIsInjective(RunChunks(k, more, [], 0), Pump(k, stream[1..], 0), first);
    }
  }

  lemma FirstChunk(chunks: seq<seq<byte>>)
    requires chunks != []
    ensures Concat(chunks)[..|chunks[0]|] == chunks[0] && Concat(chunks)[|chunks[0]|..] == Concat(chunks[1..])
    ensures chunks == [chunks[0]] + chunks[1..]
  {
  }

  /** Exactly when chunks matter: a stream gives the same frames, unknown bytes and leftover however
      it is cut, if and only if it is robust. */
  lemma ChunksMatterIffNotRobust(k: Kind, stream: seq<byte>)
    requires k.Ascii? && k.Valid()
    ensures (forall chunks: seq<seq<byte>> | Concat(chunks) == stream :: RunChunks(k, chunks, [], 0) == Pump(k, stream, 0))
       <==> Robust(k, stream, 0)
  {
    hide Robust, Pump, RunChunks;
    if Robust(k, stream, 0) {
      forall chunks: seq<seq<byte>> | Concat(chunks) == stream
        ensures RunChunks(k, chunks, [], 0) == Pump(k, stream, 0)
      {
        RobustIsIndependent(k, chunks);
      }
    } else {
      var chunks := CutThatMatters(k, stream, 0);
    }
  }

  // ---------------------------------------------------------------- a condition on the bytes

  /** A '*' between lo and hi is not passed over. */
  ghost predicate StarWithin(data: seq<byte>, lo: nat, hi: nat)
    requires hi <= |data|
  {
    exists d: nat | lo <= d < hi :: data[d] == STAR && !Rejected(data, d)
  }

  /** Every maximum length of bytes that begins with a sync holds such a '*'. */
  ghost predicate StarsInReach(k: Kind, data: seq<byte>)
    requires k.Ascii?
  {
    forall lo: nat, hi: nat | lo < |data| && data[lo] == k.syncByte && lo + k.maxLength == hi <= |data| ::
      StarWithin(data, lo, hi)
  }

  lemma RejectedInWhole(data: seq<byte>, from: nat, d: nat)
    requires from <= |data| && Rejected(data[from..], d)
    ensures Rejected(data, from + d)
  {
    var part := data[from..];
    assert part[d + 9] == data[from + d + 9] && part[d + 10] == data[from + d + 10];
  }

  lemma RestInReach(k: Kind, data: seq<byte>, from: nat)
    requires k.Ascii? && from <= |data| && StarsInReach(k, data)
    ensures StarsInReach(k, data[from..])
  {
    var part := data[from..];
    forall lo: nat, hi: nat | lo < |part| && part[lo] == k.syncByte && lo + k.maxLength == hi <= |part|
      ensures StarWithin(part, lo, hi)
    {
      assert data[from + lo] == part[lo];
      assert StarWithin(data, from + lo, from + hi);
      var e: nat :| from + lo <= e < from + hi && data[e] == STAR && !Rejected(data, e);
      var d := e - from;
      assert part[d] == data[e];
      if Rejected(part, d) {
        RejectedInWhole(data, from, d);
      }
    }
  }

  /** With such a '*' in reach of its sync, a candidate has no exception. */
  lemma InReachIsCalm(k: Kind, stream: seq<byte>, least: nat)
    requires k.Ascii? && k.Valid() && (k.maxLength <= |stream| ==> StarWithin(stream, 0, k.maxLength))
    ensures Calm(k, stream, least)
  {
    hide AsciiFrameEnd, Conclusion, IsAsciiCrc, Connected;
  }

  lemma {:induction false} InReachIsRobust(k: Kind, stream: seq<byte>, b: nat)
    requires k.Ascii? && k.Valid() && StarsInReach(k, stream)
    ensures Robust(k, stream, b)
    decreases |stream|
  {
    hide Calm, Conclusion, AsciiFrameEnd, Earliest, StarWithin;
    if stream != [] {
      if stream[0] != k.syncByte {
        RestInReach(k, stream, 1);
        InReachIsRobust(k, stream[1..], Left(b, 1));
      } else {
        InReachIsCalm(k, stream, AtLeastOne(b));
        var c := Conclusion(k, stream, AsciiFrameEnd(k, stream, 0));
        var n := if c.Discard? then c.count else if c.Take? then c.length else 0;
        if 0 < n <= |stream| {
          RestInReach(k, stream, n);
          InReachIsRobust(k, stream[n..], Left(Earliest(k, stream, AtLeastOne(b)), n));
        }
      }
    }
  }

  /** So the chunks do not matter in streams of any length in which the '*' of a trailer, or one that
      may still become such, is less than a maximum length behind every sync. */
  lemma AsciiChunkIndependence(k: Kind, chunks: seq<seq<byte>>)
    requires k.Valid() && k.Ascii? && StarsInReach(k, Concat(chunks))
    ensures RunChunks(k, chunks, [], 0) == Pump(k, Concat(chunks), 0)
  {
    InReachIsRobust(k, Concat(chunks), 0);
    RobustIsIndependent(k, chunks);
  }

  /** In particular while the stream is shorter than a maximal message. */
  lemma ShortChunkIndependence(k: Kind, chunks: seq<seq<byte>>)
    requires k.Valid() && k.Ascii? && |Concat(chunks)| < k.maxLength
    ensures RunChunks(k, chunks, [], 0) == Pump(k, Concat(chunks), 0)
  {
    AsciiChunkIndependence(k, chunks);
  }

  // ---------------------------------------------------------------- two frames

  lemma TwoAreWhole(stream: seq<byte>, m: nat)
    requires m <= |stream|
    ensures Concat([stream[..m], stream[m..]]) == stream
  {
    assert [stream[..m], stream[m..]][1..] == [stream[m..]];
    assert Concat([stream[m..]]) == stream[m..];
  }

  /** A valid frame alone is taken. */
  lemma FrameAlone(k: Kind, body: seq<byte>, resume: nat)
    requires k.Ascii? && k.Valid() && Resumable(k, AsciiFrame(k, body), resume)
    requires AsciiFrameEnd(k, AsciiFrame(k, body), resume) == Verdict(Complete, k.format, |AsciiFrame(k, body)|)
    ensures Pump(k, AsciiFrame(k, body), resume).items == [Frame(AsciiFrame(k, body))]
  {
    hide Pump, AsciiFrameEnd, Decide, Resumable, AsciiFrame, Validate;
    var data := AsciiFrame(k, body);
    StartsAsciiFrame(k, body);
    AsciiFrameIsValid(k, body, []);
    assert data + [] == data;
    ConclusionIsDecision(k, data, resume);
    PumpUnfold(k, data, resume);
    assert data[|data|..] == [] && data[..|data|] == data;
    NeverResumed(k);
    NothingToDecide(k);
    PumpUnfold(k, [], 0);
  }

  lemma StartsAsciiFrame(k: Kind, body: seq<byte>)
    requires k.Ascii?
    ensures var data := AsciiFrame(k, body); data != [] && data[0] == k.syncByte
  {
  }

  /** A late '*': a valid frame is taken when it arrives at once, and thrown away when a maximum
      length of it arrives before the rest. */
  lemma LateFrameIsLost(k: Kind)
    requires k.Ascii? && k.Valid() && k.maxLength > TRAILER
    ensures var frame, m := LateFrame(k), k.maxLength;
            && m < |frame| && Concat([frame[..m], frame[m..]]) == frame
            && Pump(k, frame, 0).items == [Frame(frame)]
            && var items := RunChunks(k, [frame[..m], frame[m..]], [], 0).items; items != [] && items[0].Junk?
  {
    hide Pump, AsciiFrameEnd, RunChunks, ResumeRun, LateStar, Gap, Resumable, AsciiFrame;
    NeverResumed(k);
    var frame, m := LateFrame(k), k.maxLength;
    LateFrameDependsOnArrival(k);
    FrameAlone(k, [STAR] + Hex.Repeat(0, m - 1), 0);
    LateStarShows(k, frame, 2, m + 1);
    FirstVerdict(k, frame, m, |frame|);
    TwoAreWhole(frame, m);
    assert [] + frame[..m] == frame[..m];
    RunFirstOut(k, [frame[..m], frame[m..]], [], 0);
  }

  lemma FirstVerdict(k: Kind, stream: seq<byte>, m: nat, n: nat)
    requires k.Ascii? && m < n <= |stream| && ResumeRun(k, stream, [m, n], 0).1 == m
    ensures AsciiFrameEnd(k, stream[..m], 0) == ResumeRun(k, stream, [m, n], 0).0
  {
    hide AsciiFrameEnd;
  }

  /** A gap: a valid frame is thrown away when it arrives at once, and taken when its first byte
      arrives before the rest. */
  lemma LongFrameIsTaken(k: Kind)
    requires k.Ascii? && k.Valid() && k.maxLength > 1
    ensures var frame := LongFrame(k);
            && 1 < |frame| && Concat([frame[..1], frame[1..]]) == frame
            && (var items := Pump(k, frame, 0).items; items != [] && items[0].Junk?)
            && RunChunks(k, [frame[..1], frame[1..]], [], 0).items == [Frame(frame)]
  {
    hide Pump, AsciiFrameEnd, RunChunks, Gap, Resumable, AsciiFrame;
    NeverResumed(k);
    var body := Hex.Repeat(0, k.maxLength - 1);
    var frame := LongFrame(k);
    LongFrameDependsOnChunks(k);
    StartsAsciiFrame(k, body);
    LongFrameBytes(k);
    FirstOut(k, frame, 0);
    OneByteWaits(k, frame);
    TwoAreWhole(frame, 1);
    assert [] + frame[..1] == frame[..1] && frame[..1] + frame[1..] == frame;
    RunWaits(k, [frame[..1], frame[1..]], [], 0);
    assert [frame[..1], frame[1..]][1..] == [frame[1..]];
    RunLast(k, frame[1..], frame[..1], 1);
    TwoCuts(k, frame, 1, |frame|);
    assert frame[..|frame|] == frame;
    FrameAlone(k, body, 1);
  }

  lemma OneByteWaits(k: Kind, stream: seq<byte>)
    requires k.Ascii? && k.Valid() && k.maxLength > 1 && stream != [] && stream[0] == k.syncByte
    ensures AsciiFrameEnd(k, stream[..1], 0) == Verdict(Incomplete, k.format, 1)
  {
    hide NextStar;
    NextStarMeaning(k, stream[..1], 0);
  }
}
