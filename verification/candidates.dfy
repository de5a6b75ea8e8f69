/** What becomes of a candidate frame however its bytes arrive. */
module Candidates {
  import opened BitLists
  import Hex
  import OemCrc
  import opened FixedBuffers
  import opened Framing
  import opened Arrival
  import opened Streaming

  // ---------------------------------------------------------------- one candidate

  /** What GetFrame makes of a verdict on a buffer that begins with a sync. */
  function Conclusion(k: Kind, data: seq<byte>, v: Verdict): Decision
    requires k.Ascii? && k.Valid()
  {
    match v.status
    case Complete =>
      if TRAILER < v.index <= |data| && Validate(k, data, v.index) != 0 then Discard(1) else Take(v.index)
    case Incomplete => Wait(v.index)
    case _ => Discard(1)
  }

  /** The candidate found by a search from here is thrown away. */
  ghost predicate Discards(k: Kind, data: seq<byte>, start: nat)
    requires k.Ascii? && k.Valid()
  {
    Conclusion(k, data, AsciiFrameEnd(k, data, start)) == Discard(1)
  }

  lemma FirstIsSync(k: Kind, data: seq<byte>)
    requires k.Ascii? && k.Valid() && data != []
    ensures (FindSync(k, data) == 0) <==> data[0] == k.syncByte
  {
    hide FindSync;
    ByteIsSync(k, data, 0);
    FindSyncMeaning(k, data);
  }

  lemma ByteIsSync(k: Kind, data: seq<byte>, p: nat)
    requires k.Ascii? && k.Valid() && p < |data|
    ensures MaybeSync(k, data, p) <==> data[p] == k.syncByte
  {
    assert k.Sync()[..1] == k.Sync();
    assert data[p..p + 1] == [data[p]];
  }

  lemma ConclusionIsDecision(k: Kind, data: seq<byte>, resume: nat)
    requires k.Ascii? && k.Valid() && Resumable(k, data, resume) && data != [] && data[0] == k.syncByte
    ensures Decide(k, data, resume, |data|) == Conclusion(k, data, AsciiFrameEnd(k, data, resume))
  {
    hide FindSync, Delimiter, NextStar, OemCrc.Crc32, Hex.ParseHex;
    FirstIsSync(k, data);
    if FrameEnd(k, data, resume).status in {Response, Complete} {
      CompleteBounds(k, data, resume);
    }
  }

  /** A COMPLETE verdict on a part concludes as it does on the whole. */
  lemma ConclusionStays(k: Kind, data: seq<byte>, more: seq<byte>, v: Verdict)
    requires k.Ascii? && k.Valid() && v.status != Incomplete && v.index <= |data|
    ensures Conclusion(k, data + more, v) == Conclusion(k, data, v)
  {
    hide Validate;
    if v.status == Complete && TRAILER < v.index {
      ValidateIsStable(k, data, more, v.index);
    }
  }

  /** However at least `least` bytes of it arrive first, a candidate with an exception is thrown
      away as it is when it arrives at once. */
  ghost predicate Calm(k: Kind, stream: seq<byte>, least: nat)
    requires k.Ascii? && k.Valid()
  {
    && ((exists a: nat, d: nat :: LateStar(k, stream, a, d) && least <= d) ==> Discards(k, stream, 0))
    && (least < k.maxLength ==> forall a: nat, d: nat | Gap(k, stream, a, d) :: Discards(k, stream, d))
  }

  lemma WaitsWhenIncomplete(k: Kind, data: seq<byte>, v: Verdict)
    requires k.Ascii? && k.Valid()
    ensures Conclusion(k, data, v).Wait? <==> v.status == Incomplete
    ensures v.status == Incomplete ==> Conclusion(k, data, v).resume == v.index
  {
  }

  lemma OnlyThree(k: Kind, data: seq<byte>, v: Verdict)
    requires k.Ascii? && k.Valid()
    ensures Conclusion(k, data, v).Discard? || Conclusion(k, data, v).Wait? || Conclusion(k, data, v).Take?
    ensures Conclusion(k, data, v).Discard? ==> Conclusion(k, data, v) == Discard(1)
  {
    hide Validate;
  }

  // ---------------------------------------------------------------- a candidate with a gap

  /** From scratch, a candidate with a gap is INVALID as soon as a maximum length is buffered. */
  lemma GapIsInvalid(k: Kind, stream: seq<byte>, a: nat, d: nat, n: nat)
    requires k.Ascii? && k.Valid() && Gap(k, stream, a, d) && k.maxLength <= n <= |stream|
    ensures AsciiFrameEnd(k, stream[..n], 0).status == Invalid
  {
    hide NextStar, IsAsciiCrc, Delimiter, Clean, Rejected;
    var data := stream[..n];
    CleanInPart(stream, a, n);
    DelimiterMeaning(k, data, 0);
    var e := Delimiter(k, data, NextStar(k, data, 0));
    if e != NPOS {
      LiveBehind(data, a, e);
      NotReached(k, stream, a, d, n, 0);
    }
  }

  lemma GapIsDiscarded(k: Kind, stream: seq<byte>, a: nat, d: nat)
    requires k.Ascii? && k.Valid() && Gap(k, stream, a, d)
    ensures AsciiFrameEnd(k, stream, 0).status == Invalid && Discards(k, stream, 0)
  {
    hide AsciiFrameEnd;
    GapIsInvalid(k, stream, a, d, |stream|);
    assert stream[..|stream|] == stream;
  }

  /** A search that does not start inside of the gap finds nothing behind it. */
  lemma NotReached(k: Kind, stream: seq<byte>, a: nat, d: nat, n: nat, start: nat)
    requires k.Ascii? && k.Valid() && Far(k, stream, a, d) && start <= n <= |stream|
    requires start <= a || start + k.maxLength <= d
    ensures var e := Delimiter(k, stream[..n], NextStar(k, stream[..n], start)); e == NPOS || e < a
  {
    hide NextStar, IsAsciiCrc, Delimiter;
    if d <= n {
      NotCrossed(k, stream[..n], start, a, d);
    } else {
      DelimiterMeaning(k, stream[..n], start);
    }
  }

  /** What a search finds is closed, or its trailer is cut off. */
  lemma LiveInWhole(stream: seq<byte>, a: nat, n: nat, e: nat)
    requires n <= |stream| && Clean(stream, 0, a) && e < a && e < n && stream[e] == STAR && !Rejected(stream[..n], e)
    ensures n < e + TRAILER && e + TRAILER <= |stream|
  {
    assert Rejected(stream, e);
  }

  /** Where a search over a buffer of c0 bytes may stop in a stream with a gap, if the first search
      is over at least `least` bytes: it does not come to the far '*', or it is inside of the gap,
      or it has gone on from the far '*'. */
  ghost predicate Tracked(k: Kind, stream: seq<byte>, a: nat, d: nat, least: nat, c0: nat, i: nat)
    requires k.Ascii? && c0 <= |stream|
  {
    && i <= c0 && Clean(stream[..c0], 0, i)
    && (|| i <= a || i + k.maxLength <= d
        || (least < k.maxLength && i < k.maxLength)
        || (least < k.maxLength && d <= i && Delimiter(k, stream[..c0], NextStar(k, stream[..c0], d)) == i))
  }

  /** A search resumed from the '*' where an earlier one stopped goes on as that one does. */
  lemma {:induction false} StillReached(k: Kind, data: seq<byte>, more: seq<byte>, start: nat)
    requires k.Ascii? && k.Valid() && start <= |data| && Delimiter(k, data, NextStar(k, data, start)) != NPOS
    ensures var i, all := Delimiter(k, data, NextStar(k, data, start)), data + more;
            i <= |all| && Delimiter(k, all, NextStar(k, all, start)) == Delimiter(k, all, NextStar(k, all, i))
    decreases |data| - start
  {
    hide NextStar, IsAsciiCrc;
    var e, all := NextStar(k, data, start), data + more;
    NextStarMeaning(k, data, start);
    NextStarIs(k, all, start, e);
    if Rejected(data, e) {
      CleanExtends(data, more, e, e + 1);
      assert Rejected(all, e);
      StillReached(k, data, more, e + 1);
    } else {
      NextStarIs(k, all, e, e);
    }
  }

  /** One more search keeps track; only one that came to the far '*' ends otherwise than INVALID,
      and then as a search from that '*'. */
  lemma GapStep(k: Kind, stream: seq<byte>, a: nat, d: nat, least: nat, c0: nat, c: nat, i: nat)
    requires k.Ascii? && k.Valid() && Gap(k, stream, a, d) && least <= c && c0 <= c <= |stream|
    requires Tracked(k, stream, a, d, least, c0, i)
    ensures var v := AsciiFrameEnd(k, stream[..c], i);
            && (v.status == Incomplete ==> Tracked(k, stream, a, d, least, c, v.index))
            && (v.status == Complete || (v.status == Incomplete && c == |stream|) ==>
                  least < k.maxLength && AsciiFrameEnd(k, stream, d) == v)
  {
    hide NextStar, IsAsciiCrc, Delimiter, Clean, Rejected, NoStar;
    var data := stream[..c];
    PrefixExtends(stream, c0, c);
    CleanExtends(stream[..c0], stream[c0..c], 0, i);
    var e := Delimiter(k, data, NextStar(k, data, i));
    DelimiterMeaning(k, data, i);
    if e != NPOS {
      CleanJoin(data, 0, i, e);
      if e < a {
        LiveInWhole(stream, a, c, e);
      } else {
        FarIsFirst(k, stream, a, d, e);
        OnFromFar(k, stream, a, d, least, c0, c, i);
      }
    } else if c < k.maxLength {
      CleanJoin(data, 0, i, c);
    }
  }

  lemma PrefixExtends(stream: seq<byte>, c0: nat, c: nat)
    requires c0 <= c <= |stream|
    ensures stream[..c] == stream[..c0] + stream[c0..c] && stream == stream[..c] + stream[c..]
  {
  }

  lemma FarIsFirst(k: Kind, stream: seq<byte>, a: nat, d: nat, e: nat)
    requires k.Ascii? && Far(k, stream, a, d) && a <= e < |stream| && stream[e] == STAR
    ensures d <= e
  {
  }

  /** A search that has come to the far '*' is one from there. */
  lemma OnFromFar(k: Kind, stream: seq<byte>, a: nat, d: nat, least: nat, c0: nat, c: nat, i: nat)
    requires k.Ascii? && k.Valid() && Gap(k, stream, a, d) && least <= c && c0 <= c <= |stream|
    requires Tracked(k, stream, a, d, least, c0, i)
    requires var e := Delimiter(k, stream[..c], NextStar(k, stream[..c], i)); e != NPOS && d <= e < c
    ensures least < k.maxLength
    ensures Delimiter(k, stream[..c], NextStar(k, stream[..c], d)) == Delimiter(k, stream[..c], NextStar(k, stream[..c], i))
    ensures var v := AsciiFrameEnd(k, stream[..c], i);
            v.status == Complete || c == |stream| ==> AsciiFrameEnd(k, stream, d) == v
  {
    hide NextStar, IsAsciiCrc, Delimiter;
    var data := stream[..c];
    PrefixExtends(stream, c0, c);
    if i <= a || i + k.maxLength <= d {
      NotReached(k, stream, a, d, c, i);
    }
    if i < d {
      DelimiterMeaning(k, data, i);
      DelimiterSkip(k, data, i, d);
    } else {
      StillReached(k, stream[..c0], stream[c0..c], d);
    }
    assert AsciiFrameEnd(k, data, d) == AsciiFrameEnd(k, data, i);
    if AsciiFrameEnd(k, data, i).status == Complete {
      CompleteIsStable(k, data, stream[c..], d);
    } else if c == |stream| {
      assert data == stream;
    }
  }

  lemma {:induction false} GapRun(k: Kind, stream: seq<byte>, a: nat, d: nat, least: nat, cuts: seq<nat>, c0: nat, i: nat)
    requires k.Ascii? && k.Valid() && Gap(k, stream, a, d) && AreCuts(stream, cuts)
    requires least <= cuts[0] && c0 <= cuts[0] && Tracked(k, stream, a, d, least, c0, i)
    ensures var (v, n) := ResumeRun(k, stream, cuts, i);
            n <= |stream| && (v.status == Complete || (v.status == Incomplete && n == |stream|) ==>
              least < k.maxLength && AsciiFrameEnd(k, stream, d) == v)
    decreases |cuts|
  {
    hide AsciiFrameEnd, Gap, Tracked;
    GapStep(k, stream, a, d, least, c0, cuts[0], i);
    var v := AsciiFrameEnd(k, stream[..cuts[0]], i);
    if v.status == Incomplete && |cuts| > 1 {
      GapRun(k, stream, a, d, least, cuts[1..], cuts[0], v.index);
    }
  }

  /** Below the maximum length, a candidate with a gap is incomplete. */
  lemma GapWaits(k: Kind, stream: seq<byte>, a: nat, d: nat, n: nat)
    requires k.Ascii? && k.Valid() && Gap(k, stream, a, d) && n < k.maxLength
    ensures n <= |stream| && AsciiFrameEnd(k, stream[..n], 0).status == Incomplete
  {
    hide NextStar, IsAsciiCrc, Delimiter, Clean, Rejected, NoStar;
    DelimiterMeaning(k, stream[..n], 0);
    var e := Delimiter(k, stream[..n], NextStar(k, stream[..n], 0));
    if e != NPOS {
      if e < a {
        LiveInWhole(stream, a, n, e);
      } else {
        FarIsFirst(k, stream, a, d, e);
      }
    }
  }

  /** One byte below it, the search has come to the end of the buffer. */
  lemma GapInside(k: Kind, stream: seq<byte>, a: nat, d: nat, b: nat)
    requires k.Ascii? && k.Valid() && Gap(k, stream, a, d) && b < k.maxLength <= |stream|
    ensures var m, i := k.maxLength - 1, AsciiFrameEnd(k, stream[..b], 0).index;
            AsciiFrameEnd(k, stream[..m], i) == Verdict(Incomplete, k.format, m)
  {
    hide NextStar, IsAsciiCrc, Delimiter, AsciiFrameEnd, Clean;
    var m, i := k.maxLength - 1, AsciiFrameEnd(k, stream[..b], 0).index;
    GapWaits(k, stream, a, d, b);
    IncompleteIsClean(k, stream[..b], 0);
    PrefixExtends(stream, b, m);
    CleanExtends(stream[..b], stream[b..m], 0, i);
    CleanInPart(stream, a, m);
    GapBounds(k, stream, a, d);
    NotCrossedBelow(k, stream[..m], a);
    ResumeIsScratch(k, stream[..m], 0, i);
  }

  lemma GapBounds(k: Kind, stream: seq<byte>, a: nat, d: nat)
    requires k.Ascii? && k.Valid() && Gap(k, stream, a, d)
    ensures var m := k.maxLength - 1;
            a <= m < d < |stream| && Clean(stream, 0, a) && NoStar(stream[..m], a, m) && (a == 0 || a + TRAILER <= m + 1)
  {
  }

  /** A search from inside of the gap is one from the far '*'. */
  lemma FromInside(k: Kind, stream: seq<byte>, a: nat, d: nat)
    requires k.Ascii? && k.Valid() && Gap(k, stream, a, d)
    ensures AsciiFrameEnd(k, stream, k.maxLength - 1) == AsciiFrameEnd(k, stream, d)
  {
    hide NextStar, IsAsciiCrc, Delimiter;
    NextStarIs(k, stream, k.maxLength - 1, d);
    NextStarIs(k, stream, d, d);
  }

  // ---------------------------------------------------------------- a calm candidate

  /** Searches resumed at any cuts stop no earlier than a search from scratch. */
  lemma StopsWithScratch(k: Kind, stream: seq<byte>, cuts: seq<nat>)
    requires k.Ascii? && k.Valid() && AreCuts(stream, cuts)
    ensures var (v, n) := ResumeRun(k, stream, cuts, 0);
            cuts[0] <= n <= |stream| && (v.status != Incomplete ==> AsciiFrameEnd(k, stream[..n], 0).status != Incomplete)
  {
    hide AsciiFrameEnd, ResumeRun;
    ChunksDoNotMatter(k, stream, cuts, 0, 0);
    StopsBehind(k, stream, cuts, 0);
  }

  lemma {:induction false} StopsBehind(k: Kind, stream: seq<byte>, cuts: seq<nat>, start: nat)
    requires k.Ascii? && AreCuts(stream, cuts)
    ensures cuts[0] <= ResumeRun(k, stream, cuts, start).1
    decreases |cuts|
  {
    hide AsciiFrameEnd;
    var v := AsciiFrameEnd(k, stream[..cuts[0]], start);
    if v.status == Incomplete && |cuts| > 1 {
      StopsBehind(k, stream, cuts[1..], v.index);
    }
  }

  /** However a calm candidate arrives, it ends as it does when it arrives at once. */
  lemma CalmRun(k: Kind, stream: seq<byte>, least: nat, cuts: seq<nat>)
    requires k.Ascii? && k.Valid() && Calm(k, stream, least) && AreCuts(stream, cuts) && least <= cuts[0]
    ensures var (v, n) := ResumeRun(k, stream, cuts, 0);
            n <= |stream| && (v.status != Incomplete || n == |stream| ==>
              Conclusion(k, stream[..n], v) == Conclusion(k, stream, AsciiFrameEnd(k, stream, 0)))
  {
    hide AsciiFrameEnd, Gap, LateStar, ResumeRun, Conclusion;
    if a: nat, d: nat :| Gap(k, stream, a, d) {
      GapCalmRun(k, stream, least, cuts, a, d);
    } else {
      NoGapCalmRun(k, stream, least, cuts);
    }
  }

  lemma GapCalmRun(k: Kind, stream: seq<byte>, least: nat, cuts: seq<nat>, a: nat, d: nat)
    requires k.Ascii? && k.Valid() && Calm(k, stream, least) && AreCuts(stream, cuts) && least <= cuts[0]
    requires Gap(k, stream, a, d)
    ensures var (v, n) := ResumeRun(k, stream, cuts, 0);
            n <= |stream| && (v.status != Incomplete || n == |stream| ==>
              Conclusion(k, stream[..n], v) == Conclusion(k, stream, AsciiFrameEnd(k, stream, 0)))
  {
    hide AsciiFrameEnd, Gap, LateStar, ResumeRun, Validate;
    GapIsDiscarded(k, stream, a, d);
    NothingTracked(k, stream, a, d, least);
    GapRun(k, stream, a, d, least, cuts, 0, 0);
    var (v, n) := ResumeRun(k, stream, cuts, 0);
    if v.status == Complete {
      RunBounds(k, stream, cuts, 0);
      ConclusionStays(k, stream[..n], stream[n..], v);
      assert stream[..n] + stream[n..] == stream;
    } else if v.status == Response {
      RunBounds(k, stream, cuts, 0);
    }
  }

  lemma NothingTracked(k: Kind, stream: seq<byte>, a: nat, d: nat, least: nat)
    requires k.Ascii?
    ensures Tracked(k, stream, a, d, least, 0, 0)
  {
  }

  /** The verdict at which searches stop is one over a part of the stream. */
  lemma {:induction false} RunBounds(k: Kind, stream: seq<byte>, cuts: seq<nat>, start: nat)
    requires k.Ascii? && AreCuts(stream, cuts)
    ensures var (v, n) := ResumeRun(k, stream, cuts, start);
            n <= |stream| && v.status != Response && (v.status != Invalid ==> v.index <= n)
    decreases |cuts|
  {
    hide AsciiFrameEnd;
    var v := AsciiFrameEnd(k, stream[..cuts[0]], start);
    NoResponse(k, stream[..cuts[0]], start);
    if v.status == Incomplete && |cuts| > 1 {
      RunBounds(k, stream, cuts[1..], v.index);
    }
  }

  lemma NoGapCalmRun(k: Kind, stream: seq<byte>, least: nat, cuts: seq<nat>)
    requires k.Ascii? && k.Valid() && Calm(k, stream, least) && AreCuts(stream, cuts) && least <= cuts[0]
    requires !exists a: nat, d: nat :: Gap(k, stream, a, d)
    ensures var (v, n) := ResumeRun(k, stream, cuts, 0);
            n <= |stream| && (v.status != Incomplete || n == |stream| ==>
              Conclusion(k, stream[..n], v) == Conclusion(k, stream, AsciiFrameEnd(k, stream, 0)))
  {
    hide AsciiFrameEnd, Gap, LateStar, ResumeRun, Validate;
    NoGapRun(k, stream, cuts, 0);
    RunBounds(k, stream, cuts, 0);
    StopsBehind(k, stream, cuts, 0);
    var (v, n) := ResumeRun(k, stream, cuts, 0);
    assert stream[..n] + stream[n..] == stream && stream[..|stream|] == stream;
    if v.status == Complete {
      CompleteIsStable(k, stream[..n], stream[n..], 0);
      ConclusionStays(k, stream[..n], stream[n..], v);
    } else if v.status == Invalid && AsciiFrameEnd(k, stream, 0).status != Invalid {
      var a, d := InvalidChanges(k, stream, n, |stream|);
    }
  }

  // ---------------------------------------------------------------- the earliest end of a candidate

  /** The least number of bytes, from n on, with which a search from scratch ends. */
  ghost function Earliest(k: Kind, stream: seq<byte>, n: nat): (t: nat)
    requires k.Ascii?
    ensures n <= t
    decreases |stream| - n
  {
    if n >= |stream| || AsciiFrameEnd(k, stream[..n], 0).status != Incomplete then n
    else Earliest(k, stream, n + 1)
  }

  lemma {:induction false} EarliestIsLeast(k: Kind, stream: seq<byte>, n: nat, m: nat)
    requires k.Ascii? && n <= m <= |stream| && AsciiFrameEnd(k, stream[..m], 0).status != Incomplete
    ensures var t := Earliest(k, stream, n);
            && t <= m && AsciiFrameEnd(k, stream[..t], 0).status != Incomplete
            && forall i | n <= i < t :: AsciiFrameEnd(k, stream[..i], 0).status == Incomplete
    decreases m - n
  {
    hide AsciiFrameEnd;
    if n < m && AsciiFrameEnd(k, stream[..n], 0).status == Incomplete {
      EarliestIsLeast(k, stream, n + 1, m);
    }
  }

  /** With the least number of bytes with which it ends from scratch, a calm candidate ends, too,
      when its first b bytes were searched before. */
  lemma EndsAtEarliest(k: Kind, stream: seq<byte>, b: nat, t: nat)
    requires k.Ascii? && k.Valid() && 0 < b < t <= |stream|
    requires AsciiFrameEnd(k, stream[..t], 0).status != Incomplete
    requires forall i | b <= i < t :: AsciiFrameEnd(k, stream[..i], 0).status == Incomplete
    ensures AsciiFrameEnd(k, stream[..t], AsciiFrameEnd(k, stream[..b], 0).index).status != Incomplete
  {
    hide AsciiFrameEnd, Gap, ResumeRun;
    assert AsciiFrameEnd(k, stream[..b], 0).status == Incomplete;
    if a: nat, d: nat :| Gap(k, stream, a, d) {
      EndsInGap(k, stream, a, d, b, t);
    } else {
      NoGapRun(k, stream, [b, t], 0);
      TwoCuts(k, stream, b, t);
    }
  }

  lemma EndsInGap(k: Kind, stream: seq<byte>, a: nat, d: nat, b: nat, t: nat)
    requires k.Ascii? && k.Valid() && 0 < b < t <= |stream| && Gap(k, stream, a, d)
    requires AsciiFrameEnd(k, stream[..t], 0).status != Incomplete
    requires forall i | b <= i < t :: AsciiFrameEnd(k, stream[..i], 0).status == Incomplete
    ensures AsciiFrameEnd(k, stream[..t], AsciiFrameEnd(k, stream[..b], 0).index).status != Incomplete
  {
    hide AsciiFrameEnd, Clean, NoStar, Delimiter, NextStar, Rejected, IsAsciiCrc;
    var m, i := k.maxLength, AsciiFrameEnd(k, stream[..b], 0).index;
    assert AsciiFrameEnd(k, stream[..b], 0).status == Incomplete;
    if b >= m {
      GapIsInvalid(k, stream, a, d, b);
    } else if t < m {
      GapWaits(k, stream, a, d, t);
    } else {
      if m < t {
        GapIsInvalid(k, stream, a, d, m);
      }
      IncompleteIsClean(k, stream[..b], 0);
      NothingAtMaximum(k, stream, a, d, i);
    }
  }

  lemma NothingAtMaximum(k: Kind, stream: seq<byte>, a: nat, d: nat, i: nat)
    requires k.Ascii? && k.Valid() && Gap(k, stream, a, d) && i <= k.maxLength
    ensures AsciiFrameEnd(k, stream[..k.maxLength], i).status == Invalid
  {
    hide NextStar, IsAsciiCrc, Delimiter, Rejected;
    var data := stream[..k.maxLength];
    CleanInPart(stream, a, k.maxLength);
    DelimiterMeaning(k, data, i);
    var e := Delimiter(k, data, NextStar(k, data, i));
    if e != NPOS {
      LiveBehind(data, a, e);
      FarIsFirst(k, stream, a, d, e);
    }
  }
}
