/** Exactly when the verdict on an ASCII frame depends on how its bytes arrived. */
module Arrival {
  import opened BitLists
  import Hex
  import OemCrc
  import opened FixedBuffers
  import opened Framing

  // ---------------------------------------------------------------- where chunking does matter

  /** Lengths at which a buffer that grows to the stream is searched. */
  ghost predicate AreCuts(stream: seq<byte>, cuts: seq<nat>) {
    |cuts| > 0 && Increasing(cuts) && forall i | 0 <= i < |cuts| :: cuts[i] <= |stream|
  }

  /** Searches resumed at the cuts end with the verdict of one search from scratch. */
  ghost predicate ChunkingIsInvisible(k: Kind, stream: seq<byte>, cuts: seq<nat>)
    requires k.Ascii? && AreCuts(stream, cuts)
  {
    var (v, n) := ResumeRun(k, stream, cuts, 0);
    n <= |stream| && v == AsciiFrameEnd(k, stream[..n], 0)
  }

  ghost predicate NoStar(data: seq<byte>, lo: nat, hi: nat) {
    hi <= |data| && forall p | lo <= p < hi :: data[p] != STAR
  }

  /** The first '*' after a clean prefix lies a whole maximum length behind its end. */
  ghost predicate Far(k: Kind, stream: seq<byte>, a: nat, d: nat)
    requires k.Ascii?
  {
    && a + k.maxLength <= d < |stream| && stream[d] == STAR
    && Clean(stream, 0, a) && NoStar(stream, a, d)
  }

  /** Such a '*' is in reach of a search resumed from below the maximum length, and the prefix
      is known to be clean by then. */
  ghost predicate Gap(k: Kind, stream: seq<byte>, a: nat, d: nat)
    requires k.Ascii?
  {
    Far(k, stream, a, d) && (a == 0 || a + TRAILER <= k.maxLength) && d < 2 * k.maxLength - 1
  }

  /** No search resumed at start reaches a far '*' that a search from scratch misses. */
  ghost predicate OutOfReach(k: Kind, stream: seq<byte>, start: nat)
    requires k.Ascii?
  {
    forall a: nat, d: nat | Far(k, stream, a, d) && (a == 0 || stream[a - 1] == STAR) ::
      start <= a || start + k.maxLength <= d
  }

  /** A maximum length without a '*' is crossed only by a search that starts inside of it. */
  lemma {:induction false} NotCrossed(k: Kind, data: seq<byte>, start: nat, a: nat, d: nat)
    requires k.Ascii? && k.Valid() && start <= |data| && NoStar(data, a, d) && a + k.maxLength <= d
    requires start <= a || start + k.maxLength <= d
    ensures var e := Delimiter(k, data, NextStar(k, data, start)); e == NPOS || e < a
    decreases |data| - start
  {
    hide NextStar, IsAsciiCrc;
    NextStarMeaning(k, data, start);
    var e := NextStar(k, data, start);
    if e != NPOS && Rejected(data, e) {
      NotCrossed(k, data, e + 1, a, d);
    }
  }

  /** No maximum length without a '*' between lo and hi. */
  ghost predicate Connected(k: Kind, data: seq<byte>, lo: nat, hi: nat)
    requires k.Ascii?
  {
    hi <= |data| && forall b: nat, c: nat | lo <= b && b + k.maxLength == c <= hi :: !NoStar(data, b, c)
  }

  lemma ConnectedOver(k: Kind, data: seq<byte>, lo: nat, e: nat, hi: nat)
    requires k.Ascii? && lo <= e < hi <= |data| && e < lo + k.maxLength && data[e] == STAR
    requires Connected(k, data, e + 1, hi)
    ensures Connected(k, data, lo, hi)
  {
    forall b: nat, c: nat | lo <= b && b + k.maxLength == c <= hi
      ensures !NoStar(data, b, c)
    {
      if b <= e {
        assert data[e] == STAR;
      }
    }
  }

  /** A search without a result ends behind a clean prefix in a window without a '*'. */
  lemma {:induction false} SearchEnd(k: Kind, data: seq<byte>, start: nat) returns (a: nat)
    requires k.Ascii? && k.Valid() && start <= |data|
    requires Delimiter(k, data, NextStar(k, data, start)) == NPOS
    ensures start <= a <= |data| && Clean(data, start, a) && (a == start || data[a - 1] == STAR)
    ensures NoStar(data, a, WindowEnd(data, a, k.maxLength)) && Connected(k, data, start, a)
    decreases |data| - start
  {
    hide NextStar, IsAsciiCrc;
    NextStarMeaning(k, data, start);
    var e := NextStar(k, data, start);
    if e == NPOS {
      a := start;
    } else {
      a := SearchEnd(k, data, e + 1);
      hide Connected;
      ConnectedOver(k, data, start, e, a);
    }
  }

  /** A search finds the first '*' behind a clean and connected prefix. */
  lemma {:induction false} SearchFound(k: Kind, data: seq<byte>, start: nat) returns (a: nat)
    requires k.Ascii? && k.Valid() && start <= |data|
    requires Delimiter(k, data, NextStar(k, data, start)) != NPOS
    ensures var d := Delimiter(k, data, NextStar(k, data, start));
            && start <= a <= d < a + k.maxLength && Clean(data, start, a) && (a == start || data[a - 1] == STAR)
            && NoStar(data, a, d) && Connected(k, data, start, a)
    decreases |data| - start
  {
    hide NextStar, IsAsciiCrc;
    NextStarMeaning(k, data, start);
    var e := NextStar(k, data, start);
    if Rejected(data, e) {
      a := SearchFound(k, data, e + 1);
      hide Connected;
      ConnectedOver(k, data, start, e, a);
    } else {
      a := start;
    }
  }

  /** Without a gap, an INCOMPLETE verdict keeps every far '*' out of reach. */
  lemma StaysOutOfReach(k: Kind, stream: seq<byte>, cut: nat, start: nat)
    requires k.Ascii? && k.Valid() && start <= cut <= |stream| && Clean(stream[..cut], 0, start)
    requires !exists a: nat, d: nat :: Gap(k, stream, a, d)
    requires OutOfReach(k, stream, start)
    requires AsciiFrameEnd(k, stream[..cut], start).status == Incomplete
    ensures OutOfReach(k, stream, AsciiFrameEnd(k, stream[..cut], start).index)
  {
    hide NextStar, IsAsciiCrc, Delimiter;
    var data := stream[..cut];
    var i := AsciiFrameEnd(k, data, start).index;
    DelimiterMeaning(k, data, start);
    forall a: nat, d: nat | Far(k, stream, a, d) && (a == 0 || stream[a - 1] == STAR)
      ensures i <= a || i + k.maxLength <= d
    {
      assert !Gap(k, stream, a, d);
      if a < i && i < cut && d <= cut {
        NotCrossed(k, data, start, a, d);
      } else if 0 < a < i && i == cut {
        assert data[a - 1] == STAR;
        assert Rejected(data, a - 1);
      }
    }
  }

  /** A search from scratch that is INVALID is INVALID when it is resumed, too. */
  lemma InvalidWhenResumed(k: Kind, stream: seq<byte>, cut: nat, start: nat)
    requires k.Ascii? && k.Valid() && start <= cut <= |stream| && OutOfReach(k, stream, start)
    requires AsciiFrameEnd(k, stream[..cut], 0).status == Invalid
    ensures AsciiFrameEnd(k, stream[..cut], start) == AsciiFrameEnd(k, stream[..cut], 0)
  {
    hide NextStar, IsAsciiCrc, Delimiter;
    var data := stream[..cut];
    var a := SearchEnd(k, data, 0);
    var e := Delimiter(k, data, NextStar(k, data, start));
    DelimiterMeaning(k, data, start);
    if e != NPOS {
      assert a <= e;
      var d := FirstStar(data, a, e);
      assert stream == data + stream[cut..];
      CleanExtends(data, stream[cut..], 0, a);
      assert Far(k, stream, a, d);
      NotCrossed(k, data, start, a, d);
    }
  }

  lemma {:induction false} FirstStar(data: seq<byte>, a: nat, e: nat) returns (d: nat)
    requires a <= e < |data| && data[e] == STAR
    ensures a <= d <= e && data[d] == STAR && NoStar(data, a, d)
    decreases e - a
  {
    if data[a] == STAR {
      d := a;
    } else {
      d := FirstStar(data, a + 1, e);
    }
  }

  /** Without a gap no chunking is visible. */
  lemma {:induction false} NoGapRun(k: Kind, stream: seq<byte>, cuts: seq<nat>, start: nat)
    requires k.Ascii? && k.Valid() && AreCuts(stream, cuts)
    requires start <= cuts[0] && Clean(stream[..cuts[0]], 0, start)
    requires !exists a: nat, d: nat :: Gap(k, stream, a, d)
    requires OutOfReach(k, stream, start)
    ensures var (v, n) := ResumeRun(k, stream, cuts, start);
            n <= |stream| && v == AsciiFrameEnd(k, stream[..n], 0)
    decreases |cuts|
  {
    hide AsciiFrameEnd, Clean, Gap, OutOfReach;
    var data := stream[..cuts[0]];
    var v := AsciiFrameEnd(k, data, start);
    if v.status == Incomplete && |cuts| > 1 {
      IncompleteIsClean(k, data, start);
      CleanJoin(data, 0, start, v.index);
      var more := stream[cuts[0]..cuts[1]];
      assert stream[..cuts[1]] == data + more;
      CleanExtends(data, more, 0, v.index);
      StaysOutOfReach(k, stream, cuts[0], start);
      NoGapRun(k, stream, cuts[1..], v.index);
    } else if AsciiFrameEnd(k, data, 0).status != Invalid {
      ResumeIsScratch(k, data, 0, start);
    } else {
      InvalidWhenResumed(k, stream, cuts[0], start);
    }
  }

  /** A clean prefix of the stream is clean in every part that holds its last trailer. */
  lemma CleanInPart(stream: seq<byte>, hi: nat, n: nat)
    requires Clean(stream, 0, hi) && n <= |stream| && (hi == 0 || hi + TRAILER <= n + 1)
    ensures Clean(stream[..n], 0, hi)
  {
    forall p | 0 <= p < hi && stream[..n][p] == STAR
      ensures Rejected(stream[..n], p)
    {
      assert Rejected(stream, p);
    }
  }

  /** A gap is seen with two cuts: one below the maximum length, one behind the far '*'. */
  lemma GapShows(k: Kind, stream: seq<byte>, a: nat, d: nat)
    requires k.Ascii? && k.Valid() && Gap(k, stream, a, d)
    ensures AsciiFrameEnd(k, stream[..d + 1], 0).status == Invalid
    ensures ResumeRun(k, stream, [k.maxLength - 1, d + 1], 0) == (Verdict(Incomplete, k.format, d), d + 1)
  {
    hide NextStar, IsAsciiCrc, Delimiter, ResumeRun;
    var m := k.maxLength - 1;
    var data := stream[..d + 1];
    CleanInPart(stream, a, m);
    CleanInPart(stream, a, d + 1);
    NotCrossed(k, data, 0, a, d);
    DelimiterMeaning(k, data, 0);
    var head := stream[..m];
    NotCrossedBelow(k, head, a);
    NextStarIs(k, data, m, d);
    DelimiterAt(k, data, d);
    TwoCuts(k, stream, m, d + 1);
  }

  lemma NotCrossedBelow(k: Kind, data: seq<byte>, a: nat)
    requires k.Ascii? && k.Valid() && |data| < k.maxLength && a <= |data|
    requires Clean(data, 0, a) && NoStar(data, a, |data|)
    ensures AsciiFrameEnd(k, data, 0) == Verdict(Incomplete, k.format, |data|)
  {
    hide NextStar, IsAsciiCrc, Delimiter;
    DelimiterMeaning(k, data, 0);
  }

  lemma DelimiterAt(k: Kind, data: seq<byte>, d: nat)
    requires k.Ascii? && d < |data| < d + TRAILER
    ensures Delimiter(k, data, d) == d
  {
  }

  lemma TwoCuts(k: Kind, stream: seq<byte>, m: nat, n: nat)
    requires k.Ascii? && m <= n <= |stream| && AsciiFrameEnd(k, stream[..m], 0).status == Incomplete
    ensures ResumeRun(k, stream, [m, n], 0) == (AsciiFrameEnd(k, stream[..n], AsciiFrameEnd(k, stream[..m], 0).index), n)
  {
    hide AsciiFrameEnd;
    assert [m, n][1..] == [n];
  }

  /** Exactly when the chunks matter: the verdict is that of a search from scratch, however the
      stream is cut, if and only if the stream has no gap. */
  lemma ChunksMatterIffGap(k: Kind, stream: seq<byte>)
    requires k.Ascii? && k.Valid()
    ensures (forall cuts: seq<nat> | AreCuts(stream, cuts) :: ChunkingIsInvisible(k, stream, cuts))
       <==> !exists a: nat, d: nat :: Gap(k, stream, a, d)
  {
    hide AsciiFrameEnd, Gap, ResumeRun;
    if a: nat, d: nat :| Gap(k, stream, a, d) {
      GapShows(k, stream, a, d);
      GapEnd(k, stream, a, d);
      var cuts: seq<nat> := [k.maxLength - 1, d + 1];
      assert AreCuts(stream, cuts) && !ChunkingIsInvisible(k, stream, cuts);
    } else {
      forall cuts: seq<nat> | AreCuts(stream, cuts)
        ensures ChunkingIsInvisible(k, stream, cuts)
      {
        NoGapRun(k, stream, cuts, 0);
      }
    }
  }

  lemma GapEnd(k: Kind, stream: seq<byte>, a: nat, d: nat)
    requires k.Ascii? && k.Valid() && Gap(k, stream, a, d)
    ensures k.maxLength - 1 <= d < |stream|
  {
  }

  // ---------------------------------------------------------------- where arrival does matter

  /** Searches resumed at the cuts, and stopped by the first verdict that is not INCOMPLETE, end
      with the verdict of one search over all that has arrived. */
  ghost predicate ArrivalIsInvisible(k: Kind, stream: seq<byte>, cuts: seq<nat>)
    requires k.Ascii? && AreCuts(stream, cuts)
  {
    ResumeRun(k, stream, cuts, 0).0 == AsciiFrameEnd(k, stream[..cuts[|cuts| - 1]], 0)
  }

  /** The next '*' behind a clean prefix that a search reaches comes at the maximum length or later,
      but within a maximum length of the prefix: without it, a search is INVALID. */
  ghost predicate LateStar(k: Kind, stream: seq<byte>, a: nat, d: nat)
    requires k.Ascii?
  {
    && 0 < a && a + TRAILER <= d + 1 && k.maxLength <= d < a + k.maxLength && d < |stream|
    && stream[a - 1] == STAR && stream[d] == STAR
    && Clean(stream, 0, a) && NoStar(stream, a, d) && Connected(k, stream, 0, a)
  }

  /** A search passes over a clean and connected prefix that ends with a '*'. */
  lemma {:induction false} SearchReaches(k: Kind, data: seq<byte>, start: nat, a: nat)
    requires k.Ascii? && k.Valid() && start <= a <= |data| && (a == start || data[a - 1] == STAR)
    requires Clean(data, start, a) && Connected(k, data, start, a)
    ensures Delimiter(k, data, NextStar(k, data, start)) == Delimiter(k, data, NextStar(k, data, a))
    decreases a - start
  {
    hide NextStar, IsAsciiCrc;
    var e := NextStar(k, data, start);
    if start < a {
      NextStarBefore(k, data, start, a);
      SearchReaches(k, data, e + 1, a);
    }
  }

  lemma NextStarBefore(k: Kind, data: seq<byte>, start: nat, a: nat)
    requires k.Ascii? && start < a <= |data| && data[a - 1] == STAR && Connected(k, data, start, a)
    ensures var e := NextStar(k, data, start); start <= e < a && data[e] == STAR
  {
    hide NextStar;
    NextStarMeaning(k, data, start);
    assert start + k.maxLength <= a ==> !NoStar(data, start, start + k.maxLength);
  }

  /** A late '*' shows with two cuts, before and behind it: the first search is INVALID, and one
      over a byte more is not. */
  lemma LateStarShows(k: Kind, stream: seq<byte>, a: nat, d: nat)
    requires k.Ascii? && k.Valid() && LateStar(k, stream, a, d)
    ensures AsciiFrameEnd(k, stream[..d], 0) == Verdict(Invalid, Unknown, OEM4_ASCII_SYNC_LENGTH)
    ensures AsciiFrameEnd(k, stream[..d + 1], 0) == Verdict(Incomplete, k.format, d)
  {
    hide NextStar, IsAsciiCrc, Delimiter, Connected;
    CleanInPart(stream, a, d);
    CleanInPart(stream, a, d + 1);
    DelimiterMeaning(k, stream[..d], 0);
    var data := stream[..d + 1];
    ConnectedInPart(k, stream, a, d + 1);
    SearchReaches(k, data, 0, a);
    NextStarIs(k, data, a, d);
    DelimiterAt(k, data, d);
  }

  lemma ConnectedInPart(k: Kind, stream: seq<byte>, hi: nat, n: nat)
    requires k.Ascii? && Connected(k, stream, 0, hi) && hi <= n <= |stream|
    ensures Connected(k, stream[..n], 0, hi)
  {
    forall b: nat, c: nat | b + k.maxLength == c <= hi
      ensures !NoStar(stream[..n], b, c)
    {
      assert !NoStar(stream, b, c);
    }
  }

  /** Further bytes change an INVALID verdict only with a late '*'. */
  lemma InvalidChanges(k: Kind, stream: seq<byte>, n: nat, m: nat) returns (a: nat, d: nat)
    requires k.Ascii? && k.Valid() && n <= m <= |stream|
    requires AsciiFrameEnd(k, stream[..n], 0).status == Invalid
    requires AsciiFrameEnd(k, stream[..m], 0).status != Invalid
    ensures LateStar(k, stream, a, d) && n <= d < m
  {
    hide NextStar, IsAsciiCrc, Delimiter, Connected, Clean, NoStar, Rejected;
    var data, more := stream[..n], stream[..m];
    a := SearchEnd(k, data, 0);
    assert more == data + stream[n..m] && stream == data + stream[n..];
    CleanExtends(data, stream[n..m], 0, a);
    CleanExtends(data, stream[n..], 0, a);
    ConnectedExtends(k, data, stream[n..], a);
    var e := Delimiter(k, more, NextStar(k, more, 0));
    DelimiterMeaning(k, more, 0);
    LiveBehind(more, a, e);
    d := FirstStar(more, a, e);
    StarBehind(data, a, WindowEnd(data, a, k.maxLength), more, d);
    if a + k.maxLength <= d {
      NotCrossed(k, more, 0, a, d);
    }
    LastTrailer(data, a);
    NoStarInWhole(stream, m, a, d);
  }

  lemma LiveBehind(data: seq<byte>, a: nat, e: nat)
    requires Clean(data, 0, a) && e < |data| && data[e] == STAR && !Rejected(data, e)
    ensures a <= e
  {
  }

  lemma LastTrailer(data: seq<byte>, a: nat)
    requires Clean(data, 0, a) && a > 0 && data[a - 1] == STAR
    ensures a + TRAILER <= |data| + 1
  {
    assert Rejected(data, a - 1);
  }

  lemma StarBehind(data: seq<byte>, a: nat, hi: nat, more: seq<byte>, d: nat)
    requires NoStar(data, a, hi) && |data| <= |more| && data == more[..|data|]
    requires a <= d < |more| && more[d] == STAR
    ensures hi <= d
  {
    assert d < |data| ==> data[d] == more[d];
  }

  lemma NoStarInWhole(stream: seq<byte>, m: nat, a: nat, d: nat)
    requires m <= |stream| && NoStar(stream[..m], a, d)
    ensures NoStar(stream, a, d)
  {
    assert forall p | 0 <= p < m :: stream[..m][p] == stream[p];
  }

  /** Without one it stays. */
  lemma InvalidStays(k: Kind, stream: seq<byte>, n: nat, m: nat)
    requires k.Ascii? && k.Valid() && n <= m <= |stream|
    requires !exists a: nat, d: nat :: LateStar(k, stream, a, d)
    requires AsciiFrameEnd(k, stream[..n], 0).status == Invalid
    ensures AsciiFrameEnd(k, stream[..m], 0) == AsciiFrameEnd(k, stream[..n], 0)
  {
    hide NextStar, Delimiter, LateStar;
    if AsciiFrameEnd(k, stream[..m], 0).status != Invalid {
      var a, d := InvalidChanges(k, stream, n, m);
    }
  }

  lemma ConnectedExtends(k: Kind, data: seq<byte>, more: seq<byte>, hi: nat)
    requires k.Ascii? && Connected(k, data, 0, hi)
    ensures Connected(k, data + more, 0, hi)
  {
    forall b: nat, c: nat | b + k.maxLength == c <= hi
      ensures !NoStar(data + more, b, c)
    {
      assert !NoStar(data, b, c);
      var p: nat :| b <= p < c && data[p] == STAR;
      assert (data + more)[p] == STAR;
    }
  }

  /** Searches stop at the last cut, or with a verdict that is not INCOMPLETE. */
  lemma {:induction false} RunStops(k: Kind, stream: seq<byte>, cuts: seq<nat>, start: nat)
    requires k.Ascii? && AreCuts(stream, cuts)
    ensures var (v, n) := ResumeRun(k, stream, cuts, start);
            n <= cuts[|cuts| - 1] && (v.status == Incomplete ==> n == cuts[|cuts| - 1])
    decreases |cuts|
  {
    hide AsciiFrameEnd;
    var v := AsciiFrameEnd(k, stream[..cuts[0]], start);
    if v.status == Incomplete && |cuts| > 1 {
      RunStops(k, stream, cuts[1..], v.index);
    }
  }

  lemma ArrivalIsInvisibleWithout(k: Kind, stream: seq<byte>, cuts: seq<nat>)
    requires k.Ascii? && k.Valid() && AreCuts(stream, cuts)
    requires !exists a: nat, d: nat :: Gap(k, stream, a, d)
    requires !exists a: nat, d: nat :: LateStar(k, stream, a, d)
    ensures ArrivalIsInvisible(k, stream, cuts)
  {
    hide AsciiFrameEnd, Gap, LateStar;
    NoGapRun(k, stream, cuts, 0);
    RunStops(k, stream, cuts, 0);
    var (v, n) := ResumeRun(k, stream, cuts, 0);
    var last := cuts[|cuts| - 1];
    if v.status == Invalid {
      InvalidStays(k, stream, n, last);
    } else if v.status == Complete {
      CompleteIsStable(k, stream[..n], stream[n..last], 0);
      assert stream[..n] + stream[n..last] == stream[..last];
    } else {
      NoResponse(k, stream[..n], 0);
    }
  }

  lemma NoResponse(k: Kind, data: seq<byte>, start: nat)
    requires k.Ascii?
    ensures AsciiFrameEnd(k, data, start).status != Response
  {
  }

  /** Exactly when arrival matters: the verdict is that of one search over all that has arrived,
      however it arrived, if and only if the stream has no gap and no late '*'. */
  lemma ArrivalMattersIff(k: Kind, stream: seq<byte>)
    requires k.Ascii? && k.Valid()
    ensures (forall cuts: seq<nat> | AreCuts(stream, cuts) :: ArrivalIsInvisible(k, stream, cuts))
       <==> && (!exists a: nat, d: nat :: Gap(k, stream, a, d))
            && (!exists a: nat, d: nat :: LateStar(k, stream, a, d))
  {
    hide AsciiFrameEnd, Gap, LateStar, ResumeRun;
    if a: nat, d: nat :| Gap(k, stream, a, d) {
      GapShows(k, stream, a, d);
      GapEnd(k, stream, a, d);
      var cuts: seq<nat> := [k.maxLength - 1, d + 1];
      assert AreCuts(stream, cuts) && !ArrivalIsInvisible(k, stream, cuts);
    } else if a: nat, d: nat :| LateStar(k, stream, a, d) {
      LateStarShows(k, stream, a, d);
      LateStarEnd(k, stream, a, d);
      StopsAtOnce(k, stream, d, d + 1);
      var cuts: seq<nat> := [d, d + 1];
      assert AreCuts(stream, cuts) && !ArrivalIsInvisible(k, stream, cuts);
    } else {
      forall cuts: seq<nat> | AreCuts(stream, cuts)
        ensures ArrivalIsInvisible(k, stream, cuts)
      {
        ArrivalIsInvisibleWithout(k, stream, cuts);
      }
    }
  }

  lemma LateStarEnd(k: Kind, stream: seq<byte>, a: nat, d: nat)
    requires k.Ascii? && LateStar(k, stream, a, d)
    ensures d < |stream|
  {
  }

  lemma StopsAtOnce(k: Kind, stream: seq<byte>, m: nat, n: nat)
    requires k.Ascii? && m <= n <= |stream| && AsciiFrameEnd(k, stream[..m], 0).status != Incomplete
    ensures ResumeRun(k, stream, [m, n], 0) == (AsciiFrameEnd(k, stream[..m], 0), m)
  {
    hide AsciiFrameEnd;
  }

  /** A frame with a '*' at once, and its delimiter just within reach of that '*'. */
  function LateFrame(k: Kind): (data: seq<byte>)
    requires k.Ascii? && k.Valid()
  {
    AsciiFrame(k, [STAR] + Hex.Repeat(0, k.maxLength - 1))
  }

  lemma LateFrameBytes(k: Kind)
    requires k.Ascii? && k.Valid() && k.maxLength > TRAILER
    ensures var data, n := LateFrame(k), k.maxLength;
            && |data| == n + 12 && data[0] == k.syncByte && data[1] == STAR && data[n + 1] == STAR
            && (forall p | 2 <= p <= n :: data[p] == 0)
            && Rejected(data, 1) && Rejected(data[..n], 1) && IsAsciiCrc(data, n + 2)
  {
    hide OemCrc.Crc32, Hex.PaddedHex, ToNat;
    var n, body := k.maxLength, [STAR] + Hex.Repeat(0, k.maxLength - 1);
    CrcHex(OemCrc.Crc32(Zeros(32), body));
    var data := LateFrame(k);
    assert forall p | 2 <= p <= n :: data[p] == 0;
    assert data[n + 10] == CR && data[n + 11] == LF;
  }

  /** The shortest late '*' has no gap beside it: the frame is COMPLETE when it is buffered at
      once, and INVALID when a maximum length of it was searched before the rest arrived. */
  lemma LateFrameDependsOnArrival(k: Kind)
    requires k.Ascii? && k.Valid() && k.maxLength > TRAILER
    ensures var data := LateFrame(k);
            && |data| == k.maxLength + 12 && data[0] == k.syncByte
            && LateStar(k, data, 2, k.maxLength + 1)
            && (!exists a: nat, d: nat :: Gap(k, data, a, d))
            && AsciiFrameEnd(k, data, 0) == Verdict(Complete, k.format, |data|)
            && ResumeRun(k, data, [k.maxLength, |data|], 0)
               == (Verdict(Invalid, Unknown, OEM4_ASCII_SYNC_LENGTH), k.maxLength)
  {
    hide NextStar, ResumeRun, LateFrame, Delimiter, Connected, Gap, IsAsciiCrc;
    var data, n := LateFrame(k), k.maxLength;
    LateFrameBytes(k);
    NoStarsConnected(k, data);
    SearchReaches(k, data, 0, 2);
    NextStarIs(k, data, 2, n + 1);
    DelimiterClosed(k, data, n + 1);
    DelimiterMeaning(k, data[..n], 0);
    StopsAtOnce(k, data, n, |data|);
    forall a: nat, d: nat
      ensures !Gap(k, data, a, d)
    {
      NoGapNear(k, data, 1, n + 1, a, d);
    }
  }

  /** There is no gap where a live '*' is within a maximum length of an earlier one, and that one
      is below the maximum length. */
  lemma NoGapNear(k: Kind, stream: seq<byte>, q: nat, p: nat, a: nat, d: nat)
    requires k.Ascii? && q < k.maxLength && q < p <= q + k.maxLength && p < |stream|
    requires stream[q] == STAR && stream[p] == STAR && !Rejected(stream, p)
    ensures !Gap(k, stream, a, d)
  {
  }

  lemma NoStarsConnected(k: Kind, data: seq<byte>)
    requires k.Ascii? && k.maxLength > 2 && |data| >= 2
    ensures Connected(k, data, 0, 2)
  {
  }

  lemma DelimiterClosed(k: Kind, data: seq<byte>, d: nat)
    requires k.Ascii? && d < |data| && IsAsciiCrc(data, d + 1)
    ensures Delimiter(k, data, d) == d
  {
  }

  /** A sync byte, then one byte less than the maximum length without a '*', then the trailer. */
  function LongFrame(k: Kind): (data: seq<byte>)
    requires k.Ascii? && k.Valid()
  {
    AsciiFrame(k, Hex.Repeat(0, k.maxLength - 1))
  }

  lemma LongFrameBytes(k: Kind)
    requires k.Ascii? && k.Valid() && k.maxLength > 1
    ensures var data, n := LongFrame(k), k.maxLength;
            && |data| == n + TRAILER && data[n] == STAR && IsAsciiCrc(data, n + 1)
            && forall p | 0 <= p < n :: data[p] != STAR
  {
    hide OemCrc.Crc32, Hex.PaddedHex, ToNat;
    var n, body := k.maxLength, Hex.Repeat(0, k.maxLength - 1);
    CrcHex(OemCrc.Crc32(Zeros(32), body));
    var data := LongFrame(k);
    assert data[n + 9] == CR && data[n + 10] == LF;
    assert forall p | 1 <= p < n :: data[p] == 0;
  }

  /** The shortest gap: a frame longer than the maximum is INVALID when it is buffered at once,
      and COMPLETE when its first byte was searched before the rest arrived. */
  lemma LongFrameDependsOnChunks(k: Kind)
    requires k.Ascii? && k.Valid() && k.maxLength > 1
    ensures var data := LongFrame(k);
            && Gap(k, data, 0, k.maxLength)
            && AsciiFrameEnd(k, data, 0).status == Invalid
            && ResumeRun(k, data, [1, |data|], 0) == (Verdict(Complete, k.format, |data|), |data|)
  {
    hide NextStar, MatchAt, Search, ResumeRun, LongFrame, IsAsciiCrc;
    var data, n := LongFrame(k), k.maxLength;
    LongFrameBytes(k);
    NextStarMeaning(k, data, 0);
    assert NextStar(k, data, 0) == NPOS;
    var head := data[..1];
    NextStarMeaning(k, head, 0);
    assert AsciiFrameEnd(k, head, 0) == Verdict(Incomplete, k.format, 1);
    NextStarIs(k, data, 1, n);
    assert data[..|data|] == data;
    TwoCuts(k, data, 1, |data|);
  }
}
