/**
 * Buffer-window bookkeeping over the sink's buffered time ranges: how many
 * seconds are buffered ahead of the playback position, and which ranges to
 * ask the sink to remove so that memory stays bounded. Times are exact
 * reals; the sink reports its ranges in index order.
 */
module BufferWindow {

  datatype TimeRange = TimeRange(start: real, end: real)

  /** Stop prefetching once more than this many seconds are buffered ahead. */
  const MAX_BUFFER_AHEAD_SECONDS: real := 60.0
  /** Seconds of already-played media kept behind the playback position. */
  const BUFFER_KEEP_BEHIND_SECONDS: real := 10.0

  function Max(a: real, b: real): real
  {
    if a >= b then a else b
  }

  /** Seconds of `r` that lie after `now` (zero unless the range ends after `now`). */
  function AheadOf(r: TimeRange, now: real): real
  {
    if r.end > now then Max(0.0, r.end - Max(r.start, now)) else 0.0
  }

  /** Buffered-ahead seconds: the sum of `AheadOf` over the ranges, first to last. */
  function SumAhead(rs: seq<TimeRange>, now: real): real
  {
    if rs == [] then 0.0 else SumAhead(rs[..|rs| - 1], now) + AheadOf(rs[|rs| - 1], now)
  }

  /** The part of a range that lies after `now`, clipped to the range. */
  lemma AheadOfIsOverlap(r: TimeRange, now: real)
    requires r.start <= r.end
    ensures AheadOf(r, now) >= 0.0
    ensures AheadOf(r, now) <= r.end - r.start
    ensures AheadOf(r, now) == 0.0 <==> r.end <= now || r.start == r.end
  {
  }

  /** Buffered-ahead is never negative. */
  lemma {:induction false} SumAheadNonNegative(rs: seq<TimeRange>, now: real)
    ensures SumAhead(rs, now) >= 0.0
  {
    if rs != [] {
      SumAheadNonNegative(rs[..|rs| - 1], now);
    }
  }

  /** Ranges that end at or before `now` contribute nothing ahead of it. */
  lemma {:induction false} SumAheadOfPlayedRanges(rs: seq<TimeRange>, now: real)
    requires forall i :: 0 <= i < |rs| ==> rs[i].end <= now
    ensures SumAhead(rs, now) == 0.0
  {
    if rs != [] {
      SumAheadOfPlayedRanges(rs[..|rs| - 1], now);
    }
  }

  /**
   * As playback advances over fixed ranges, buffered-ahead never grows: a
   * fetch throttled at one position stays throttled until playback has
   * consumed enough to fall back under the limit.
   */
  lemma {:induction false} SumAheadShrinksAsPlaybackAdvances(rs: seq<TimeRange>, now: real, later: real)
    requires now <= later
    ensures SumAhead(rs, later) <= SumAhead(rs, now)
  {
    if rs != [] {
      SumAheadShrinksAsPlaybackAdvances(rs[..|rs| - 1], now, later);
      var r := rs[|rs| - 1];
      assert AheadOf(r, later) <= AheadOf(r, now);
    }
  }

  /** Sums the buffered seconds ahead of `now`, range by range. */
  method BufferedAheadSeconds(buffered: seq<TimeRange>, now: real) returns (bufferedAhead: real)
    ensures bufferedAhead == SumAhead(buffered, now)
    ensures bufferedAhead >= 0.0
  {
    bufferedAhead := 0.0;
    for i := 0 to |buffered|
      invariant bufferedAhead == SumAhead(buffered[..i], now)
    {
      var s := buffered[i].start;
      var e := buffered[i].end;
      if e > now {
        bufferedAhead := bufferedAhead + Max(0.0, e - Max(s, now));
      }
      assert buffered[..i + 1][..i] == buffered[..i];
    }
    assert buffered[..|buffered|] == buffered;
    SumAheadNonNegative(buffered, now);
  }

  // ---------------------------------------------------------------------
  // Trimming

  /** Ranges that end before `KeepBehindMark(now)` count as played and may go. */
  function KeepBehindMark(now: real): real
  {
    Max(0.0, now - BUFFER_KEEP_BEHIND_SECONDS)
  }

  /** The ranges of `rs` from index `lo` on that end before `cut`, from the last index down to `lo`. */
  function EndingBefore(rs: seq<TimeRange>, lo: nat, cut: real): seq<TimeRange>
    decreases |rs| - lo
  {
    if lo >= |rs| then []
    else EndingBefore(rs, lo + 1, cut) + (if rs[lo].end < cut then [rs[lo]] else [])
  }

  /** The removal requests of one maintenance pass, in the order they are issued. */
  function RemovalRequests(buffered: seq<TimeRange>, now: real): seq<TimeRange>
  {
    var cut := KeepBehindMark(now);
    EndingBefore(buffered, 0, cut)
      + (if SumAhead(buffered, now) > MAX_BUFFER_AHEAD_SECONDS then [TimeRange(0.0, cut)] else [])
  }

  /** `EndingBefore` picks exactly the ranges from index `lo` on that end before the mark. */
  lemma {:induction false} EndingBeforeSelects(rs: seq<TimeRange>, lo: nat, cut: real)
    requires lo <= |rs|
    ensures forall r :: r in EndingBefore(rs, lo, cut) <==> r in rs[lo..] && r.end < cut
    decreases |rs| - lo
  {
    if lo < |rs| {
      EndingBeforeSelects(rs, lo + 1, cut);
      assert rs[lo..] == [rs[lo]] + rs[lo + 1..];
    }
  }

  /**
   * A maintenance pass never asks to remove media at or after the playback
   * position: every request ends at or before the keep-behind mark and
   * strictly before `now`, except the empty request `[0, 0]` that the force
   * trim issues when playback has not yet passed 0.
   */
  lemma RemovalsSparePlayback(buffered: seq<TimeRange>, now: real)
    requires now >= 0.0
    ensures forall r :: r in RemovalRequests(buffered, now) ==>
              r.end <= KeepBehindMark(now) && (r.end < now || r == TimeRange(0.0, 0.0))
  {
    EndingBeforeSelects(buffered, 0, KeepBehindMark(now));
    assert buffered[0..] == buffered;
  }

  /** A pass requests nothing when nothing is behind the mark and the buffer is not too far ahead. */
  lemma RemovalsIdleWhenNothingQualifies(buffered: seq<TimeRange>, now: real)
    requires forall i :: 0 <= i < |buffered| ==> buffered[i].end >= KeepBehindMark(now)
    requires SumAhead(buffered, now) <= MAX_BUFFER_AHEAD_SECONDS
    ensures RemovalRequests(buffered, now) == []
  {
    EndingBeforeNone(buffered, 0, KeepBehindMark(now));
  }

  /** When no range ends before the mark, the first step requests nothing. */
  lemma {:induction false} EndingBeforeNone(rs: seq<TimeRange>, lo: nat, cut: real)
    requires forall i :: 0 <= i < |rs| ==> rs[i].end >= cut
    ensures EndingBefore(rs, lo, cut) == []
    decreases |rs| - lo
  {
    if lo < |rs| {
      EndingBeforeNone(rs, lo + 1, cut);
    }
  }

  /**
   * One maintenance pass: walk the ranges from the last index to the first
   * and request removal of each one that ends before the keep-behind mark;
   * then, if more than the limit is buffered ahead, request removal of
   * everything from 0 up to the mark. The sink's buffered ranges are read
   * again for the second step, but removals take effect only later, so both
   * steps see the same ranges. The requests are returned; whether the sink
   * honours them is up to the sink.
   */
  method MaintainBufferedRanges(buffered: seq<TimeRange>, now: real) returns (removals: seq<TimeRange>)
    ensures removals == RemovalRequests(buffered, now)
  {
    var keepBehind := Max(0.0, now - BUFFER_KEEP_BEHIND_SECONDS);
    removals := [];
    var i := |buffered| - 1;
    while i >= 0
      invariant -1 <= i < |buffered|
      invariant removals == EndingBefore(buffered, i + 1, keepBehind)
    {
      var start := buffered[i].start;
      var end := buffered[i].end;
      if end < keepBehind {
        removals := removals + [TimeRange(start, end)];
      }
      i := i - 1;
    }
    // the second pass totals the buffered-ahead seconds exactly as the throttle does
    var ahead := BufferedAheadSeconds(buffered, now);
    if ahead > MAX_BUFFER_AHEAD_SECONDS {
      removals := removals + [TimeRange(0.0, keepBehind)];
    }
  }
}
