/**
  Sliding-window statistics of the sudoku server
  (thirdpart/muduo-vip/examples/sudoku/stat.h).

  The class keeps two circular buffers of per-second totals and one cursor. The ghost field
  `log` is the full history of responses since the last reset. `Valid()` says that the
  buffers are exactly the per-second totals of that history over a window which is itself
  a function of the history, whatever the clock did: stand still, step, jump or go back.
*/
module SudokuStats {
  import opened CircularBuffers

  const WINDOW_SECONDS: nat := 60
  const MICROSECONDS_PER_SECOND := 1_000_000

  /** One call of recordResponse; times are in microseconds since the epoch. */
  datatype Response = Response(now: int, receive: int, solved: bool) {
    function Second(): int {
      now / MICROSECONDS_PER_SECOND
    }

    function Elapsed(): int {
      now - receive
    }

    /** The clock did not run backwards between receiving and answering. */
    predicate Timed() {
      0 <= Elapsed()
    }

    predicate Within(lo: int, hi: int) {
      Timed() && lo <= Second() <= hi
    }
  }

  type Log = seq<Response>

  /** Second 0 is the code's mark for "nothing recorded yet", so responses are at least one
      second after the epoch. */
  ghost predicate AfterEpoch(log: Log) {
    forall r :: r in log ==> 1 <= r.Second()
  }

  // ---------------------------------------------------------------- totals of a history

  /** Number of timed responses answered in seconds lo..hi. */
  function Count(log: Log, lo: int, hi: int): nat {
    if log == [] then 0
    else Count(log[..|log| - 1], lo, hi) + if log[|log| - 1].Within(lo, hi) then 1 else 0
  }

  /** Sum of the elapsed times of the timed responses answered in seconds lo..hi. */
  function Latency(log: Log, lo: int, hi: int): nat {
    if log == [] then 0
    else Latency(log[..|log| - 1], lo, hi) + if log[|log| - 1].Within(lo, hi) then log[|log| - 1].Elapsed() else 0
  }

  function Solved(log: Log): nat {
    if log == [] then 0
    else Solved(log[..|log| - 1]) + if log[|log| - 1].solved then 1 else 0
  }

  function Untimed(log: Log): nat {
    if log == [] then 0
    else Untimed(log[..|log| - 1]) + if log[|log| - 1].Timed() then 0 else 1
  }

  function TimedLatency(log: Log): nat {
    if log == [] then 0
    else TimedLatency(log[..|log| - 1]) + if log[|log| - 1].Timed() then log[|log| - 1].Elapsed() else 0
  }

  // ---------------------------------------------------------------- the window of a history

  datatype Window = NoWindow | Span(first: int, last: int)

  /** A timed response moves the end of the window to its second if that is later; the start
      follows so that at most WINDOW_SECONDS seconds are kept. A jump of a whole window starts afresh. */
  function Extend(w: Window, second: int): Window {
    if w.NoWindow? || w.last + WINDOW_SECONDS <= second then Span(second, second)
    else
      var last := Max(w.last, second);
      Span(Max(w.first, last - WINDOW_SECONDS + 1), last)
  }

  function WindowOf(log: Log): Window {
    if log == [] then NoWindow
    else
      var w := WindowOf(log[..|log| - 1]);
      var r := log[|log| - 1];
      if r.Timed() then Extend(w, r.Second()) else w
  }

  function Max(a: int, b: int): int {
    if a < b then b else a
  }

  /** The window is empty exactly when nothing timed was recorded; otherwise it holds between 1
      and WINDOW_SECONDS seconds and ends with the latest second that any timed response had. */
  lemma {:induction false} WindowEndsAtLatest(log: Log)
    requires AfterEpoch(log)
    ensures WindowOf(log).NoWindow? <==> forall r :: r in log ==> !r.Timed()
    ensures WindowOf(log).Span? ==>
              var w := WindowOf(log);
              && 1 <= w.first <= w.last < w.first + WINDOW_SECONDS
              && (forall r :: r in log && r.Timed() ==> r.Second() <= w.last)
              && (exists r :: r in log && r.Timed() && r.Second() == w.last)
              && (exists r :: r in log && r.Timed() && r.Second() <= w.first)
  {
    if log != [] {
      var shorter, r := log[..|log| - 1], log[|log| - 1];
      assert log == shorter + [r];
      WindowEndsAtLatest(shorter);
      assert r in log && forall x :: x in log <==> x in shorter || x == r;
      if r.Timed() && WindowOf(shorter).Span? {
        var old1 :| old1 in shorter && old1.Timed() && old1.Second() == WindowOf(shorter).last;
        var old2 :| old2 in shorter && old2.Timed() && old2.Second() <= WindowOf(shorter).first;
        assert old1 in log && old2 in log;
      }
    }
  }

  /** A window that exists holds at least the response that ends it. */
  lemma WindowHoldsLatest(log: Log)
    requires AfterEpoch(log) && WindowOf(log).Span?
    ensures 0 < Count(log, WindowOf(log).first, WindowOf(log).last)
  {
    WindowEndsAtLatest(log);
    var w := WindowOf(log);
    var latest :| latest in log && latest.Timed() && latest.Second() == w.last;
    assert latest.Within(w.first, w.last);
    CountsEach(log, latest, w.first, w.last);
  }

  /** As the history grows, the window never moves back: once a second has fallen before its
      start (evicted, cleared by a jump, or discarded on arrival) it never comes back. */
  lemma {:induction false} WindowNeverRetreats(log: Log, more: Log)
    requires AfterEpoch(log + more) && WindowOf(log).Span?
    ensures WindowOf(log + more).Span?
    ensures WindowOf(log).first <= WindowOf(log + more).first
    ensures WindowOf(log).last <= WindowOf(log + more).last
  {
    if more == [] {
      assert log + more == log;
    } else {
      var shorter := more[..|more| - 1];
      assert (log + more)[..|log + more| - 1] == log + shorter;
      assert forall r :: r in log + shorter ==> r in log + more;
      assert forall r :: r in log ==> r in log + more;
      WindowNeverRetreats(log, shorter);
      WindowEndsAtLatest(log);
      WindowEndsAtLatest(log + shorter);
    }
  }

  // ---------------------------------------------------------------- laws of the totals

  lemma {:induction false} NothingThere(log: Log, lo: int, hi: int)
    requires forall r :: r in log ==> !r.Within(lo, hi)
    ensures Count(log, lo, hi) == 0 && Latency(log, lo, hi) == 0
  {
    if log != [] {
      assert log[|log| - 1] in log;
      NothingThere(log[..|log| - 1], lo, hi);
    }
  }

  lemma {:induction false} SplitRange(log: Log, lo: int, mid: int, hi: int)
    requires lo <= mid <= hi + 1
    ensures Count(log, lo, hi) == Count(log, lo, mid - 1) + Count(log, mid, hi)
    ensures Latency(log, lo, hi) == Latency(log, lo, mid - 1) + Latency(log, mid, hi)
  {
    if log != [] {
      SplitRange(log[..|log| - 1], lo, mid, hi);
    }
  }

  function Sum(xs: seq<int>): int {
    if xs == [] then 0 else Sum(xs[..|xs| - 1]) + xs[|xs| - 1]
  }

  /** Adding up per-second totals gives the total of the whole range. */
  lemma {:induction false} SumOverRange(log: Log, lo: int, counts: seq<int>, latencies: seq<int>)
    requires |counts| == |latencies|
    requires forall i :: 0 <= i < |counts| ==>
               && counts[i] == Count(log, lo + i, lo + i)
               && latencies[i] == Latency(log, lo + i, lo + i)
    ensures Sum(counts) == Count(log, lo, lo + |counts| - 1)
    ensures Sum(latencies) == Latency(log, lo, lo + |counts| - 1)
  {
    var n := |counts|;
    if n == 0 {
      NothingThere(log, lo, lo - 1);
    } else {
      SumOverRange(log, lo, counts[..n - 1], latencies[..n - 1]);
      SplitRange(log, lo, lo + n - 1, lo + n - 1);
    }
  }

  /** Conservation: no range of seconds holds more requests or more latency than were recorded,
      and there are no more solved puzzles than responses. */
  lemma {:induction false} TotalsBoundRanges(log: Log, lo: int, hi: int)
    ensures Count(log, lo, hi) + Untimed(log) <= |log|
    ensures Latency(log, lo, hi) <= TimedLatency(log)
    ensures Solved(log) <= |log|
  {
    if log != [] {
      TotalsBoundRanges(log[..|log| - 1], lo, hi);
    }
  }

  lemma {:induction false} LatencyBounds(log: Log, lo: int, hi: int, min: int, max: int)
    requires forall r :: r in log && r.Within(lo, hi) ==> min <= r.Elapsed() <= max
    ensures min * Count(log, lo, hi) <= Latency(log, lo, hi) <= max * Count(log, lo, hi)
  {
    if log != [] {
      var shorter, r := log[..|log| - 1], log[|log| - 1];
      assert r in log;
      LatencyBounds(shorter, lo, hi, min, max);
      if r.Within(lo, hi) {
        assert min * (Count(shorter, lo, hi) + 1) == min * Count(shorter, lo, hi) + min;
        assert max * (Count(shorter, lo, hi) + 1) == max * Count(shorter, lo, hi) + max;
      }
    }
  }

  /** Some response of the range is the quickest and some is the slowest. */
  lemma {:induction false} Extremes(log: Log, lo: int, hi: int) returns (quick: Response, slow: Response)
    requires 0 < Count(log, lo, hi)
    ensures quick in log && quick.Within(lo, hi) && slow in log && slow.Within(lo, hi)
    ensures forall r :: r in log && r.Within(lo, hi) ==> quick.Elapsed() <= r.Elapsed() <= slow.Elapsed()
  {
    var shorter, r := log[..|log| - 1], log[|log| - 1];
    assert log == shorter + [r];
    assert forall x :: x in log <==> x in shorter || x == r;
    if Count(shorter, lo, hi) == 0 {
      forall x | x in shorter && x.Within(lo, hi)
        ensures false
      {
        CountsEach(shorter, x, lo, hi);
      }
      quick, slow := r, r;
    } else {
      quick, slow := Extremes(shorter, lo, hi);
      if r.Within(lo, hi) {
        quick := if r.Elapsed() < quick.Elapsed() then r else quick;
        slow := if slow.Elapsed() < r.Elapsed() then r else slow;
      }
    }
  }

  lemma {:induction false} CountsEach(log: Log, r: Response, lo: int, hi: int)
    requires r in log && r.Within(lo, hi)
    ensures 0 < Count(log, lo, hi)
  {
    var shorter := log[..|log| - 1];
    assert log == shorter + [log[|log| - 1]];
    if r in shorter {
      CountsEach(shorter, r, lo, hi);
    }
  }

  /** The average over a range lies between its quickest and its slowest response. */
  lemma AverageBetweenExtremes(log: Log, lo: int, hi: int) returns (quick: Response, slow: Response)
    requires 0 < Count(log, lo, hi)
    ensures quick in log && quick.Within(lo, hi) && slow in log && slow.Within(lo, hi)
    ensures quick.Elapsed() <= Latency(log, lo, hi) / Count(log, lo, hi) <= slow.Elapsed()
  {
    quick, slow := Extremes(log, lo, hi);
    LatencyBounds(log, lo, hi, quick.Elapsed(), slow.Elapsed());
    QuotientBounds(Latency(log, lo, hi), Count(log, lo, hi), quick.Elapsed(), slow.Elapsed());
  }

  lemma QuotientBounds(total: int, n: int, min: int, max: int)
    requires 0 < n && min * n <= total <= max * n
    ensures min <= total / n <= max
  {
    var q := total / n;
    assert q * n <= total < q * n + n;
    assert q < min ==> (q + 1) * n <= min * n;
    assert max < q ==> (max + 1) * n <= q * n;
  }

  /** Over a range that covers every timed response, the totals are the overall ones. */
  lemma {:induction false} WholeRange(log: Log, lo: int, hi: int)
    requires forall r :: r in log && r.Timed() ==> lo <= r.Second() <= hi
    ensures Count(log, lo, hi) + Untimed(log) == |log|
    ensures Latency(log, lo, hi) == TimedLatency(log)
  {
    if log != [] {
      assert log[|log| - 1] in log;
      WholeRange(log[..|log| - 1], lo, hi);
    }
  }

  /** The overall latency lies between the quickest and the slowest timed response, once for each
      of them; so does the overall average, unless responses without a latency dilute it. */
  lemma OverallAverage(log: Log) returns (quick: Response, slow: Response)
    requires Untimed(log) < |log|
    ensures quick in log && quick.Timed() && slow in log && slow.Timed()
    ensures forall r :: r in log && r.Timed() ==> quick.Elapsed() <= r.Elapsed() <= slow.Elapsed()
    ensures var n := |log| - Untimed(log);
            quick.Elapsed() * n <= TimedLatency(log) <= slow.Elapsed() * n
    ensures 0 <= TimedLatency(log) / |log| <= slow.Elapsed()
    ensures Untimed(log) == 0 ==> quick.Elapsed() <= TimedLatency(log) / |log|
  {
    var lo, hi := SomeRange(log);
    WholeRange(log, lo, hi);
    assert forall r :: r in log ==> (r.Timed() <==> r.Within(lo, hi));
    quick, slow := Extremes(log, lo, hi);
    LatencyBounds(log, lo, hi, quick.Elapsed(), slow.Elapsed());
    Diluted(TimedLatency(log), |log| - Untimed(log), |log|, quick.Elapsed(), slow.Elapsed());
  }

  lemma Diluted(total: int, n: int, m: int, min: int, max: int)
    requires 0 < n <= m && 0 <= total && 0 <= max && min * n <= total <= max * n
    ensures 0 <= total / m <= max
    ensures n == m ==> min <= total / m
  {
    MoreTimes(max, n, m);
    QuotientBounds(total, m, 0, max);
    if n == m {
      QuotientBounds(total, m, min, max);
    }
  }

  lemma MoreTimes(x: int, n: int, m: int)
    requires 0 <= x && n <= m
    ensures x * n <= x * m
  {
  }

  /** Some range covers all responses. */
  lemma {:induction false} SomeRange(log: Log) returns (lo: int, hi: int)
    ensures forall r :: r in log ==> lo <= r.Second() <= hi
  {
    if log == [] {
      lo, hi := 0, 0;
    } else {
      var shorter, r := log[..|log| - 1], log[|log| - 1];
      lo, hi := SomeRange(shorter);
      lo := if r.Second() < lo then r.Second() else lo;
      hi := Max(hi, r.Second());
      assert log == shorter + [r];
    }
  }

  // ---------------------------------------------------------------- the last minute

  /** Response i opens a window of its own: it is the first timed one, or comes a whole window
      later than every timed one before it. */
  ghost predicate Opens(log: Log, i: nat)
    requires i < |log|
  {
    && log[i].Timed()
    && (forall j :: 0 <= j < i && log[j].Timed() ==> log[j].Second() + WINDOW_SECONDS <= log[i].Second())
  }

  /** ... and no later one opens another. */
  ghost predicate OpensLast(log: Log, i: nat) {
    i < |log| && Opens(log, i) && forall k :: i < k < |log| ==> !Opens(log, k)
  }

  /** Whether a response opens a window depends on those before it only. */
  lemma SameOpenings(log: Log, n: nat)
    requires n <= |log|
    ensures forall k: nat :: k < n ==> (Opens(log[..n], k) <==> Opens(log, k))
  {
    assert forall k :: 0 <= k < n ==> log[..n][k] == log[k];
  }

  /** A response opens a window exactly when the code starts its buffers afresh. */
  lemma OpensAfresh(log: Log)
    requires AfterEpoch(log) && log != [] && log[|log| - 1].Timed()
    ensures var w := WindowOf(log[..|log| - 1]);
            Opens(log, |log| - 1) <==> w.NoWindow? || w.last + WINDOW_SECONDS <= log[|log| - 1].Second()
  {
    var shorter := log[..|log| - 1];
    assert forall j :: 0 <= j < |shorter| ==> log[j] in shorter && shorter[j] in log;
    WindowEndsAtLatest(shorter);
    if WindowOf(shorter).Span? {
      var latest :| latest in shorter && latest.Timed() && latest.Second() == WindowOf(shorter).last;
      var j :| 0 <= j < |shorter| && shorter[j] == latest;
      assert log[j] == latest;
    }
  }

  /** The window reaches back a whole minute from its end, but not beyond the second of the
      response that opened it. */
  lemma {:induction false} WindowStart(log: Log) returns (i: nat)
    requires AfterEpoch(log) && WindowOf(log).Span?
    ensures OpensLast(log, i) && log[i].Second() <= WindowOf(log).last
    ensures WindowOf(log).first == Max(WindowOf(log).last - WINDOW_SECONDS + 1, log[i].Second())
  {
    var shorter, n := log[..|log| - 1], |log| - 1;
    if log[n].Timed() {
      OpensAfresh(log);
    }
    if Opens(log, n) {
      i := n;
    } else {
      assert AfterEpoch(shorter) by {
        assert forall x :: x in shorter ==> x in log;
      }
      i := WindowStart(shorter);
      SameOpenings(log, n);
      assert log[i] == shorter[i];
    }
  }

  /** The responses came in the order of their seconds. */
  ghost predicate InOrder(log: Log) {
    forall j, k :: 0 <= j < k < |log| && log[j].Timed() && log[k].Timed() ==> log[j].Second() <= log[k].Second()
  }

  /** Response k came after the one that opened the window, with an earlier second, and yet
      within the last minute. */
  ghost predicate Latecomer(log: Log, i: nat, k: nat)
    requires WindowOf(log).Span?
  {
    && i < k < |log| && log[k].Timed()
    && WindowOf(log).last - WINDOW_SECONDS < log[k].Second() < log[i].Second()
  }

  ghost predicate NoLatecomer(log: Log)
    requires WindowOf(log).Span?
  {
    forall i: nat, k: nat :: OpensLast(log, i) ==> !Latecomer(log, i, k)
  }

  /** What the window misses of the last minute are the latecomers. */
  lemma LatecomersAreMissed(log: Log, i: nat)
    requires AfterEpoch(log) && WindowOf(log).Span? && OpensLast(log, i)
    requires WindowOf(log).first == Max(WindowOf(log).last - WINDOW_SECONDS + 1, log[i].Second())
    requires log[i].Second() <= WindowOf(log).last
    ensures var missed := Count(log, WindowOf(log).last - WINDOW_SECONDS + 1, WindowOf(log).first - 1);
            missed == 0 <==> forall k: nat :: !Latecomer(log, i, k)
  {
    var start, end := WindowOf(log).last - WINDOW_SECONDS + 1, WindowOf(log).first - 1;
    if k: nat :| Latecomer(log, i, k) {
      CountsEach(log, log[k], start, end);
    } else {
      forall r | r in log
        ensures !r.Within(start, end)
      {
        var k :| 0 <= k < |log| && log[k] == r;
        assert !Latecomer(log, i, k);
      }
      NothingThere(log, start, end);
    }
  }

  lemma OpensLastOnce(log: Log, i: nat, j: nat)
    requires OpensLast(log, i) && OpensLast(log, j)
    ensures i == j
  {
  }

  /** The window counts the whole last minute if and only if there is no such latecomer; so it
      does for every history in order. */
  lemma LastMinuteExactly(log: Log)
    requires AfterEpoch(log) && WindowOf(log).Span?
    ensures var first, last := WindowOf(log).first, WindowOf(log).last;
            Count(log, first, last) == Count(log, last - WINDOW_SECONDS + 1, last) <==> NoLatecomer(log)
    ensures var first, last := WindowOf(log).first, WindowOf(log).last;
            NoLatecomer(log) ==> Latency(log, first, last) == Latency(log, last - WINDOW_SECONDS + 1, last)
    ensures InOrder(log) ==> NoLatecomer(log)
  {
    var i := WindowStart(log);
    var first, last := WindowOf(log).first, WindowOf(log).last;
    forall j: nat | OpensLast(log, j)
      ensures i == j
    {
      OpensLastOnce(log, i, j);
    }
    LatecomersAreMissed(log, i);
    SplitRange(log, last - WINDOW_SECONDS + 1, first, last);
    if Count(log, last - WINDOW_SECONDS + 1, first - 1) == 0 {
      NoCountNoLatency(log, last - WINDOW_SECONDS + 1, first - 1);
    }
  }

  lemma {:induction false} NoCountNoLatency(log: Log, lo: int, hi: int)
    requires Count(log, lo, hi) == 0
    ensures Latency(log, lo, hi) == 0
  {
    if log != [] {
      NoCountNoLatency(log[..|log| - 1], lo, hi);
    }
  }

  /** Answers in seconds 100 and 95: the second one is in the last minute and yet not counted. */
  lemma LatecomerIsLost()
    ensures var log := [Response(100_000_000, 100_000_000, true), Response(95_000_000, 95_000_000, true)];
            WindowOf(log) == Span(100, 100) && Count(log, 100, 100) == 1 && Count(log, 41, 100) == 2
  {
    var first := [Response(100_000_000, 100_000_000, true)];
    var log := first + [Response(95_000_000, 95_000_000, true)];
    assert log[..1] == first && first[..0] == [];
    assert WindowOf(first) == Span(100, 100);
    assert Count(first, 100, 100) == Count(first, 41, 100) == 1;
  }

  // ---------------------------------------------------------------- the class

  /** The numbers that report() prints. */
  datatype Summary = Summary(
    lastSecond: int, perSecond: seq<int>, latencyPerSecond: seq<int>,
    requests60s: int, latency60s: int, average60s: int, average: int)

  class SudokuStat {
    var lastSecond: int
    var requests: seq<int>
    var latencies: seq<int>
    var totalRequests: int
    var totalResponses: int
    var totalSolved: int
    var badRequests: int
    var droppedRequests: int
    var totalLatency: int
    var badLatency: int

    /** Every response since the last reset, oldest first. */
    ghost var log: Log

    ghost predicate Valid()
      reads this
    {
      && AfterEpoch(log)
      && |requests| == |latencies|
      && WindowTotals(log, WindowOf(log), lastSecond, requests, latencies)
      && totalResponses == |log|
      && totalSolved == Solved(log)
      && badLatency == Untimed(log)
      && totalLatency == TimedLatency(log)
    }

    constructor ()
      ensures Valid() && log == []
      ensures totalRequests == badRequests == droppedRequests == 0
    {
      lastSecond, requests, latencies := 0, [], [];
      totalRequests, totalResponses, totalSolved := 0, 0, 0;
      badRequests, droppedRequests, totalLatency, badLatency := 0, 0, 0, 0;
      log := [];
    }

    /** Every counter but droppedRequests starts again. */
    method Reset()
      modifies this
      ensures Valid() && log == []
      ensures totalRequests == badRequests == 0 && droppedRequests == old(droppedRequests)
    {
      lastSecond := 0;
      requests := [];
      latencies := [];
      totalRequests := 0;
      totalResponses := 0;
      totalSolved := 0;
      badRequests := 0;
      totalLatency := 0;
      badLatency := 0;
      log := [];
    }

    method RecordRequest()
      requires Valid()
      modifies `totalRequests
      ensures Valid() && totalRequests == old(totalRequests) + 1
    {
      totalRequests := totalRequests + 1;
    }

    method RecordBadRequest()
      requires Valid()
      modifies `badRequests
      ensures Valid() && badRequests == old(badRequests) + 1
    {
      badRequests := badRequests + 1;
    }

    method RecordDroppedRequest()
      requires Valid()
      modifies `droppedRequests
      ensures Valid() && droppedRequests == old(droppedRequests) + 1
    {
      droppedRequests := droppedRequests + 1;
    }

    /** Whatever the clock does, the buffers remain the exact totals of the longer history. */
    method RecordResponse(now: int, receive: int, solved: bool)
      requires Valid() && MICROSECONDS_PER_SECOND <= now
      modifies this
      ensures Valid() && log == old(log) + [Response(now, receive, solved)]
      ensures totalRequests == old(totalRequests) && badRequests == old(badRequests)
      ensures droppedRequests == old(droppedRequests)
    {
      var second := now / MICROSECONDS_PER_SECOND;
      var elapsed := now - receive;
      ghost var r := Response(now, receive, solved);
      ghost var before := log;
      log := before + [r];
      OneMore(before, r);
      totalResponses := totalResponses + 1;
      if solved {
        totalSolved := totalSolved + 1;
      }
      if elapsed < 0 {
        badLatency := badLatency + 1;
        UntimedKeepsTotals(before, r, WindowOf(before), lastSecond, requests, latencies);
        return;
      }
      totalLatency := totalLatency + elapsed;
      WindowEndsAtLatest(before);
      RecordTimed(second, elapsed, before, r);
    }

    /** The part of recordResponse that moves the window and books the response. */
    method RecordTimed(second: int, elapsed: int, ghost before: Log, ghost r: Response)
      requires WindowTotals(before, WindowOf(before), lastSecond, requests, latencies)
      requires WindowOf(before).NoWindow? || 0 < WindowOf(before).last
      requires forall x :: x in before && x.Timed() ==> x.Second() <= lastSecond
      requires 0 < second == r.Second() && 0 <= elapsed == r.Elapsed()
      modifies `lastSecond, `requests, `latencies
      ensures WindowTotals(before + [r], Extend(WindowOf(before), second), lastSecond, requests, latencies)
    {
      ghost var w := WindowOf(before);
      var firstSecond := lastSecond - |requests| + 1;
      if lastSecond == second {
        AddAt(|requests| - 1, elapsed, before, w, r);
      } else if lastSecond + 1 == second || lastSecond == 0 {
        PushEmptySecond(before, w, second, lastSecond, requests, latencies);
        lastSecond := second;
        requests := PushBack(requests, 0, WINDOW_SECONDS);
        latencies := PushBack(latencies, 0, WINDOW_SECONDS);
        AddAt(|requests| - 1, elapsed, before, Advanced(w, second), r);
      } else if second > lastSecond {
        if second < lastSecond + WINDOW_SECONDS {
          PushEmptySeconds(second, before, w);
          w := Advanced(w, second);
        } else {
          NothingThere(before, second, second);
          requests := [];
          latencies := [];
          lastSecond := second;
          requests := PushBack(requests, 0, WINDOW_SECONDS);
          latencies := PushBack(latencies, 0, WINDOW_SECONDS);
          w := Span(second, second);
        }
        AddAt(|requests| - 1, elapsed, before, w, r);
      } else if second >= firstSecond {
        var idx := second - firstSecond;
        assert idx < |requests|;
        AddAt(idx, elapsed, before, w, r);
      } else {
        assert second < firstSecond;
        Discard(before, w, r, lastSecond, requests, latencies);
      }
      assert |requests| == |latencies|;
    }

    /** The loop of recordResponse: one empty second after another, up to the given one. */
    method PushEmptySeconds(second: int, ghost before: Log, ghost w: Window)
      requires w.Span? && lastSecond < second < lastSecond + WINDOW_SECONDS
      requires WindowTotals(before, w, lastSecond, requests, latencies)
      requires forall x :: x in before && x.Timed() ==> x.Second() <= lastSecond
      modifies `lastSecond, `requests, `latencies
      ensures lastSecond == second
      ensures WindowTotals(before, Advanced(w, second), lastSecond, requests, latencies)
    {
      while lastSecond < second
        invariant w.last <= lastSecond <= second
        invariant WindowTotals(before, Advanced(w, lastSecond), lastSecond, requests, latencies)
      {
        PushEmptySecond(before, Advanced(w, lastSecond), lastSecond + 1, lastSecond, requests, latencies);
        requests := PushBack(requests, 0, WINDOW_SECONDS);
        latencies := PushBack(latencies, 0, WINDOW_SECONDS);
        lastSecond := lastSecond + 1;
      }
    }

    /** Adds one request and its latency to one second of the window. */
    method AddAt(idx: int, elapsed: int, ghost before: Log, ghost w: Window, ghost r: Response)
      requires w.Span? && WindowTotals(before, w, lastSecond, requests, latencies)
      requires 0 <= idx < |requests| && r.Timed() && r.Second() == w.first + idx && r.Elapsed() == elapsed
      modifies `requests, `latencies
      ensures requests == old(requests)[idx := old(requests)[idx] + 1]
      ensures latencies == old(latencies)[idx := old(latencies)[idx] + elapsed]
      ensures WindowTotals(before + [r], w, lastSecond, requests, latencies)
    {
      requests := requests[idx := requests[idx] + 1];
      latencies := latencies[idx := latencies[idx] + elapsed];
      assert (before + [r])[..|before + [r]| - 1] == before;
    }

    /** The 60-second figures are those of the history over the window, which are those of the
        last minute unless there is a latecomer; they are never more than was recorded; the
        truncated average lies between the quickest and the slowest response in the window. */
    method Report() returns (s: Summary)
      requires Valid()
      ensures s.lastSecond == lastSecond && s.perSecond == requests && s.latencyPerSecond == latencies
      ensures match WindowOf(log)
              case NoWindow => s.requests60s == s.latency60s == s.average60s == 0
              case Span(first, last) =>
                && s.requests60s == Count(log, first, last)
                && s.latency60s == Latency(log, first, last)
                && 0 < s.requests60s
                && (s.requests60s == Count(log, last - WINDOW_SECONDS + 1, last) <==> NoLatecomer(log))
                && (NoLatecomer(log) ==> s.latency60s == Latency(log, last - WINDOW_SECONDS + 1, last))
                && s.average60s == s.latency60s / s.requests60s
                && (exists quick, slow ::
                      && quick in log && quick.Within(first, last)
                      && slow in log && slow.Within(first, last)
                      && quick.Elapsed() <= s.average60s <= slow.Elapsed())
      ensures s.requests60s <= totalResponses - badLatency && s.latency60s <= totalLatency
      ensures s.average == if log == [] then 0 else TimedLatency(log) / |log|
      ensures Untimed(log) < |log| ==>
                exists quick, slow :: quick in log && quick.Timed() && slow in log && slow.Timed()
                  && s.average <= slow.Elapsed() && (Untimed(log) == 0 ==> quick.Elapsed() <= s.average)
    {
      var total := AddUp(requests);
      var latency := AddUp(latencies);
      TotalsBoundRanges(log, 0, 0);
      if WindowOf(log).Span? {
        SumOverRange(log, WindowOf(log).first, requests, latencies);
        WindowHoldsLatest(log);
        LastMinuteExactly(log);
        var quick, slow := AverageBetweenExtremes(log, WindowOf(log).first, WindowOf(log).last);
        TotalsBoundRanges(log, WindowOf(log).first, WindowOf(log).last);
      }
      if Untimed(log) < |log| {
        var _, _ := OverallAverage(log);
      }
      var average60s := if total == 0 then 0 else latency / total;
      var average := if totalResponses == 0 then 0 else totalLatency / totalResponses;
      s := Summary(lastSecond, requests, latencies, total, latency, average60s, average);
    }
  }

  /** The loop over one of the buffers. */
  method AddUp(xs: seq<int>) returns (total: int)
    ensures total == Sum(xs)
  {
    total := 0;
    for i := 0 to |xs|
      invariant total == Sum(xs[..i])
    {
      assert xs[..i + 1][..i] == xs[..i];
      total := total + xs[i];
    }
    assert xs[..|xs|] == xs;
  }

  /** Both buffers hold, second by second, the totals of `log` over the window. */
  ghost predicate WindowTotals(log: Log, w: Window, lastSecond: int, requests: seq<int>, latencies: seq<int>) {
    match w
    case NoWindow => lastSecond == 0 && requests == [] && latencies == []
    case Span(first, last) =>
      && lastSecond == last
      && |requests| == |latencies| == last - first + 1
      && 1 <= |requests| <= WINDOW_SECONDS
      && (forall i :: 0 <= i < |requests| ==> requests[i] == Count(log, first + i, first + i))
      && (forall i :: 0 <= i < |latencies| ==> latencies[i] == Latency(log, first + i, first + i))
  }

  /** The window after silent seconds have passed up to `last`. */
  function Advanced(w: Window, last: int): Window {
    if w.NoWindow? then Span(last, last) else Span(Max(w.first, last - WINDOW_SECONDS + 1), last)
  }

  /** Pushing an empty second keeps the totals exact, as nothing was recorded so late. */
  lemma PushEmptySecond(log: Log, w: Window, second: int, lastSecond: int,
                        requests: seq<int>, latencies: seq<int>)
    requires WindowTotals(log, w, lastSecond, requests, latencies)
    requires w.Span? ==> second == lastSecond + 1
    requires forall r :: r in log && r.Timed() ==> r.Second() < second
    ensures WindowTotals(log, Advanced(w, second), second,
                         PushBack(requests, 0, WINDOW_SECONDS), PushBack(latencies, 0, WINDOW_SECONDS))
  {
    NothingThere(log, second, second);
  }

  /** What one more response does to the counters and to the window. */
  lemma OneMore(log: Log, r: Response)
    ensures Solved(log + [r]) == Solved(log) + if r.solved then 1 else 0
    ensures Untimed(log + [r]) == Untimed(log) + if r.Timed() then 0 else 1
    ensures TimedLatency(log + [r]) == TimedLatency(log) + if r.Timed() then r.Elapsed() else 0
    ensures WindowOf(log + [r]) == if r.Timed() then Extend(WindowOf(log), r.Second()) else WindowOf(log)
  {
    assert (log + [r])[..|log + [r]| - 1] == log;
  }

  /** A response whose latency is negative is no part of any total. */
  lemma UntimedKeepsTotals(log: Log, r: Response, w: Window, lastSecond: int, requests: seq<int>, latencies: seq<int>)
    requires WindowTotals(log, w, lastSecond, requests, latencies) && !r.Timed()
    ensures WindowTotals(log + [r], w, lastSecond, requests, latencies)
  {
    assert (log + [r])[..|log + [r]| - 1] == log;
  }

  /** A response older than the window changes no total of the window. */
  lemma Discard(log: Log, w: Window, r: Response, lastSecond: int, requests: seq<int>, latencies: seq<int>)
    requires w.Span? && WindowTotals(log, w, lastSecond, requests, latencies)
    requires r.Second() < w.first
    ensures WindowTotals(log + [r], w, lastSecond, requests, latencies)
  {
    assert (log + [r])[..|log + [r]| - 1] == log;
  }

  // ---------------------------------------------------------------- what is printed for given times

  /** A single response in second 3 that took 1000 microseconds. */
  method OneResponse() returns (s: Summary)
    ensures s == Summary(3, [1], [1000], 1, 1000, 1000, 1000)
  {
    var stat := new SudokuStat();
    stat.RecordResponse(3_000_000, 2_999_000, true);
    OneTimed(stat.log);
    s := stat.Report();
  }

  lemma OneTimed(log: Log)
    requires log == [] + [Response(3_000_000, 2_999_000, true)]
    ensures WindowOf(log) == Span(3, 3) && Count(log, 3, 3) == 1 && Latency(log, 3, 3) == 1000
    ensures TimedLatency(log) == 1000 && Untimed(log) == 0 && Solved(log) == 1
  {
    assert log[..0] == [];
  }

  /** A second one 59 seconds later is in the same window; one 60 seconds later starts afresh. */
  lemma WindowOfAMinute(solved: bool)
    ensures var log := [Response(100_000_000, 99_999_900, solved), Response(159_000_000, 158_999_800, solved)];
            WindowOf(log) == Span(100, 159) && Count(log, 100, 159) == 2 && Latency(log, 100, 159) == 300
    ensures var log := [Response(100_000_000, 99_999_900, solved), Response(160_000_000, 159_999_800, solved)];
            && WindowOf(log) == Span(160, 160) && Count(log, 160, 160) == 1 && Latency(log, 160, 160) == 200
            && TimedLatency(log) == 300 && Solved(log) == if solved then 2 else 0
  {
    var first := [Response(100_000_000, 99_999_900, solved)];
    assert first[..0] == [];
    assert WindowOf(first) == Span(100, 100) && TimedLatency(first) == 100;
    assert Count(first, 100, 159) == 1 && Latency(first, 100, 159) == 100;
    assert Count(first, 160, 160) == Latency(first, 160, 160) == 0;
    assert Solved(first) == if solved then 1 else 0;
    var near, far := Response(159_000_000, 158_999_800, solved), Response(160_000_000, 159_999_800, solved);
    assert [first[0], near][..1] == first && [first[0], far][..1] == first;
  }

  /** Responses received after they were answered, by the clock, count in the overall average:
      one that took 1000 microseconds and one such average 500. */
  lemma UntimedDilutesAverage()
    ensures var log := [Response(3_000_000, 2_999_000, true), Response(3_000_000, 3_000_001, true)];
            Untimed(log) == 1 && TimedLatency(log) / |log| == 500
  {
    var first := [Response(3_000_000, 2_999_000, true)];
    assert first[..0] == [] && TimedLatency(first) == 1000 && Untimed(first) == 0;
    assert [first[0], Response(3_000_000, 3_000_001, true)][..1] == first;
  }
}
