/**
  Latency percentiles and the latency histogram of the sudoku client
  (thirdpart/muduo-vip/examples/sudoku/percentile.h).
*/
module Percentiles {

  ghost predicate Sorted(data: seq<int>) {
    forall i, j :: 0 <= i <= j < |data| ==> data[i] <= data[j]
  }

  /** How many values lie in lo..hi-1. */
  function CountIn(data: seq<int>, lo: int, hi: int): (n: nat)
    ensures n <= |data|
  {
    if data == [] then 0
    else CountIn(data[..|data| - 1], lo, hi) + if lo <= data[|data| - 1] < hi then 1 else 0
  }

  lemma {:induction false} CountAppend(a: seq<int>, b: seq<int>, lo: int, hi: int)
    ensures CountIn(a + b, lo, hi) == CountIn(a, lo, hi) + CountIn(b, lo, hi)
  {
    if b == [] {
      assert a + b == a;
    } else {
      var c := b[..|b| - 1];
      assert (a + b)[..|a + b| - 1] == a + c;
      CountAppend(a, c, lo, hi);
    }
  }

  lemma CountSplit(data: seq<int>, k: nat, lo: int, hi: int)
    requires k <= |data|
    ensures CountIn(data, lo, hi) == CountIn(data[..k], lo, hi) + CountIn(data[k..], lo, hi)
  {
    CountAppend(data[..k], data[k..], lo, hi);
    assert data[..k] + data[k..] == data;
  }

  lemma {:induction false} CountAll(data: seq<int>, lo: int, hi: int)
    requires forall i :: 0 <= i < |data| ==> lo <= data[i] < hi
    ensures CountIn(data, lo, hi) == |data|
  {
    if data != [] {
      CountAll(data[..|data| - 1], lo, hi);
    }
  }

  lemma {:induction false} CountNone(data: seq<int>, lo: int, hi: int)
    requires forall i :: 0 <= i < |data| ==> !(lo <= data[i] < hi)
    ensures CountIn(data, lo, hi) == 0
  {
    if data != [] {
      CountNone(data[..|data| - 1], lo, hi);
    }
  }

  function IndicesBelow(data: seq<int>, limit: int): set<int> {
    set i | 0 <= i < |data| && data[i] < limit
  }

  function IndicesIn(data: seq<int>, lo: int, hi: int): set<int> {
    set i | 0 <= i < |data| && lo <= data[i] < hi
  }

  /** Both counts are numbers of places in the data. */
  lemma {:induction false} CountInPlaces(data: seq<int>, lo: int, hi: int)
    ensures CountIn(data, lo, hi) == |IndicesIn(data, lo, hi)|
  {
    if data != [] {
      var n := |data| - 1;
      CountInPlaces(data[..n], lo, hi);
      var before := IndicesIn(data[..n], lo, hi);
      if lo <= data[n] < hi {
        assert n !in before && IndicesIn(data, lo, hi) == before + {n};
      } else {
        assert IndicesIn(data, lo, hi) == before;
      }
    }
  }

  lemma {:induction false} CountBelowPlaces(data: seq<int>, limit: int)
    ensures CountBelow(data, limit) == |IndicesBelow(data, limit)|
  {
    if data != [] {
      var n := |data| - 1;
      CountBelowPlaces(data[..n], limit);
      var before := IndicesBelow(data[..n], limit);
      if data[n] < limit {
        assert n !in before && IndicesBelow(data, limit) == before + {n};
      } else {
        assert IndicesBelow(data, limit) == before;
      }
    }
  }

  // ---------------------------------------------------------------- percentiles

  /** How many values are smaller than the limit. */
  function CountBelow(data: seq<int>, limit: int): (n: nat)
    ensures n <= |data|
  {
    if data == [] then 0
    else CountBelow(data[..|data| - 1], limit) + if data[|data| - 1] < limit then 1 else 0
  }

  /** The Nearest Rank method: at least the wanted share of the data is no larger than the
      value, and less than that share is smaller. For a share of nothing it is the smallest value. */
  ghost predicate IsNearestRank(data: seq<int>, percent: int, value: int) {
    && value in data
    && (percent <= 0 ==> forall v :: v in data ==> value <= v)
    && (0 < percent ==> 100 * CountBelow(data, value) < |data| * percent <= 100 * CountBelow(data, value + 1))
  }

  method GetPercentile(latencies: seq<int>, percent: int) returns (value: int)
    requires latencies != [] && percent <= 100
    ensures value in latencies
    ensures Sorted(latencies) ==> IsNearestRank(latencies, percent, value)
  {
    var idx := 0;
    if percent > 0 {
      idx := (|latencies| * percent + 99) / 100 - 1;
    }
    IndexInBounds(|latencies|, percent);
    value := latencies[idx];
    if Sorted(latencies) {
      NearestRank(latencies, percent);
    }
  }

  function PercentileIndex(n: nat, percent: int): int {
    if percent > 0 then (n * percent + 99) / 100 - 1 else 0
  }

  /** The index is within bounds, and its rank, index + 1, is the smallest one that covers the
      wanted share of the data. */
  lemma IndexInBounds(n: nat, percent: int)
    requires 0 < n && percent <= 100
    ensures 0 <= PercentileIndex(n, percent) < n
    ensures 0 < percent ==> var rank := PercentileIndex(n, percent) + 1;
                            100 * (rank - 1) < n * percent <= 100 * rank
  {
    if 0 < percent {
      assert 1 <= n * percent <= n * 100;
    }
  }

  lemma IndexMonotone(n: nat, p: int, q: int)
    requires 0 < n && p <= q <= 100
    ensures PercentileIndex(n, p) <= PercentileIndex(n, q)
  {
    IndexInBounds(n, q);
    if 0 < p {
      assert n * p <= n * q;
    }
  }

  /** On sorted data, the value at that index is the one the Nearest Rank method asks for. */
  lemma NearestRank(data: seq<int>, percent: int)
    requires data != [] && Sorted(data) && percent <= 100
    ensures 0 <= PercentileIndex(|data|, percent) < |data|
    ensures IsNearestRank(data, percent, data[PercentileIndex(|data|, percent)])
  {
    IndexInBounds(|data|, percent);
    CountsAround(data, PercentileIndex(|data|, percent));
  }

  /** ... and no other value is. */
  lemma NearestRankUnique(data: seq<int>, percent: int, v: int, w: int)
    requires IsNearestRank(data, percent, v) && IsNearestRank(data, percent, w)
    ensures v == w
  {
    if percent > 0 {
      if v < w {
        BelowMonotone(data, v + 1, w);
      } else if w < v {
        BelowMonotone(data, w + 1, v);
      }
    }
  }

  lemma {:induction false} BelowMonotone(data: seq<int>, limit: int, higher: int)
    requires limit <= higher
    ensures CountBelow(data, limit) <= CountBelow(data, higher)
  {
    if data != [] {
      BelowMonotone(data[..|data| - 1], limit, higher);
    }
  }

  lemma {:induction false} AllBelow(data: seq<int>, limit: int)
    requires forall i :: 0 <= i < |data| ==> data[i] < limit
    ensures CountBelow(data, limit) == |data|
  {
    if data != [] {
      AllBelow(data[..|data| - 1], limit);
    }
  }

  /** Around a place in sorted data: so many values at least are no larger, so many at most are
      smaller. */
  lemma {:induction false} CountsAround(data: seq<int>, idx: nat)
    requires Sorted(data) && idx < |data|
    ensures CountBelow(data, data[idx]) <= idx < CountBelow(data, data[idx] + 1)
  {
    if idx == |data| - 1 {
      AllBelow(data, data[idx] + 1);
    } else {
      CountsAround(data[..|data| - 1], idx);
    }
  }

  // ---------------------------------------------------------------- histogram

  const INTERVAL: int := 5

  /** C++ integer division truncates towards zero. */
  function TruncatedStart(v: int): int {
    if 0 <= v then v / INTERVAL * INTERVAL else -(-v / INTERVAL * INTERVAL)
  }

  /** The start of the interval that contains the value. */
  function BucketStart(v: int): int {
    v / INTERVAL * INTERVAL
  }

  /** One printed line: the start of the bucket, its count, and the count up to it. */
  datatype Row = Row(low: int, count: int, sum: int)

  /** Where the values of the k-th row begin. */
  function Begin(rows: seq<Row>, k: nat): int
    requires k <= |rows|
  {
    if k == 0 then 0 else rows[k - 1].sum
  }

  ghost predicate Below(data: seq<int>, i: int, j: int, limit: int) {
    0 <= i <= j <= |data| && forall k :: i <= k < j ==> data[k] < limit
  }

  /** The k-th row counts the run of values up to the first one that is beyond its interval. */
  ghost predicate RowCountsRun(data: seq<int>, rows: seq<Row>, k: nat)
    requires k < |rows|
  {
    var begin, row := Begin(rows, k), rows[k];
    && 0 <= begin < row.sum <= |data| && row.count == row.sum - begin
    && row.low == TruncatedStart(data[begin])
    && Below(data, begin, row.sum, row.low + INTERVAL)
    && (row.sum < |data| ==> data[row.sum] >= row.low + INTERVAL)
  }

  /** The rows cut the data into such runs. */
  ghost predicate IsHistogram(data: seq<int>, rows: seq<Row>) {
    && (forall k :: 0 <= k < |rows| ==> RowCountsRun(data, rows, k))
    && Begin(rows, |rows|) == |data|
  }

  method Save(latencies: seq<int>) returns (rows: seq<Row>)
    ensures IsHistogram(latencies, rows)
  {
    rows := [];
    if latencies == [] {
      return;
    }
    var low := TruncatedStart(latencies[0]);
    var count, sum := 0, 0;
    for i := 0 to |latencies|
      invariant count == i - sum && 0 <= sum <= i && sum < |latencies| && (0 < i ==> sum < i)
      invariant low == TruncatedStart(latencies[sum]) && Below(latencies, sum, i, low + INTERVAL)
      invariant Begin(rows, |rows|) == sum
      invariant forall k :: 0 <= k < |rows| ==> RowCountsRun(latencies, rows, k)
    {
      if latencies[i] < low + INTERVAL {
        count := count + 1;
      } else {
        sum := sum + count;
        AddRow(latencies, rows, Row(low, count, sum));
        rows := rows + [Row(low, count, sum)];
        low := TruncatedStart(latencies[i]);
        assert latencies[i] < low + INTERVAL;
        count := 1;
      }
    }
    sum := sum + count;
    assert sum == |latencies|;
    AddRow(latencies, rows, Row(low, count, sum));
    rows := rows + [Row(low, count, sum)];
  }

  /** Rows start at multiples of five, and at the first value of their run rounded towards zero. */
  lemma RowsAreFives(data: seq<int>, rows: seq<Row>, k: nat)
    requires IsHistogram(data, rows) && k < |rows|
    ensures 0 <= Begin(rows, k) < |data| && rows[k].low % 5 == 0
    ensures var v := data[Begin(rows, k)];
            if 0 <= v then rows[k].low <= v < rows[k].low + 5 else rows[k].low - 5 < v <= rows[k].low
  {
    assert RowCountsRun(data, rows, k);
  }

  /** The data determine the rows. */
  lemma HistogramUnique(data: seq<int>, a: seq<Row>, b: seq<Row>)
    requires IsHistogram(data, a) && IsHistogram(data, b)
    ensures a == b
  {
    var n := if |a| < |b| then |a| else |b|;
    SameRows(data, a, b, n);
    assert a[..|a|] == a && b[..|b|] == b;
  }

  lemma {:induction false} SameRows(data: seq<int>, a: seq<Row>, b: seq<Row>, n: nat)
    requires IsHistogram(data, a) && IsHistogram(data, b) && n <= |a| && n <= |b|
    ensures a[..n] == b[..n]
    ensures n == |a| <==> n == |b|
  {
    if n > 0 {
      SameRows(data, a, b, n - 1);
      assert RowCountsRun(data, a, n - 1) && RowCountsRun(data, b, n - 1);
      assert Begin(a, n - 1) == Begin(b, n - 1) by {
        assert n > 1 ==> a[..n - 1][n - 2] == b[..n - 1][n - 2];
      }
      var begin := Begin(a, n - 1);
      assert a[n - 1].sum == b[n - 1].sum;
      assert a[..n] == a[..n - 1] + [a[n - 1]] && b[..n] == b[..n - 1] + [b[n - 1]];
    }
    assert n < |a| ==> RowCountsRun(data, a, n);
    assert n < |b| ==> RowCountsRun(data, b, n);
    assert Begin(a, n) == Begin(b, n);
  }

  /** The values 0 and 7 are counted in the rows 0..4 and 5..9. */
  method ZeroAndSeven() returns (rows: seq<Row>)
    ensures rows == [Row(0, 1, 1), Row(5, 1, 2)]
  {
    rows := Save([0, 7]);
    TwoRows();
    HistogramUnique([0, 7], rows, [Row(0, 1, 1), Row(5, 1, 2)]);
  }

  lemma TwoRows()
    ensures IsHistogram([0, 7], [Row(0, 1, 1), Row(5, 1, 2)])
  {
    var rows := [Row(0, 1, 1), Row(5, 1, 2)];
    assert Begin(rows, 0) == 0 && Begin(rows, 1) == 1 && Begin(rows, 2) == 2;
    assert RowCountsRun([0, 7], rows, 0) && RowCountsRun([0, 7], rows, 1);
  }

  lemma AddRow(data: seq<int>, rows: seq<Row>, row: Row)
    requires forall k :: 0 <= k < |rows| ==> RowCountsRun(data, rows, k)
    requires RowCountsRun(data, rows + [row], |rows|)
    ensures forall k :: 0 <= k < |rows| + 1 ==> RowCountsRun(data, rows + [row], k)
  {
    forall k | 0 <= k < |rows|
      ensures RowCountsRun(data, rows + [row], k)
    {
      assert RowCountsRun(data, rows, k) && Begin(rows + [row], k) == Begin(rows, k);
    }
  }

  /** Each row counts all values of its own interval and no others, and the intervals ascend
      without overlap. */
  ghost predicate CountsIntervals(rows: seq<Row>, data: seq<int>) {
    && (forall k :: 0 <= k < |rows| ==> rows[k].count == CountIn(data, rows[k].low, rows[k].low + INTERVAL))
    && (forall k :: 0 < k < |rows| ==> rows[k - 1].low + INTERVAL <= rows[k].low)
  }

  /** Wherever there is a negative value, the value that starts its interval is there as well. */
  ghost predicate NegativesStarted(data: seq<int>) {
    forall v :: v in data && v < 0 ==> BucketStart(v) in data
  }

  /** The histogram of sorted data is right if and only if that holds; so it is right whenever
      no latency is negative. */
  lemma HistogramExact(data: seq<int>, rows: seq<Row>)
    requires Sorted(data) && IsHistogram(data, rows)
    ensures CountsIntervals(rows, data) <==> NegativesStarted(data)
    ensures (forall v :: v in data ==> 0 <= v) ==> CountsIntervals(rows, data)
  {
    if NegativesStarted(data) {
      forall k | 0 <= k < |rows|
        ensures rows[k].count == CountIn(data, rows[k].low, rows[k].low + INTERVAL)
        ensures 0 < k ==> rows[k - 1].low + INTERVAL <= rows[k].low
      {
        assert RowCountsRun(data, rows, k) && (0 < k ==> RowCountsRun(data, rows, k - 1));
        StartedRowIsRight(data, rows, k);
      }
    }
    if CountsIntervals(rows, data) {
      forall v | v in data && v < 0
        ensures BucketStart(v) in data
      {
        var p :| 0 <= p < |data| && data[p] == v;
        var k := RowOf(data, rows, p);
        assert RowCountsRun(data, rows, k) && (0 < k ==> RowCountsRun(data, rows, k - 1));
        RightRowIsStarted(data, rows, k);
      }
    }
  }

  /** A single value of -3: its row starts at 0 and counts it, though it is not in 0..4. */
  lemma NegativeIsMiscounted()
    ensures IsHistogram([-3], [Row(0, 1, 1)]) && !CountsIntervals([Row(0, 1, 1)], [-3])
  {
    assert RowCountsRun([-3], [Row(0, 1, 1)], 0);
    assert CountIn([-3], 0, INTERVAL) == 0;
  }

  /** What lies before a row is smaller than its first value, what lies after it is beyond its
      interval. */
  lemma RowCount(data: seq<int>, rows: seq<Row>, k: nat)
    requires Sorted(data) && k < |rows| && RowCountsRun(data, rows, k)
    requires var begin, low := Begin(rows, k), rows[k].low;
             begin == 0 || data[begin - 1] < low
    ensures CountIn(data, rows[k].low, rows[k].low + INTERVAL)
         == CountIn(data[Begin(rows, k)..rows[k].sum], rows[k].low, rows[k].low + INTERVAL)
  {
    var begin, end, low := Begin(rows, k), rows[k].sum, rows[k].low;
    CountSplit(data, end, low, low + INTERVAL);
    CountNone(data[end..], low, low + INTERVAL);
    CountSplit(data[..end], begin, low, low + INTERVAL);
    assert data[..end][..begin] == data[..begin] && data[..end][begin..] == data[begin..end];
    CountNone(data[..begin], low, low + INTERVAL);
  }

  /** A row begins past the interval of the row before it. */
  lemma RowsAscend(data: seq<int>, rows: seq<Row>, k: nat, p: nat)
    requires Sorted(data) && 0 < k < |rows| && RowCountsRun(data, rows, k - 1) && RowCountsRun(data, rows, k)
    requires p < Begin(rows, k)
    ensures data[p] < rows[k - 1].low + INTERVAL <= BucketStart(data[Begin(rows, k)])
  {
    var begin := Begin(rows, k);
    assert data[p] <= data[begin - 1] < rows[k - 1].low + INTERVAL <= data[begin];
    StartBeyond(data[Begin(rows, k - 1)], data[begin]);
  }

  lemma StartBeyond(u: int, v: int)
    requires TruncatedStart(u) + INTERVAL <= v
    ensures TruncatedStart(u) + INTERVAL <= BucketStart(v)
  {
  }

  lemma StartedRowIsRight(data: seq<int>, rows: seq<Row>, k: nat)
    requires Sorted(data) && k < |rows| && NegativesStarted(data)
    requires RowCountsRun(data, rows, k) && (0 < k ==> RowCountsRun(data, rows, k - 1))
    ensures rows[k].count == CountIn(data, rows[k].low, rows[k].low + INTERVAL)
    ensures 0 < k ==> rows[k - 1].low + INTERVAL <= rows[k].low
  {
    var begin, low := Begin(rows, k), rows[k].low;
    RowStartsInterval(data, rows, k);
    if 0 < k {
      RowsAscend(data, rows, k, begin - 1);
    }
    RowCount(data, rows, k);
    CountAll(data[begin..rows[k].sum], low, low + INTERVAL);
  }

  lemma RowStartsInterval(data: seq<int>, rows: seq<Row>, k: nat)
    requires Sorted(data) && k < |rows| && NegativesStarted(data)
    requires RowCountsRun(data, rows, k) && (0 < k ==> RowCountsRun(data, rows, k - 1))
    ensures rows[k].low == BucketStart(data[Begin(rows, k)])
  {
    var begin := Begin(rows, k);
    if data[begin] < 0 {
      assert data[begin] in data;
      var p :| 0 <= p < |data| && data[p] == BucketStart(data[begin]);
      if p < begin {
        RowsAscend(data, rows, k, p);
        assert false;
      }
    }
  }

  lemma RightRowIsStarted(data: seq<int>, rows: seq<Row>, k: nat)
    requires Sorted(data) && k < |rows|
    requires RowCountsRun(data, rows, k) && (0 < k ==> RowCountsRun(data, rows, k - 1))
    requires rows[k].count == CountIn(data, rows[k].low, rows[k].low + INTERVAL)
    ensures forall p :: Begin(rows, k) <= p < rows[k].sum && data[p] < 0 ==> BucketStart(data[p]) in data
  {
    var begin, low := Begin(rows, k), rows[k].low;
    if data[begin] < low {
      LowStartIsMiscounted(data, rows, k);
      assert false;
    }
    forall p | begin <= p < rows[k].sum && data[p] < 0
      ensures BucketStart(data[p]) in data
    {
      assert data[begin] <= data[p];
      assert data[begin] == low && BucketStart(data[p]) == low;
    }
  }

  /** A row that starts below its interval counts at least its first value too many. */
  lemma LowStartIsMiscounted(data: seq<int>, rows: seq<Row>, k: nat)
    requires Sorted(data) && k < |rows| && RowCountsRun(data, rows, k)
    requires data[Begin(rows, k)] < rows[k].low
    ensures CountIn(data, rows[k].low, rows[k].low + INTERVAL) < rows[k].count
  {
    var begin, low := Begin(rows, k), rows[k].low;
    assert begin > 0 ==> data[begin - 1] <= data[begin];
    RowCount(data, rows, k);
    FirstIsMissed(data[begin..rows[k].sum], low, low + INTERVAL);
  }

  lemma FirstIsMissed(run: seq<int>, lo: int, hi: int)
    requires run != [] && run[0] < lo
    ensures CountIn(run, lo, hi) < |run|
  {
    CountSplit(run, 1, lo, hi);
    CountNone(run[..1], lo, hi);
  }

  /** Every value is in some row. */
  lemma {:induction false} RowOf(data: seq<int>, rows: seq<Row>, p: nat) returns (k: nat)
    requires p < |data| && IsHistogram(data, rows)
    ensures k < |rows| && Begin(rows, k) <= p < rows[k].sum
  {
    k := |rows| - 1;
    while p < Begin(rows, k)
      invariant 0 <= k < |rows| && p < rows[k].sum
      decreases k
    {
      k := k - 1;
    }
  }
}
