/** scripts/time_series_analysis.py: the active daily counts fed to the
    seasonal decomposition, the hourly publication histogram, its peak hour and
    the shift of that hour to Eastern time. The decomposition itself is an
    input: whether it succeeds arrives as a parameter. */
module TimeSeries {
  import opened Wrappers
  import opened Ranking
  import opened Tally
  import opened News

  /** A group key and its size, as a `size()` series holds them. */
  datatype Bucket = Bucket(key: int, count: nat)

  predicate AscendingKeys(s: seq<Bucket>)
  {
    forall i, j :: 0 <= i < j < |s| ==> s[i].key < s[j].key
  }

  /** The buckets for the keys `lo .. lo+n-1`, empty ones included. */
  function RangeBuckets(xs: seq<int>, lo: int, n: nat): seq<Bucket>
  {
    seq(n, i requires 0 <= i < n => Bucket(lo + i, Occurrences(xs, lo + i)))
  }

  function SumCounts(s: seq<Bucket>): nat
  {
    if s == [] then 0 else SumCounts(s[..|s| - 1]) + s[|s| - 1].count
  }

  /** The buckets of a key range count exactly the values in that range. */
  lemma {:induction false} RangeBucketsSum(xs: seq<int>, lo: int, n: nat)
    ensures SumCounts(RangeBuckets(xs, lo, n)) == CountInRange(xs, lo, lo + n)
  {
    if n == 0 {
      CountInRangeEmpty(xs, lo);
    } else {
      assert RangeBuckets(xs, lo, n)[..n - 1] == RangeBuckets(xs, lo, n - 1);
      RangeBucketsSum(xs, lo, n - 1);
      CountInRangeStep(xs, lo, lo + n - 1);
    }
  }

  lemma {:induction false} CountInRangeEmpty(xs: seq<int>, lo: int)
    ensures CountInRange(xs, lo, lo) == 0
  {
    if xs != [] { CountInRangeEmpty(xs[1..], lo); }
  }

  /** `s[s > 0]`: the buckets with a positive count, in order. */
  function Positive(s: seq<Bucket>): (r: seq<Bucket>)
    ensures forall b :: b in r <==> b in s && b.count > 0
    ensures AscendingKeys(s) ==> AscendingKeys(r)
    ensures SumCounts(r) == SumCounts(s)
  {
    if s == [] then []
    else
      var front := Positive(s[..|s| - 1]);
      var last := s[|s| - 1];
      assert forall b :: b in s <==> b in s[..|s| - 1] || b == last;
      if last.count > 0 then
        assert (front + [last])[..|front|] == front;
        assert AscendingKeys(s) ==> forall i :: 0 <= i < |front| ==> front[i].key < last.key by {
          if AscendingKeys(s) {
            forall i | 0 <= i < |front| ensures front[i].key < last.key {
              assert front[i] in s[..|s| - 1];
            }
          }
        }
        front + [last]
      else
        front
  }

  function MinOf(xs: seq<int>): (m: int)
    requires |xs| > 0
    ensures m in xs && forall x :: x in xs ==> m <= x
  {
    if |xs| == 1 then xs[0]
    else
      var m := MinOf(xs[1..]);
      assert forall x :: x in xs ==> x == xs[0] || x in xs[1..];
      if xs[0] <= m then xs[0] else m
  }

  function MaxOf(xs: seq<int>): (m: int)
    requires |xs| > 0
    ensures m in xs && forall x :: x in xs ==> x <= m
  {
    if |xs| == 1 then xs[0]
    else
      var m := MaxOf(xs[1..]);
      assert forall x :: x in xs ==> x == xs[0] || x in xs[1..];
      if xs[0] >= m then xs[0] else m
  }

  /** `df.resample('D').size()` (line 27): one bucket per calendar day from the
      first day to the last, days without articles included. */
  function DailyCounts(days: seq<int>): seq<Bucket>
  {
    if days == [] then [] else RangeBuckets(days, MinOf(days), MaxOf(days) - MinOf(days) + 1)
  }

  /** `daily_counts[daily_counts > 0]` (line 28). */
  function ActiveDailyCounts(days: seq<int>): seq<Bucket>
  {
    Positive(DailyCounts(days))
  }

  lemma RangeBucketsShape(xs: seq<int>, lo: int, n: nat)
    ensures AscendingKeys(RangeBuckets(xs, lo, n))
    ensures forall b :: b in RangeBuckets(xs, lo, n) ==>
      lo <= b.key < lo + n && b.count == Occurrences(xs, b.key)
  {
  }

  /** Dropping the empty buckets of a key range that holds every value leaves
      one bucket per value that occurs, in key order, with its count. */
  lemma PositiveRangeMembers(xs: seq<int>, lo: int, n: nat)
    requires forall x :: x in xs ==> lo <= x < lo + n
    ensures var a := Positive(RangeBuckets(xs, lo, n));
      && AscendingKeys(a)
      && (forall b :: b in a ==> lo <= b.key < lo + n && b.count > 0 && b.count == Occurrences(xs, b.key))
      && (forall v :: v in xs <==> exists b :: b in a && b.key == v)
  {
    var all := RangeBuckets(xs, lo, n);
    var a := Positive(all);
    RangeBucketsShape(xs, lo, n);
    forall v | v in xs ensures exists b :: b in a && b.key == v {
      var b := all[v - lo];
      assert b.key == v && b.count == Occurrences(xs, v) > 0;
      assert b in all;
    }
  }

  /** ... and its counts add up to the number of values. */
  lemma PositiveRangeSum(xs: seq<int>, lo: int, n: nat)
    requires forall x :: x in xs ==> lo <= x < lo + n
    ensures SumCounts(Positive(RangeBuckets(xs, lo, n))) == |xs|
  {
    var all := RangeBuckets(xs, lo, n);
    assert SumCounts(Positive(all)) == SumCounts(all);
    RangeBucketsSum(xs, lo, n);
    CountInRangeAll(xs, lo, lo + n);
  }

  /** The active series has one bucket per day that has articles, in day order,
      holding that day's article count; the counts add up to the articles. */
  lemma ActiveDailyCountsSpec(days: seq<int>)
    ensures var a := ActiveDailyCounts(days);
      && AscendingKeys(a)
      && (forall b :: b in a ==> b.count > 0 && b.count == Occurrences(days, b.key))
      && (forall d :: d in days <==> exists b :: b in a && b.key == d)
      && SumCounts(a) == |days|
  {
    if days != [] {
      var lo := MinOf(days);
      var n := MaxOf(days) - lo + 1;
      assert forall x :: x in days ==> lo <= x < lo + n;
      assert ActiveDailyCounts(days) == Positive(RangeBuckets(days, lo, n));
      PositiveRangeMembers(days, lo, n);
      PositiveRangeSum(days, lo, n);
    }
  }

  /** `df.groupby('publication_hour_utc').size()` (line 64): the hours that
      occur, ascending, with their article counts. */
  function HourlyCounts(hours: seq<Hour>): seq<Bucket>
  {
    Positive(RangeBuckets(hours, 0, 24))
  }

  /** Every bucket is an hour of the day that occurs, with its article count;
      every hour that occurs has a bucket; the counts add up to the articles. */
  lemma HourlyCountsSpec(hours: seq<Hour>)
    ensures var h := HourlyCounts(hours);
      && AscendingKeys(h)
      && (forall b :: b in h ==> 0 <= b.key < 24 && b.count > 0 && b.count == Occurrences(hours, b.key))
      && (forall v :: v in hours <==> exists b :: b in h && b.key == v)
      && SumCounts(h) == |hours|
  {
    PositiveRangeMembers(hours, 0, 24);
    PositiveRangeSum(hours, 0, 24);
  }

  function CountKeys(s: seq<Bucket>): (k: seq<real>)
    ensures |k| == |s|
  {
    seq(|s|, i requires 0 <= i < |s| => s[i].count as real)
  }

  /** `idxmax()` and `max()` of the hourly series (lines 70-71): the bucket of
      the first largest count; an empty series has none. */
  function Peak(hourly: seq<Bucket>): Option<Bucket>
  {
    if hourly == [] then None else Some(hourly[FirstMax(CountKeys(hourly))])
  }

  /** There is a peak exactly when there are articles. The peak hour has the
      largest article count of all 24 hours, and every earlier hour has fewer. */
  lemma PeakHourSpec(hours: seq<Hour>)
    ensures Peak(HourlyCounts(hours)).None? <==> hours == []
    ensures var p := Peak(HourlyCounts(hours));
      p.Some? ==>
        && 0 <= p.value.key < 24
        && p.value.count == Occurrences(hours, p.value.key) > 0
        && (forall v :: 0 <= v < 24 ==> Occurrences(hours, v) <= p.value.count)
        && (forall v :: 0 <= v < p.value.key ==> Occurrences(hours, v) < p.value.count)
  {
    var h := HourlyCounts(hours);
    HourlyCountsSpec(hours);
    if hours != [] {
      assert hours[0] in hours;
      forall v | 0 <= v < 24 && Occurrences(hours, v) > 0
        ensures Occurrences(hours, v) <= Peak(h).value.count
        ensures v < Peak(h).value.key ==> Occurrences(hours, v) < Peak(h).value.count
      {
        var b :| b in h && b.key == v;
        var j :| 0 <= j < |h| && h[j] == b;
        PeakBeats(h, j);
      }
    }
  }

  /** The peak bucket counts at least as much as any bucket, and more than any
      bucket with a smaller key. */
  lemma PeakBeats(h: seq<Bucket>, j: nat)
    requires AscendingKeys(h) && j < |h|
    ensures var p := Peak(h).value;
      h[j].count <= p.count && (h[j].key < p.key ==> h[j].count < p.count)
  {
    var k := CountKeys(h);
    var i := FirstMax(k);
    assert k[j] <= k[i];
    if h[j].key < h[i].key {
      assert j < i;
      assert k[j] < k[i];
    }
  }

  /** Lines 74-75: the peak hour shifted five hours back on a 24-hour clock.
      The guard of line 75 never fires, because `%` with a positive divisor is
      never negative; the shift is undone by adding the five hours back. */
  function EasternHour(utc: int): (et: int)
    ensures 0 <= et < 24
    ensures et == (utc - 5) % 24
    ensures (et + 5) % 24 == utc % 24
  {
    var h := (utc - 5) % 24;
    if h < 0 then h + 24 else h
  }

  /** The Eastern hour is the only hour that the five-hour shift takes back to
      the given UTC hour. */
  lemma EasternHourUnique(utc: Hour, et: int)
    requires 0 <= et < 24 && (et + 5) % 24 == utc
    ensures et == EasternHour(utc)
  {
    if et < 19 {
      assert et + 5 < 24;
    } else {
      assert (et + 5) % 24 == et + 5 - 24;
    }
  }

  lemma EasternHourExample(utc: Hour)
    requires utc == 3
    ensures EasternHour(utc) == 22
  {
  }

  function WithHours(rows: seq<NewsRecord>): (r: seq<NewsRecord>)
    ensures |r| == |rows|
    ensures forall i :: 0 <= i < |r| ==> r[i] == rows[i].(publicationHourUtc := Some(rows[i].stamp.hour))
  {
    seq(|rows|, i requires 0 <= i < |rows| => rows[i].(publicationHourUtc := Some(rows[i].stamp.hour)))
  }

  /** Line 61: every row gets the hour of its timestamp as `publication_hour_utc`. */
  method AddPublicationHour(df: NewsTable)
    modifies df
    ensures df.rows == WithHours(old(df.rows))
  {
    df.rows := WithHours(df.rows);
  }

  function DayColumn(rows: seq<NewsRecord>): seq<int>
  {
    seq(|rows|, i requires 0 <= i < |rows| => rows[i].stamp.day)
  }

  function HourColumn(rows: seq<NewsRecord>): seq<Hour>
    requires forall i :: 0 <= i < |rows| ==> rows[i].publicationHourUtc.Some?
  {
    seq(|rows|, i requires 0 <= i < |rows| => rows[i].publicationHourUtc.value)
  }

  /** How `run_time_series_analysis` ends: the input is missing; the table has
      no rows, so `idxmax` raises `ValueError` and nothing catches it; or the
      hourly profile and its peak were found. `decomposed` says whether the
      decomposition succeeded or its `ValueError` was reported and skipped. */
  datatype TimeSeriesRun =
    | TimingDataMissing
    | NoPeakHour(decomposed: bool, active: seq<Bucket>)
    | Analysed(decomposed: bool, active: seq<Bucket>, hourly: seq<Bucket>,
               peakHourUtc: int, peakCount: nat, peakHourEt: int)

  /** Lines 27-75 as a function of the table's rows. */
  function TimeSeriesOf(rows: seq<NewsRecord>, decompositionSucceeds: bool): TimeSeriesRun
  {
    var active := ActiveDailyCounts(DayColumn(rows));
    var hourly := HourlyCounts(HourColumn(WithHours(rows)));
    match Peak(hourly)
    case None => NoPeakHour(decompositionSucceeds, active)
    case Some(p) =>
      Analysed(decompositionSucceeds, active, hourly, p.key, p.count, EasternHour(p.key))
  }

  /** `run_time_series_analysis` (lines 10-88). */
  method RunTimeSeriesAnalysis(df: Option<NewsTable>, decompositionSucceeds: bool) returns (outcome: TimeSeriesRun)
    modifies if df.Some? then {df.value} else {}
    ensures df.None? ==> outcome == TimingDataMissing
    ensures df.Some? ==> df.value.rows == WithHours(old(df.value.rows))
    ensures df.Some? ==> outcome == TimeSeriesOf(old(df.value.rows), decompositionSucceeds)
  {
    if df.None? {
      return TimingDataMissing;
    }
    var table := df.value;
    var active := ActiveDailyCounts(DayColumn(table.rows));
    AddPublicationHour(table);
    var hourly := HourlyCounts(HourColumn(table.rows));
    var peak := Peak(hourly);
    if peak.None? {
      return NoPeakHour(decompositionSucceeds, active);
    }
    var peakHourUtc := peak.value.key;
    var peakCount := peak.value.count;
    var peakHourEt := EasternHour(peakHourUtc);
    return Analysed(decompositionSucceeds, active, hourly, peakHourUtc, peakCount, peakHourEt);
  }
}
