/** The windowed 95th percentile over cumulative histogram scrapes, restarts and bad scrapes included. */
module HealthHistogram {
  import Sequences
  import opened Wrappers

  /** A scraped number; anything that is not a finite number is Unusable. */
  datatype Number = Finite(value: real) | Unusable

  /** One scraped bucket under a finite bound. */
  datatype Bucket = Bucket(upper: real, count: Number)

  /** A scrape: its finite buckets in no particular order, and the "+Inf" total if it has one. */
  datatype Scrape = Scrape(buckets: seq<Bucket>, total: Option<Number>)

  /** A usable scrape: the counts under the agreed bounds, and the total. */
  datatype Snapshot = Snapshot(counts: seq<real>, total: real)

  datatype Stats = Stats(p95: Option<real>, count: real)

  // ---------------------------------------------------------------------------------------------
  // Bounds and snapshots
  // ---------------------------------------------------------------------------------------------

  predicate LowerBound(a: Bucket, b: Bucket) {
    a.upper < b.upper
  }

  function SortBuckets(bs: seq<Bucket>): seq<Bucket> {
    Sequences.Sort(bs, LowerBound)
  }

  function Uppers(bs: seq<Bucket>): (r: seq<real>)
    ensures |r| == |bs| && forall i :: 0 <= i < |bs| ==> r[i] == bs[i].upper
  {
    seq(|bs|, i requires 0 <= i < |bs| => bs[i].upper)
  }

  /** The bounds of the latest scrape that has a total. */
  function LatestBounds(scrapes: seq<Scrape>): Option<seq<real>> {
    if |scrapes| == 0 then None
    else if scrapes[|scrapes| - 1].total.Some? then Some(Uppers(SortBuckets(scrapes[|scrapes| - 1].buckets)))
    else LatestBounds(scrapes[..|scrapes| - 1])
  }

  predicate NoRepeats(bounds: seq<real>) {
    forall i, j :: 0 <= i < j < |bounds| ==> bounds[i] != bounds[j]
  }

  predicate Rising(counts: seq<real>) {
    forall i :: 0 < i < |counts| ==> counts[i - 1] <= counts[i]
  }

  /** Counts that never fall from bucket to bucket, none negative, the last within the total. */
  predicate Cumulative(counts: seq<real>, total: real) {
    && (forall i :: 0 <= i < |counts| ==> counts[i] >= 0.0)
    && Rising(counts)
    && total >= 0.0
    && (|counts| > 0 ==> counts[|counts| - 1] <= total)
  }

  function Values(bs: seq<Bucket>): (r: seq<real>)
    requires forall i :: 0 <= i < |bs| ==> bs[i].count.Finite?
    ensures |r| == |bs| && forall i :: 0 <= i < |bs| ==> r[i] == bs[i].count.value
  {
    seq(|bs|, i requires 0 <= i < |bs| => bs[i].count.value)
  }

  /** `readSnapshot`. */
  function ReadSnapshot(s: Scrape, bounds: seq<real>): (r: Option<Snapshot>)
    ensures r.Some? ==> |r.value.counts| == |bounds| && Cumulative(r.value.counts, r.value.total)
  {
    var sorted := SortBuckets(s.buckets);
    if Uppers(sorted) != bounds || s.total.None? || s.total.value.Unusable? || s.total.value.value < 0.0 then None
    else if exists i :: 0 <= i < |sorted| && sorted[i].count.Unusable? then None
    else
      var counts := Values(sorted);
      if Cumulative(counts, s.total.value.value) then Some(Snapshot(counts, s.total.value.value)) else None
  }

  // ---------------------------------------------------------------------------------------------
  // Accumulation
  // ---------------------------------------------------------------------------------------------

  datatype Accumulated = Accumulated(increase: seq<real>, total: real, previous: Option<Snapshot>)

  function Deltas(a: Snapshot, b: Snapshot): (r: seq<real>)
    requires |a.counts| == |b.counts|
    ensures |r| == |a.counts| && forall i :: 0 <= i < |r| ==> r[i] == b.counts[i] - a.counts[i]
  {
    seq(|a.counts|, i requires 0 <= i < |a.counts| => b.counts[i] - a.counts[i])
  }

  function Plus(a: seq<real>, b: seq<real>): (r: seq<real>)
    requires |a| == |b|
    ensures |r| == |a| && forall i :: 0 <= i < |r| ==> r[i] == a[i] + b[i]
  {
    seq(|a|, i requires 0 <= i < |a| => a[i] + b[i])
  }

  /** What one observation does: start over, skip a restarted interval, break on a bad one, or add it. */
  function Take(acc: Accumulated, current: Option<Snapshot>): (r: Accumulated)
    requires acc.previous.Some? ==> |acc.previous.value.counts| == |acc.increase|
    requires current.Some? ==> |current.value.counts| == |acc.increase|
    ensures |r.increase| == |acc.increase| && (r.previous.Some? ==> |r.previous.value.counts| == |r.increase|)
  {
    if current.None? then acc.(previous := None)
    else if acc.previous.Some? && current.value.total >= acc.previous.value.total then
      var deltas := Deltas(acc.previous.value, current.value);
      var totalDelta := current.value.total - acc.previous.value.total;
      if !Cumulative(deltas, totalDelta) then acc.(previous := None)
      else Accumulated(Plus(acc.increase, deltas), acc.total + totalDelta, current)
    else acc.(previous := current)
  }

  function Zeros(n: nat): (r: seq<real>)
    ensures |r| == n && forall i :: 0 <= i < n ==> r[i] == 0.0
  {
    seq(n, _ => 0.0)
  }

  function Accumulate(scrapes: seq<Scrape>, bounds: seq<real>): (r: Accumulated)
    ensures |r.increase| == |bounds| && (r.previous.Some? ==> |r.previous.value.counts| == |r.increase|)
  {
    if |scrapes| == 0 then Accumulated(Zeros(|bounds|), 0.0, None)
    else Take(Accumulate(scrapes[..|scrapes| - 1], bounds), ReadSnapshot(scrapes[|scrapes| - 1], bounds))
  }

  lemma PlusKeepsCumulative(a: seq<real>, b: seq<real>, s: real, t: real)
    requires |a| == |b| && Cumulative(a, s) && Cumulative(b, t)
    ensures Cumulative(Plus(a, b), s + t)
  {
  }

  lemma TakeKeepsCumulative(acc: Accumulated, current: Option<Snapshot>)
    requires acc.previous.Some? ==> |acc.previous.value.counts| == |acc.increase|
    requires current.Some? ==> |current.value.counts| == |acc.increase|
    requires Cumulative(acc.increase, acc.total)
    ensures Cumulative(Take(acc, current).increase, Take(acc, current).total)
  {
    hide Cumulative;
    if current.Some? && acc.previous.Some? && current.value.total >= acc.previous.value.total {
      var deltas := Deltas(acc.previous.value, current.value);
      if Cumulative(deltas, current.value.total - acc.previous.value.total) {
        PlusKeepsCumulative(acc.increase, deltas, acc.total, current.value.total - acc.previous.value.total);
      }
    }
  }

  lemma ZerosAreCumulative(n: nat)
    ensures Cumulative(Zeros(n), 0.0)
  {
  }

  /** Through any mix of restarts, malformed scrapes and bad intervals the sums stay a cumulative histogram. */
  lemma {:induction false} SumsStayCumulative(scrapes: seq<Scrape>, bounds: seq<real>)
    ensures var acc := Accumulate(scrapes, bounds); Cumulative(acc.increase, acc.total)
  {
    hide ReadSnapshot, Cumulative, Take;
    if |scrapes| == 0 {
      ZerosAreCumulative(|bounds|);
    } else {
      SumsStayCumulative(scrapes[..|scrapes| - 1], bounds);
      TakeKeepsCumulative(Accumulate(scrapes[..|scrapes| - 1], bounds), ReadSnapshot(scrapes[|scrapes| - 1], bounds));
    }
  }

  /** Every scrape is usable and each grew out of the one before. */
  ghost predicate Uninterrupted(scrapes: seq<Scrape>, bounds: seq<real>) {
    && (forall i :: 0 <= i < |scrapes| ==> ReadSnapshot(scrapes[i], bounds).Some?)
    && (forall i :: 0 < i < |scrapes| ==> GrewFrom(scrapes[i - 1], scrapes[i], bounds))
  }

  ghost predicate GrewFrom(a: Scrape, b: Scrape, bounds: seq<real>)
    requires ReadSnapshot(a, bounds).Some? && ReadSnapshot(b, bounds).Some?
  {
    var x, y := ReadSnapshot(a, bounds).value, ReadSnapshot(b, bounds).value;
    Cumulative(Deltas(x, y), y.total - x.total)
  }

  lemma DeltasAdd(first: Snapshot, before: Snapshot, last: Snapshot)
    requires |first.counts| == |before.counts| == |last.counts|
    ensures Plus(Deltas(first, before), Deltas(before, last)) == Deltas(first, last)
  {
  }

  lemma TakeGrown(first: Snapshot, before: Snapshot, last: Snapshot)
    requires |first.counts| == |before.counts| == |last.counts|
    requires Cumulative(Deltas(before, last), last.total - before.total)
    ensures Take(Accumulated(Deltas(first, before), before.total - first.total, Some(before)), Some(last))
         == Accumulated(Deltas(first, last), last.total - first.total, Some(last))
  {
    DeltasAdd(first, before, last);
  }

  lemma TakeFirst(first: Snapshot)
    ensures Take(Accumulated(Zeros(|first.counts|), 0.0, None), Some(first))
      == Accumulated(Deltas(first, first), 0.0, Some(first))
  {
    assert Deltas(first, first) == Zeros(|first.counts|);
  }

  /** Without interruption the sums telescope to the last scrape less the first. */
  lemma {:induction false} SumsTelescope(scrapes: seq<Scrape>, bounds: seq<real>)
    requires |scrapes| > 0 && Uninterrupted(scrapes, bounds)
    ensures var first := ReadSnapshot(scrapes[0], bounds).value;
      var last := ReadSnapshot(scrapes[|scrapes| - 1], bounds).value;
      Accumulate(scrapes, bounds) == Accumulated(Deltas(first, last), last.total - first.total, Some(last))
  {
    hide ReadSnapshot, Take, Deltas, Zeros;
    var last := ReadSnapshot(scrapes[|scrapes| - 1], bounds).value;
    var init := scrapes[..|scrapes| - 1];
    if |scrapes| == 1 {
      assert Accumulate(init, bounds) == Accumulated(Zeros(|bounds|), 0.0, None);
      TakeFirst(last);
    } else {
      assert forall i :: 0 <= i < |init| ==> init[i] == scrapes[i];
      SumsTelescope(init, bounds);
      assert GrewFrom(scrapes[|scrapes| - 2], scrapes[|scrapes| - 1], bounds);
      TakeGrown(ReadSnapshot(scrapes[0], bounds).value, ReadSnapshot(scrapes[|scrapes| - 2], bounds).value, last);
    }
  }

  // ---------------------------------------------------------------------------------------------
  // The percentile
  // ---------------------------------------------------------------------------------------------

  /** The first bucket that reaches the target, or the number of buckets. */
  function Crossing(increase: seq<real>, target: real): (k: nat)
    ensures k <= |increase|
    ensures k < |increase| ==> increase[k] >= target
    ensures forall i :: 0 <= i < k ==> increase[i] < target
  {
    if |increase| == 0 then 0
    else
      var before := Crossing(increase[..|increase| - 1], target);
      if before < |increase| - 1 then before
      else if increase[|increase| - 1] >= target then |increase| - 1 else |increase|
  }

  /** What the percentile means: inside the first bucket that reaches 95 percent, or the last finite bound. */
  ghost predicate MeansP95(bounds: seq<real>, acc: Accumulated, p95: real)
    requires |acc.increase| == |bounds| > 0
  {
    var k := Crossing(acc.increase, acc.total * 0.95);
    if k < |bounds| then (if k == 0 then 0.0 else bounds[k - 1]) < p95 <= bounds[k] else p95 == bounds[|bounds| - 1]
  }

  lemma CrossingIs(increase: seq<real>, target: real, k: nat)
    requires k <= |increase| && (k < |increase| ==> increase[k] >= target)
    requires forall i :: 0 <= i < k ==> increase[i] < target
    ensures Crossing(increase, target) == k
  {
    hide Crossing;
    var c := Crossing(increase, target);
  }

  ghost predicate StrictlyAscending(bounds: seq<real>) {
    forall i, j :: 0 <= i < j < |bounds| ==> bounds[i] < bounds[j]
  }

  /** The final interpolation loop; `zeroSpan` reports whether its defensive branch was taken. */
  method Interpolate(bounds: seq<real>, increase: seq<real>, total: real) returns (p95: real, zeroSpan: bool)
    requires |increase| == |bounds| > 0 && total >= 1.0 && StrictlyAscending(bounds)
    ensures bounds[0] > 0.0 ==> MeansP95(bounds, Accumulated(increase, total, None), p95)
    ensures !zeroSpan
  {
    hide Crossing;
    var target := total * 0.95;
    var lowerBound, lowerCount := 0.0, 0.0;
    for k := 0 to |bounds|
      invariant lowerBound == if k == 0 then 0.0 else bounds[k - 1]
      invariant lowerCount == if k == 0 then 0.0 else increase[k - 1]
      invariant forall i :: 0 <= i < k ==> increase[i] < target
    {
      var upperBound, count := bounds[k], increase[k];
      if count >= target {
        var span := count - lowerCount;
        CrossingIs(increase, target, k);
        if span <= 0.0 {
          return upperBound, true;
        }
        if bounds[0] > 0.0 {
          Between(lowerBound, upperBound, target - lowerCount, span);
        }
        return lowerBound + (upperBound - lowerBound) * ((target - lowerCount) / span), false;
      }
      lowerBound, lowerCount := upperBound, count;
    }
    CrossingIs(increase, target, |increase|);
    p95, zeroSpan := bounds[|bounds| - 1], false;
  }

  lemma Between(low: real, high: real, part: real, span: real)
    requires low < high && 0.0 < part <= span
    ensures low < low + (high - low) * (part / span) <= high
  {
    var share := part / span;
    assert share * span == part;
    ShareOfOne(share, span, part);
    assert (high - low) * share > 0.0;
    assert (high - low) * (1.0 - share) >= 0.0;
  }

  lemma ShareOfOne(share: real, span: real, part: real)
    requires share * span == part && 0.0 < part <= span
    ensures 0.0 < share <= 1.0
  {
    assert share <= 0.0 ==> share * span <= 0.0;
    assert share > 1.0 ==> (share - 1.0) * span > 0.0;
  }

  lemma BucketsInOrder(bs: seq<Bucket>)
    ensures forall i, j :: 0 <= i < j < |SortBuckets(bs)| ==> SortBuckets(bs)[i].upper <= SortBuckets(bs)[j].upper
  {
    Sequences.SortOrders(bs, LowerBound);
    forall i, j | 0 <= i < j < |SortBuckets(bs)| ensures SortBuckets(bs)[i].upper <= SortBuckets(bs)[j].upper {
      assert !LowerBound(SortBuckets(bs)[j], SortBuckets(bs)[i]);
    }
  }

  lemma {:induction false} BoundsAscend(scrapes: seq<Scrape>)
    requires LatestBounds(scrapes).Some? && NoRepeats(LatestBounds(scrapes).value)
    ensures StrictlyAscending(LatestBounds(scrapes).value)
  {
    var last := scrapes[|scrapes| - 1];
    if last.total.Some? {
      BucketsInOrder(last.buckets);
    } else {
      BoundsAscend(scrapes[..|scrapes| - 1]);
    }
  }

  method AccumulateInPlace(scrapes: seq<Scrape>, bounds: seq<real>) returns (sums: seq<real>, total: real)
    ensures sums == Accumulate(scrapes, bounds).increase && total == Accumulate(scrapes, bounds).total
  {
    hide ReadSnapshot;
    var increase := new real[|bounds|](_ => 0.0);
    total := 0.0;
    var previous: Option<Snapshot> := None;
    for k := 0 to |scrapes|
      invariant Accumulate(scrapes[..k], bounds) == Accumulated(increase[..], total, previous)
      invariant fresh(increase) && increase.Length == |bounds|
    {
      assert scrapes[..k + 1][..k] == scrapes[..k];
      SnapshotSize(scrapes[k], bounds);
      var current := ReadSnapshot(scrapes[k], bounds);
      if current.None? {
        previous := None;
        continue;
      }
      if previous.Some? && current.value.total >= previous.value.total {
        var deltas := Deltas(previous.value, current.value);
        var totalDelta := current.value.total - previous.value.total;
        if !Cumulative(deltas, totalDelta) {
          previous := None;
          continue;
        }
        AddInPlace(increase, deltas);
        total := total + totalDelta;
      }
      previous := current;
    }
    assert scrapes[..|scrapes|] == scrapes;
    sums := increase[..];
  }

  lemma SnapshotSize(s: Scrape, bounds: seq<real>)
    ensures ReadSnapshot(s, bounds).Some? ==> |ReadSnapshot(s, bounds).value.counts| == |bounds|
  {
  }

  method AddInPlace(increase: array<real>, deltas: seq<real>)
    requires |deltas| == increase.Length
    modifies increase
    ensures increase[..] == Plus(old(increase[..]), deltas)
  {
    for index := 0 to |deltas|
      invariant forall i :: 0 <= i < index ==> increase[i] == old(increase[i]) + deltas[i]
      invariant forall i :: index <= i < increase.Length ==> increase[i] == old(increase[i])
    {
      increase[index] := increase[index] + deltas[index];
    }
  }

  /**
   `histogramStatsFor`: with sound positive bounds a percentile is given exactly when at least one
   sample was counted, and it means what it says; without bounds there is none.
   */
  method HistogramStats(scrapes: seq<Scrape>) returns (r: Stats)
    ensures var latest := LatestBounds(scrapes);
      if latest.None? || latest.value == [] || !NoRepeats(latest.value)
        || Accumulate(scrapes, latest.value).total < 1.0 then
        r == Stats(None, 0.0)
      else
        && r.count == Accumulate(scrapes, latest.value).total && r.p95.Some?
        && (latest.value[0] > 0.0 ==> MeansP95(latest.value, Accumulate(scrapes, latest.value), r.p95.value))
  {
    hide LatestBounds, Cumulative;
    var latest := LatestBounds(scrapes);
    if latest.None? {
      return Stats(None, 0.0);
    }
    var bounds := latest.value;
    if |bounds| == 0 || !NoRepeats(bounds) {
      return Stats(None, 0.0);
    }
    var increase, total := AccumulateInPlace(scrapes, bounds);
    if total < 1.0 {
      return Stats(None, 0.0);
    }
    SumsStayCumulative(scrapes, bounds);
    BoundsAscend(scrapes);
    var p95, _ := Interpolate(bounds, increase, total);
    r := Stats(Some(p95), total);
  }
}
