/**
 The coalescing retry scheduler behind observer callbacks: many requests, one run at a time per
 domain, and no request lost short of a stop.
 */
module Reconciliation {
  import opened Wrappers

  const MAX_SAFE_INTEGER := 0x1F_FFFF_FFFF_FFFF

  // ---------------------------------------------------------------------------------------------
  // Requests and their ledger
  // ---------------------------------------------------------------------------------------------

  datatype Height = Absent | Given(value: int)
  datatype CallbackTime = NoCallback | ReceivedAt(ms: int) | Unparsable
  datatype Anchor = Anchor(stacks: Height, burn: Height, callback: CallbackTime)

  const NO_ANCHOR := Anchor(Absent, Absent, NoCallback)

  predicate SafeHeight(h: Height) {
    h.Absent? || 0 <= h.value <= MAX_SAFE_INTEGER
  }

  /** The anchors `request` accepts without throwing. */
  predicate WellFormed(a: Anchor) {
    SafeHeight(a.stacks) && SafeHeight(a.burn) && !a.callback.Unparsable?
  }

  function Max(a: int, b: int): int {
    if a < b then b else a
  }

  function Min(a: int, b: int): int {
    if a < b then a else b
  }

  /** `maxHeight` for a height it does not reject. */
  function MaxHeight(current: Option<int>, next: Height): Option<int> {
    if next.Absent? then current
    else if current.None? then Some(next.value) else Some(Max(current.value, next.value))
  }

  function Earlier(a: Option<int>, b: Option<int>): Option<int> {
    if a.None? then b else if b.None? then a else Some(Min(a.value, b.value))
  }

  /** A run, `began` requests having been made before it, with the heights and callback it captured. */
  datatype Run = Run(began: nat, stacks: Option<int>, burn: Option<int>, callback: Option<int>)

  datatype Place = Waiting | InRun | ServedBy(run: Run) | Dropped

  /** One request as its caller meant it, and what became of it. */
  datatype Entry = Entry(stacks: Height, burn: Height, callback: Option<int>, place: Place)

  /** Every request ever made, in order: each is in exactly one place. */
  type Ledger = seq<Entry>

  predicate Reaches(bound: Option<int>, h: Height) {
    h.Given? ==> bound.Some? && bound.value >= h.value
  }

  predicate NotBelow(a: Option<int>, b: Option<int>) {
    a.Some? ==> b.Some? && b.value >= a.value
  }

  /** Every request placed so far is within these heights. */
  ghost predicate Reached(l: Ledger, place: Place, stacks: Option<int>, burn: Option<int>) {
    forall k :: 0 <= k < |l| && l[k].place == place ==> Reaches(stacks, l[k].stacks) && Reaches(burn, l[k].burn)
  }

  ghost predicate MadeBefore(l: Ledger, place: Place, began: nat) {
    forall k :: 0 <= k < |l| && l[k].place == place ==> k < began
  }

  /** The run began after the request was made and was asked for at least its heights. */
  predicate Covers(run: Run, k: nat, e: Entry) {
    k < run.began && Reaches(run.stacks, e.stacks) && Reaches(run.burn, e.burn)
  }

  ghost predicate ServedAreCovered(l: Ledger) {
    forall k :: 0 <= k < |l| && l[k].place.ServedBy? ==> Covers(l[k].place.run, k, l[k])
  }

  ghost predicate Any(l: Ledger, place: Place) {
    exists k :: 0 <= k < |l| && l[k].place == place
  }

  function EarliestCallback(l: Ledger, place: Place): Option<int> {
    if |l| == 0 then None
    else
      var last := l[|l| - 1];
      Earlier(EarliestCallback(l[..|l| - 1], place), if last.place == place then last.callback else None)
  }

  /** It is the earliest: no request in that place is earlier, and it belongs to one of them. */
  lemma {:induction false} EarliestCallbackIsLeast(l: Ledger, place: Place)
    ensures var e := EarliestCallback(l, place);
      && (forall k :: 0 <= k < |l| && l[k].place == place && l[k].callback.Some? ==>
            e.Some? && e.value <= l[k].callback.value)
      && (e.Some? ==> exists k :: 0 <= k < |l| && l[k].place == place && l[k].callback == e)
  {
    if |l| > 0 {
      var init, last := l[..|l| - 1], l[|l| - 1];
      EarliestCallbackIsLeast(init, place);
      assert forall k :: 0 <= k < |init| ==> init[k] == l[k];
      var before := EarliestCallback(init, place);
      if before.Some? {
        var k :| 0 <= k < |init| && init[k].place == place && init[k].callback == before;
        assert l[k].callback == before;
      }
    }
  }

  /** Everything in one place goes to another. */
  function Move(l: Ledger, from: Place, to: Place): (r: Ledger)
    ensures |r| == |l|
    ensures forall k :: 0 <= k < |l| ==> r[k] == if l[k].place == from then l[k].(place := to) else l[k]
  {
    if |l| == 0 then []
    else
      var last := l[|l| - 1];
      Move(l[..|l| - 1], from, to) + [if last.place == from then last.(place := to) else last]
  }

  lemma EarlierIsAssociative(a: Option<int>, b: Option<int>, c: Option<int>, d: Option<int>)
    ensures Earlier(Earlier(a, c), Earlier(b, d)) == Earlier(Earlier(a, b), Earlier(c, d))
  {
  }

  lemma {:induction false} MoveMovesCallback(l: Ledger, from: Place, to: Place)
    requires from != to
    ensures EarliestCallback(Move(l, from, to), from) == None
    ensures EarliestCallback(Move(l, from, to), to) == Earlier(EarliestCallback(l, to), EarliestCallback(l, from))
  {
    hide Earlier;
    EarlierFacts();
    if |l| > 0 {
      var init, last, moved := l[..|l| - 1], l[|l| - 1], Move(l, from, to);
      MoveMovesCallback(init, from, to);
      assert moved[..|moved| - 1] == Move(init, from, to);
      EarlierIsAssociative(EarliestCallback(init, to), EarliestCallback(init, from),
                           if last.place == to then last.callback else None,
                           if last.place == from then last.callback else None);
    }
  }

  lemma EarlierFacts()
    ensures forall a :: Earlier(a, None) == a && Earlier(None, a) == a
  {
  }

  lemma {:induction false} MoveKeepsCallback(l: Ledger, from: Place, to: Place, other: Place)
    requires other != from && other != to
    ensures EarliestCallback(Move(l, from, to), other) == EarliestCallback(l, other)
  {
    if |l| > 0 {
      var moved := Move(l, from, to);
      MoveKeepsCallback(l[..|l| - 1], from, to, other);
      assert moved[..|moved| - 1] == Move(l[..|l| - 1], from, to);
    }
  }

  /** What a domain's fields say of its ledger. */
  ghost predicate Fits(l: Ledger, pending: bool, running: bool, stacks: Option<int>, burn: Option<int>,
                       callback: Option<int>, run: Run) {
    && (pending <==> Any(l, Waiting))
    && (running <==> Any(l, InRun))
    && callback == EarliestCallback(l, Waiting)
    && (running ==> run.callback == EarliestCallback(l, InRun))
    && Reached(l, Waiting, stacks, burn) && Reached(l, InRun, stacks, burn)
    && Reached(l, InRun, run.stacks, run.burn) && MadeBefore(l, InRun, run.began)
    && ServedAreCovered(l)
  }

  /** A new request joins those waiting. */
  lemma NotingFits(l: Ledger, pending: bool, running: bool, s0: Option<int>, b0: Option<int>,
                   callback: Option<int>, run: Run, e: Entry, s1: Option<int>, b1: Option<int>)
    requires Fits(l, pending, running, s0, b0, callback, run) && e.place == Waiting
    requires NotBelow(s0, s1) && NotBelow(b0, b1) && Reaches(s1, e.stacks) && Reaches(b1, e.burn)
    ensures Fits(l + [e], true, running, s1, b1, Earlier(callback, e.callback), run)
  {
    var next := l + [e];
    assert next[..|l|] == l;
    assert next[|l|] == e;
    if k :| 0 <= k < |l| && l[k].place == InRun {
      assert next[k].place == InRun;
    }
  }

  /** What a move leaves alone, what it empties and what it fills. */
  lemma MoveKeepsPlace(l: Ledger, from: Place, to: Place, other: Place)
    requires other != from && other != to
    ensures Any(Move(l, from, to), other) <==> Any(l, other)
    ensures forall s, b :: Reached(l, other, s, b) ==> Reached(Move(l, from, to), other, s, b)
    ensures forall n :: MadeBefore(l, other, n) ==> MadeBefore(Move(l, from, to), other, n)
  {
    MoveKeepsAny(l, from, to, other);
    hide Move, Any, Reaches;
  }

  lemma MoveKeepsAny(l: Ledger, from: Place, to: Place, other: Place)
    requires other != from && other != to
    ensures Any(Move(l, from, to), other) <==> Any(l, other)
  {
    hide Move;
    if k :| 0 <= k < |l| && l[k].place == other {
      assert Move(l, from, to)[k].place == other;
    }
    if k :| 0 <= k < |l| && Move(l, from, to)[k].place == other {
      assert l[k].place == other;
    }
  }

  lemma MoveEmpties(l: Ledger, from: Place, to: Place)
    requires from != to
    ensures !Any(Move(l, from, to), from)
    ensures forall s, b :: Reached(Move(l, from, to), from, s, b)
    ensures forall n :: MadeBefore(Move(l, from, to), from, n)
  {
    hide Move, Reaches;
  }

  lemma MoveFills(l: Ledger, from: Place, to: Place)
    requires from != to
    ensures Any(l, from) ==> Any(Move(l, from, to), to)
    ensures forall s, b :: Reached(l, from, s, b) && Reached(l, to, s, b) ==> Reached(Move(l, from, to), to, s, b)
    ensures MadeBefore(Move(l, from, to), to, |l|)
  {
    hide Move, Reaches;
    if k :| 0 <= k < |l| && l[k].place == from {
      assert Move(l, from, to)[k].place == to;
    }
  }

  lemma MoveKeepsCovered(l: Ledger, from: Place, to: Place)
    requires ServedAreCovered(l) && !from.ServedBy?
    requires to.ServedBy? ==> MadeBefore(l, from, to.run.began) && Reached(l, from, to.run.stacks, to.run.burn)
    ensures ServedAreCovered(Move(l, from, to))
  {
    var next := Move(l, from, to);
    forall k | 0 <= k < |next| && next[k].place.ServedBy? ensures Covers(next[k].place.run, k, next[k]) {
      assert l[k].place == from || l[k].place.ServedBy?;
    }
  }

  /** A run takes everything that waits. */
  lemma RunBeginsFits(l: Ledger, stacks: Option<int>, burn: Option<int>, callback: Option<int>, run: Run)
    requires Fits(l, true, false, stacks, burn, callback, run)
    ensures Fits(Move(l, Waiting, InRun), false, true, stacks, burn, None, Run(|l|, stacks, burn, callback))
  {
    NoneInRun(l);
    hide Any, Reached, MadeBefore, ServedAreCovered, Move, EarliestCallback;
    MoveMovesCallback(l, Waiting, InRun);
    MoveEmpties(l, Waiting, InRun);
    MoveFills(l, Waiting, InRun);
    MoveKeepsCovered(l, Waiting, InRun);
    EarlierFacts();
  }

  lemma NoneInRun(l: Ledger)
    ensures !Any(l, InRun) ==> EarliestCallback(l, InRun).None?
  {
    EarliestCallbackIsLeast(l, InRun);
  }

  /** A run ends and its requests go to a place where none waits or runs. */
  lemma RunEndsFits(l: Ledger, pending: bool, stacks: Option<int>, burn: Option<int>, callback: Option<int>, run: Run,
                    to: Place)
    requires Fits(l, pending, true, stacks, burn, callback, run)
    requires to == ServedBy(run) || to == Dropped
    ensures Fits(Move(l, InRun, to), pending, false, stacks, burn, callback, run)
  {
    hide Any, Reached, MadeBefore, ServedAreCovered, Move, EarliestCallback;
    MoveKeepsCallback(l, InRun, to, Waiting);
    MoveKeepsPlace(l, InRun, to, Waiting);
    MoveEmpties(l, InRun, to);
    MoveKeepsCovered(l, InRun, to);
  }

  /** A failed run's requests wait again, their earliest callback with them. */
  lemma RunFailsFits(l: Ledger, pending: bool, stacks: Option<int>, burn: Option<int>, callback: Option<int>, run: Run)
    requires Fits(l, pending, true, stacks, burn, callback, run)
    ensures Fits(Move(l, InRun, Waiting), true, false, stacks, burn, Earlier(callback, run.callback), run)
  {
    hide Any, Reached, MadeBefore, ServedAreCovered, Move, EarliestCallback;
    MoveMovesCallback(l, InRun, Waiting);
    MoveEmpties(l, InRun, Waiting);
    MoveFills(l, InRun, Waiting);
    MoveKeepsCovered(l, InRun, Waiting);
  }

  /** Stopping drops everything that waits; a run in progress is left to settle. */
  lemma StopFits(l: Ledger, pending: bool, running: bool, stacks: Option<int>, burn: Option<int>, callback: Option<int>,
                 run: Run)
    requires Fits(l, pending, running, stacks, burn, callback, run)
    ensures Fits(Move(l, Waiting, Dropped), false, running, stacks, burn, None, run)
  {
    hide Any, Reached, MadeBefore, ServedAreCovered, Move, EarliestCallback;
    MoveMovesCallback(l, Waiting, Dropped);
    MoveKeepsCallback(l, Waiting, Dropped, InRun);
    MoveKeepsPlace(l, Waiting, Dropped, InRun);
    MoveEmpties(l, Waiting, Dropped);
    MoveKeepsCovered(l, Waiting, Dropped);
  }

  /** Later states of a ledger: requests are added at the end, and served or dropped ones stay so. */
  ghost predicate Follows(before: Ledger, after: Ledger) {
    && |before| <= |after|
    && forall k :: 0 <= k < |before| ==>
         && after[k].(place := Waiting) == before[k].(place := Waiting)
         && (before[k].place.ServedBy? || before[k].place.Dropped? ==> after[k] == before[k])
  }

  ghost predicate NothingDropped(before: Ledger, after: Ledger) {
    forall k :: 0 <= k < |after| && after[k].place.Dropped? ==> k < |before| && before[k].place.Dropped?
  }

  /** Dropped by a stop, or taken by a run that a stop has cut off and that will drop it if it fails. */
  predicate Doomed(e: Entry, started: bool) {
    e.place.Dropped? || (e.place.InRun? && !started)
  }

  ghost predicate NoneNewlyDoomed(before: Ledger, wasStarted: bool, after: Ledger, started: bool) {
    forall k :: 0 <= k < |after| && Doomed(after[k], started) ==> k < |before| && Doomed(before[k], wasStarted)
  }

  /** The requests served between two states were served by this run. */
  ghost predicate NewlyServed(before: Ledger, after: Ledger, served: Option<Run>) {
    forall k :: 0 <= k < |after| && after[k].place.ServedBy? && !(k < |before| && before[k].place.ServedBy?) ==>
      served == Some(after[k].place.run)
  }

  /** What any event but a stop may do to a ledger; `served` is the run it settled successfully. */
  ghost predicate LedgerStep(before: Ledger, after: Ledger, started: bool, served: Option<Run>) {
    || after == before
    || (|after| == |before| + 1 && after[..|before|] == before && after[|before|].place == Waiting)
    || (started && after == Move(before, Waiting, InRun))
    || after == Move(before, InRun, Waiting)
    || (!started && after == Move(before, InRun, Dropped))
    || (served.Some? && after == Move(before, InRun, ServedBy(served.value)))
  }

  lemma StepFollows(before: Ledger, after: Ledger, started: bool, served: Option<Run>)
    requires LedgerStep(before, after, started, served)
    ensures Follows(before, after) && NewlyServed(before, after, served)
  {
    assert |after| == |before| + 1 ==> forall k :: 0 <= k < |before| ==> after[k] == after[..|before|][k];
  }

  lemma StepDooms(before: Ledger, after: Ledger, wasStarted: bool, started: bool, served: Option<Run>)
    requires LedgerStep(before, after, started, served) && (wasStarted ==> started)
    ensures NoneNewlyDoomed(before, wasStarted, after, started)
  {
    assert |after| == |before| + 1 ==> forall k :: 0 <= k < |before| ==> after[k] == after[..|before|][k];
  }

  lemma StopFollows(before: Ledger)
    ensures Follows(before, Move(before, Waiting, Dropped)) && NewlyServed(before, Move(before, Waiting, Dropped), None)
  {
  }

  lemma FollowsIsTransitive(a: Ledger, b: Ledger, c: Ledger)
    requires Follows(a, b) && Follows(b, c)
    ensures Follows(a, c)
  {
    forall k | 0 <= k < |a|
      ensures c[k].(place := Waiting) == a[k].(place := Waiting)
      ensures a[k].place.ServedBy? || a[k].place.Dropped? ==> c[k] == a[k]
    {
      assert b[k].(place := Waiting) == a[k].(place := Waiting);
    }
  }

  lemma DoomIsTransitive(a: Ledger, x: bool, b: Ledger, y: bool, c: Ledger, z: bool)
    requires NoneNewlyDoomed(a, x, b, y) && NoneNewlyDoomed(b, y, c, z)
    ensures NoneNewlyDoomed(a, x, c, z)
  {
  }

  // ---------------------------------------------------------------------------------------------
  // Callback latency
  // ---------------------------------------------------------------------------------------------

  datatype Latency = Latency(samples: nat, sumMs: nat, maxMs: nat, lastMs: Option<nat>, withinTwoSeconds: nat,
                             le1: nat, le2: nat, le5: nat, le10: nat, le30: nat)

  const NO_LATENCY := Latency(0, 0, 0, None, 0, 0, 0, 0, 0, 0)

  /** `recordCallbackLatency`, in milliseconds. */
  function RecordLatency(l: Latency, ms: int): Latency {
    var latency := Max(0, ms);
    var hit := (bound: int) => if latency <= bound then 1 else 0;
    Latency(l.samples + 1, l.sumMs + latency, Max(l.maxMs, latency), Some(latency), l.withinTwoSeconds + hit(2000),
            l.le1 + hit(1000), l.le2 + hit(2000), l.le5 + hit(5000), l.le10 + hit(10_000), l.le30 + hit(30_000))
  }

  function Sum(ms: seq<nat>): nat {
    if |ms| == 0 then 0 else Sum(ms[..|ms| - 1]) + ms[|ms| - 1]
  }

  function CountWithin(ms: seq<nat>, bound: int): nat {
    if |ms| == 0 then 0 else CountWithin(ms[..|ms| - 1], bound) + if ms[|ms| - 1] <= bound then 1 else 0
  }

  /** The statistics summarise exactly these latencies. */
  ghost predicate Summarises(l: Latency, ms: seq<nat>) {
    && l.samples == |ms| && l.sumMs == Sum(ms)
    && (forall i :: 0 <= i < |ms| ==> ms[i] <= l.maxMs)
    && (if |ms| == 0 then l.maxMs == 0 && l.lastMs.None? else l.maxMs in ms && l.lastMs == Some(ms[|ms| - 1]))
    && l.le1 == CountWithin(ms, 1000) && l.le2 == CountWithin(ms, 2000) && l.le5 == CountWithin(ms, 5000)
    && l.le10 == CountWithin(ms, 10_000) && l.le30 == CountWithin(ms, 30_000)
    && l.withinTwoSeconds == l.le2
  }

  lemma RecordingSummarises(l: Latency, ms: seq<nat>, sample: int)
    requires Summarises(l, ms)
    ensures Summarises(RecordLatency(l, sample), ms + [Max(0, sample)])
  {
    var next := ms + [Max(0, sample)];
    assert next[..|next| - 1] == ms;
    if |ms| > 0 {
      var i :| 0 <= i < |ms| && ms[i] == l.maxMs;
      assert next[i] == l.maxMs;
    }
    assert next[|ms|] == Max(0, sample);
  }

  /** The buckets are cumulative. */
  lemma {:induction false} BucketsAreCumulative(ms: seq<nat>, low: int, high: int)
    requires low <= high
    ensures CountWithin(ms, low) <= CountWithin(ms, high) <= |ms|
  {
    if |ms| > 0 {
      BucketsAreCumulative(ms[..|ms| - 1], low, high);
    }
  }

  // ---------------------------------------------------------------------------------------------
  // Retry delays
  // ---------------------------------------------------------------------------------------------

  function Power2(n: nat): nat {
    if n == 0 then 1 else 2 * Power2(n - 1)
  }

  datatype Outcome = Succeeded | Failed | RateLimited(retryAfterMs: Option<int>)

  function RetryDelay(o: Outcome, failures: nat, failureDelayMs: nat, maxBackoffMs: nat): int {
    if o.RateLimited? && o.retryAfterMs.Some? then Min(maxBackoffMs, Max(1_000, o.retryAfterMs.value))
    else Min(maxBackoffMs, failureDelayMs * Power2(if failures == 0 then 0 else failures - 1))
  }

  lemma {:induction false} Power2Grows(n: nat, m: nat)
    requires n <= m
    ensures 1 <= Power2(n) <= Power2(m)
  {
    if n < m {
      Power2Grows(n, m - 1);
    } else if n > 0 {
      Power2Grows(n - 1, m - 1);
    }
  }

  predicate NamesItsDelay(o: Outcome) {
    o.RateLimited? && o.retryAfterMs.Some?
  }

  /**
   The delays after any two failures of a series, the n-th and a later m-th. Both are positive and
   bounded. Backoff alone never shortens the wait. A rate limit that names a delay shortens it exactly when
   that delay, from a second up, is the smaller one, and a backoff that follows a named delay exactly when
   it is smaller than that.
   */
  lemma BackoffIsBoundedAndMonotone(o: Outcome, p: Outcome, n: nat, m: nat, failureDelayMs: nat, maxBackoffMs: nat)
    requires 1 <= n <= m && !o.Succeeded? && !p.Succeeded? && failureDelayMs >= 1 && maxBackoffMs >= 1
    ensures var (x, y) := (RetryDelay(o, n, failureDelayMs, maxBackoffMs),
                           RetryDelay(p, m, failureDelayMs, maxBackoffMs));
      && 1 <= x <= maxBackoffMs && 1 <= y <= maxBackoffMs
      && (!NamesItsDelay(o) && !NamesItsDelay(p) ==> x <= y)
      && (NamesItsDelay(p) ==> (y < x <==> Max(1_000, p.retryAfterMs.value) < x))
      && (NamesItsDelay(o) && !NamesItsDelay(p) ==> (y < x <==> failureDelayMs * Power2(m - 1) < x))
      && (NamesItsDelay(p) && maxBackoffMs >= Max(1_000, p.retryAfterMs.value) ==>
          y == Max(1_000, p.retryAfterMs.value))
  {
    hide Power2;
    Power2Grows(n - 1, m - 1);
    Scales(failureDelayMs, 1, Power2(n - 1));
    Scales(failureDelayMs, 1, Power2(m - 1));
    Scales(failureDelayMs, Power2(n - 1), Power2(m - 1));
  }

  lemma Scales(d: nat, a: nat, b: nat)
    requires a <= b
    ensures d * a <= d * b
  {
  }

  // ---------------------------------------------------------------------------------------------
  // One domain
  // ---------------------------------------------------------------------------------------------

  class Domain {
    var pending: bool
    var running: bool
    var timer: Option<int>
    var nextRetryAt: Option<int>
    var requests: nat
    var coalescedRequests: nat
    var successes: nat
    var failuresTotal: nat
    var consecutiveFailures: nat
    var requestedStacksHeight: Option<int>
    var requestedBurnHeight: Option<int>
    var pendingCallback: Option<int>
    var run: Run
    var aborted: bool
    var latency: Latency
    const failureDelayMs: nat
    const maxBackoffMs: nat
    /** The requests made so far and their places; the source keeps only the summaries above. */
    ghost var ledger: Ledger
    ghost var latencies: seq<nat>

    ghost predicate Books()
      reads `ledger, `pending, `running, `requests, `requestedStacksHeight, `requestedBurnHeight, `pendingCallback, `run
    {
      requests == |ledger| && Fits(ledger, pending, running, requestedStacksHeight, requestedBurnHeight,
                                   pendingCallback, run)
    }

    /** Never a run and a timer at once, and a timer only for work that is due. */
    ghost predicate Clocks(started: bool)
      reads `pending, `running, `timer, `nextRetryAt, `aborted
    {
      && !(running && timer.Some?)
      && (running && !started ==> aborted)
      && (timer.Some? ==> started && pending)
      && (nextRetryAt.Some? ==> timer == nextRetryAt)
    }

    ghost predicate Statistics()
      reads `latency, `latencies, `successes
    {
      Summarises(latency, latencies) && |latencies| <= successes
    }

    /** What holds in every reachable state, whatever was requested. */
    ghost predicate Valid(started: bool)
      reads this
    {
      failureDelayMs >= 1 && maxBackoffMs >= 1 && Books() && Clocks(started) && Statistics()
    }

    /** Work that is due is being done or has a timer. */
    ghost predicate Armed(started: bool)
      reads this
    {
      started && pending ==> running || timer.Some?
    }

    constructor (failureDelay: nat, maxBackoff: nat)
      requires failureDelay >= 1 && maxBackoff >= 1
      ensures Valid(false) && !pending && !running && timer.None?
      ensures ledger == [] && failureDelayMs == failureDelay && maxBackoffMs == maxBackoff
    {
      failureDelayMs, maxBackoffMs := failureDelay, maxBackoff;
      pending, running, aborted := false, false, false;
      timer, nextRetryAt, pendingCallback := None, None, None;
      requests, coalescedRequests, successes, failuresTotal, consecutiveFailures := 0, 0, 0, 0, 0;
      requestedStacksHeight, requestedBurnHeight := None, None;
      run := Run(0, None, None, None);
      latency := NO_LATENCY;
      ledger := [];
      latencies := [];
    }

    /** `#schedule`. */
    method Schedule(started: bool, delayMs: nat, now: int)
      modifies this`timer, this`nextRetryAt
      ensures if !started || old(timer).Some? || running then timer == old(timer) && nextRetryAt == old(nextRetryAt)
              else timer == Some(now + delayMs) && nextRetryAt == if delayMs > 0 then timer else None
    {
      if !started || timer.Some? || running {
        return;
      }
      nextRetryAt := if delayMs > 0 then Some(now + delayMs) else None;
      timer := Some(now + delayMs);
    }

    /**
     `request`. The prompt is waiting afterwards, unless its anchor is malformed: then the call throws
     with `pending` already set and no timer armed.
     */
    method Request(started: bool, anchor: Anchor, now: int) returns (threw: bool)
      requires Valid(started)
      modifies `pending, `requests, `coalescedRequests, `requestedStacksHeight, `requestedBurnHeight, `pendingCallback,
        `ledger, `timer, `nextRetryAt
      ensures !threw ==>
        && requestedStacksHeight == MaxHeight(old(requestedStacksHeight), anchor.stacks)
        && requestedBurnHeight == MaxHeight(old(requestedBurnHeight), anchor.burn)
      ensures Valid(started)
      ensures threw <==> !WellFormed(anchor)
      ensures !threw ==> Armed(started)
      ensures threw ==> (Armed(started) <==> !started || running || timer.Some?)
      ensures pending && requests == old(requests) + 1
      ensures coalescedRequests == old(coalescedRequests) + if old(pending || running) then 1 else 0
      ensures ledger == old(ledger) + [Noted(anchor)]
      ensures timer == if old(timer).Some? || threw || !started || running then old(timer) else Some(now)
    {
      threw := Enter(anchor);
      if !threw && started && !running && timer.None? {
        Schedule(started, 0, now);
      }
    }

    /** Everything `request` does before it schedules. */
    method Enter(anchor: Anchor) returns (threw: bool)
      requires Books()
      modifies `pending, `requests, `coalescedRequests, `requestedStacksHeight, `requestedBurnHeight,
        `pendingCallback, `ledger
      ensures Books()
      ensures threw <==> !WellFormed(anchor)
      ensures pending && requests == old(requests) + 1
      ensures coalescedRequests == old(coalescedRequests) + if old(pending || running) then 1 else 0
      ensures ledger == old(ledger) + [Noted(anchor)]
      ensures !threw ==>
        && requestedStacksHeight == MaxHeight(old(requestedStacksHeight), anchor.stacks)
        && requestedBurnHeight == MaxHeight(old(requestedBurnHeight), anchor.burn)
    {
      if pending || running {
        coalescedRequests := coalescedRequests + 1;
      }
      requests := requests + 1;
      pending := true;
      threw := Raise(anchor);
      NotingFits(ledger, old(pending), running, old(requestedStacksHeight), old(requestedBurnHeight),
                 old(pendingCallback), run, Noted(anchor), requestedStacksHeight, requestedBurnHeight);
      ledger := ledger + [Noted(anchor)];
    }

    /** The part of `request` that can throw: the heights in turn, then the callback time. */
    method Raise(anchor: Anchor) returns (threw: bool)
      modifies this`requestedStacksHeight, this`requestedBurnHeight, this`pendingCallback
      ensures threw <==> !WellFormed(anchor)
      ensures NotBelow(old(requestedStacksHeight), requestedStacksHeight)
      ensures NotBelow(old(requestedBurnHeight), requestedBurnHeight)
      ensures Reaches(requestedStacksHeight, Noted(anchor).stacks) && Reaches(requestedBurnHeight, Noted(anchor).burn)
      ensures pendingCallback == Earlier(old(pendingCallback), Noted(anchor).callback)
      ensures !threw ==>
        && requestedStacksHeight == MaxHeight(old(requestedStacksHeight), anchor.stacks)
        && requestedBurnHeight == MaxHeight(old(requestedBurnHeight), anchor.burn)
    {
      if !SafeHeight(anchor.stacks) {
        return true;
      }
      requestedStacksHeight := MaxHeight(requestedStacksHeight, anchor.stacks);
      if !SafeHeight(anchor.burn) {
        return true;
      }
      requestedBurnHeight := MaxHeight(requestedBurnHeight, anchor.burn);
      if anchor.callback.Unparsable? {
        return true;
      }
      if anchor.callback.ReceivedAt? {
        pendingCallback := Earlier(pendingCallback, Some(anchor.callback.ms));
      }
      threw := false;
    }

    /** What the ledger notes of a request: its facts, or none of them when it was malformed. */
    static function Noted(anchor: Anchor): (e: Entry)
      ensures e.place == Waiting
    {
      if WellFormed(anchor) then
        var callback := if anchor.callback.ReceivedAt? then Some(anchor.callback.ms) else None;
        Entry(anchor.stacks, anchor.burn, callback, Waiting)
      else Entry(Absent, Absent, None, Waiting)
    }

    /** The timer's callback, with `#run` up to its first await. */
    method Fire(started: bool, canRun: bool, now: int)
      requires Valid(started) && timer.Some?
      modifies `timer, `nextRetryAt, `pending, `running, `run, `pendingCallback, `aborted, `ledger
      ensures Valid(started) && Armed(started)
      ensures started
      ensures if canRun then
                && running && !pending && ledger == Move(old(ledger), Waiting, InRun)
                && run == Run(|old(ledger)|, requestedStacksHeight, requestedBurnHeight, old(pendingCallback))
              else !running && pending && ledger == old(ledger) && timer == Some(now + failureDelayMs)
    {
      hide Fits, Move, EarliestCallback, Summarises, Statistics, Reached, Any, MadeBefore, ServedAreCovered, Max, Min;
      timer := None;
      nextRetryAt := None;
      if !canRun {
        Schedule(started, failureDelayMs, now);
        return;
      }
      RunBeginsFits(ledger, requestedStacksHeight, requestedBurnHeight, pendingCallback, run);
      pending := false;
      running := true;
      run := Run(requests, requestedStacksHeight, requestedBurnHeight, pendingCallback);
      pendingCallback := None;
      aborted := false;
      ledger := Move(ledger, Waiting, InRun);
    }

    /** The rest of `#run` once the service call settles. */
    method Settle(started: bool, outcome: Outcome, now: int)
      requires Valid(started) && running
      modifies `ledger, `successes, `failuresTotal, `consecutiveFailures, `pending, `pendingCallback, `latency,
        `latencies, `running, `timer, `nextRetryAt
      ensures Valid(started) && Armed(started) && !running
      ensures ledger == Move(old(ledger), InRun,
        if outcome.Succeeded? then ServedBy(old(run)) else if !started && old(aborted) then Dropped else Waiting)
      ensures successes == old(successes) + if outcome.Succeeded? then 1 else 0
      ensures latencies == old(latencies) +
        if outcome.Succeeded? && EarliestCallback(old(ledger), InRun).Some?
        then [Max(0, now - EarliestCallback(old(ledger), InRun).value)] else []
      ensures !outcome.Succeeded? && started ==>
        timer == Some(now + RetryDelay(outcome, consecutiveFailures, failureDelayMs, maxBackoffMs))
      ensures consecutiveFailures == if outcome.Succeeded? then 0
        else old(consecutiveFailures) + if !started && old(aborted) then 0 else 1
      ensures failuresTotal == old(failuresTotal) + if outcome.Succeeded? || (!started && old(aborted)) then 0 else 1
    {
      hide Fits, Move, EarliestCallback, Summarises;
      var retryDelayMs := 0;
      if outcome.Succeeded? {
        Succeed(now);
      } else if !started && aborted {
        RunEndsFits(ledger, pending, requestedStacksHeight, requestedBurnHeight, pendingCallback, run, Dropped);
        ledger := Move(ledger, InRun, Dropped);
      } else {
        retryDelayMs := Fail(outcome);
      }
      running := false;
      if started && pending && timer.None? {
        Schedule(started, retryDelayMs, now);
      }
    }

    method Succeed(now: int)
      requires Books() && Statistics() && running
      modifies `ledger, `successes, `consecutiveFailures, `latency, `latencies
      ensures Fits(ledger, pending, false, requestedStacksHeight, requestedBurnHeight, pendingCallback, run)
      ensures Statistics()
      ensures ledger == Move(old(ledger), InRun, ServedBy(run))
      ensures successes == old(successes) + 1 && consecutiveFailures == 0
      ensures latencies == old(latencies) +
        if EarliestCallback(old(ledger), InRun).None? then []
        else [Max(0, now - EarliestCallback(old(ledger), InRun).value)]
    {
      hide Move, EarliestCallback, Summarises, Reached, ServedAreCovered, Any;
      successes := successes + 1;
      consecutiveFailures := 0;
      if run.callback.Some? {
        RecordingSummarises(latency, latencies, now - run.callback.value);
        latency := RecordLatency(latency, now - run.callback.value);
        latencies := latencies + [Max(0, now - run.callback.value)];
      }
      RunEndsFits(ledger, pending, requestedStacksHeight, requestedBurnHeight, pendingCallback, run, ServedBy(run));
      ledger := Move(ledger, InRun, ServedBy(run));
    }

    method Fail(outcome: Outcome) returns (retryDelayMs: nat)
      requires Books() && running && !outcome.Succeeded? && failureDelayMs >= 1 && maxBackoffMs >= 1
      modifies `ledger, `failuresTotal, `consecutiveFailures, `pending, `pendingCallback
      ensures Fits(ledger, pending, false, requestedStacksHeight, requestedBurnHeight, pendingCallback, run)
      ensures pending && ledger == Move(old(ledger), InRun, Waiting)
      ensures consecutiveFailures == old(consecutiveFailures) + 1 && failuresTotal == old(failuresTotal) + 1
      ensures retryDelayMs == RetryDelay(outcome, consecutiveFailures, failureDelayMs, maxBackoffMs) > 0
    {
      hide Fits, Move, EarliestCallback, RetryDelay;
      failuresTotal := failuresTotal + 1;
      consecutiveFailures := consecutiveFailures + 1;
      RunFailsFits(ledger, pending, requestedStacksHeight, requestedBurnHeight, pendingCallback, run);
      pending := true;
      if run.callback.Some? {
        pendingCallback := Earlier(pendingCallback, run.callback);
      }
      ledger := Move(ledger, InRun, Waiting);
      BackoffIsBoundedAndMonotone(outcome, outcome, consecutiveFailures, consecutiveFailures, failureDelayMs,
                                  maxBackoffMs);
      retryDelayMs := RetryDelay(outcome, consecutiveFailures, failureDelayMs, maxBackoffMs);
    }

    /** What starting the scheduler does to a domain that made its requests before. */
    method Rearm(now: int)
      requires Valid(false)
      modifies `timer, `nextRetryAt
      ensures Valid(true) && Armed(true)
    {
      hide Fits, Summarises;
      if pending {
        Schedule(true, 0, now);
      }
    }

    lemma StartingKeepsValid()
      requires Valid(false)
      ensures Valid(true)
    {
    }

    lemma ServedWereCovered(started: bool)
      requires Valid(started)
      ensures ServedAreCovered(ledger)
    {
    }

    /** At rest every request was dropped by a stop or served by a run that began later and reached its heights. */
    lemma RestMeansServed(started: bool)
      requires Valid(started) && !pending && !running
      ensures forall k :: 0 <= k < requests && !ledger[k].place.Dropped? ==>
        ledger[k].place.ServedBy? && Covers(ledger[k].place.run, k, ledger[k])
    {
      forall k | 0 <= k < requests && !ledger[k].place.Dropped? ensures ledger[k].place.ServedBy? {
        assert ledger[k].place == Waiting ==> Any(ledger, Waiting);
        assert ledger[k].place == InRun ==> Any(ledger, InRun);
      }
    }

    /** This domain's share of `stop`. */
    method Halt(ghost started: bool)
      requires Valid(started)
      modifies `timer, `pending, `pendingCallback, `nextRetryAt, `aborted, `ledger
      ensures Valid(false) && !pending && timer.None?
      ensures ledger == Move(old(ledger), Waiting, Dropped)
      ensures running ==> aborted
    {
      hide Fits, Move, EarliestCallback, Summarises;
      StopFits(ledger, pending, running, requestedStacksHeight, requestedBurnHeight, pendingCallback, run);
      timer := None;
      pending := false;
      pendingCallback := None;
      nextRetryAt := None;
      if running {
        aborted := true;
      }
      ledger := Move(ledger, Waiting, Dropped);
    }
  }

  // ---------------------------------------------------------------------------------------------
  // The scheduler
  // ---------------------------------------------------------------------------------------------

  datatype Name = Current | ManagerActivity | Rewards | Roster

  /** What may happen to the scheduler; `now` is its clock. */
  datatype Event =
    | Start(now: int)
    | Request(name: Name, anchor: Anchor, now: int)
    | CatchUp(now: int)
    | TimerFires(name: Name, canRun: bool, now: int)
    | Settles(name: Name, outcome: Outcome, now: int)
    | BackfillFires(now: int)
    | Stop

  class ObserverReconciliationScheduler {
    var started: bool
    /** Whether the periodic anti-entropy timer is set. */
    var backfillTimer: bool
    const current: Domain
    const managerActivity: Domain
    const rewards: Domain
    const roster: Domain

    function Of(n: Name): Domain {
      match n
      case Current => current
      case ManagerActivity => managerActivity
      case Rewards => rewards
      case Roster => roster
    }

    function Domains(): set<Domain> {
      {current, managerActivity, rewards, roster}
    }

    ghost predicate Valid()
      reads this, Domains()
    {
      && (forall m, n :: m != n ==> Of(m) != Of(n))
      && (forall n :: Of(n).Valid(started))
      && backfillTimer == started
    }

    ghost predicate AllArmed()
      reads this, Domains()
    {
      forall n :: Of(n).Armed(started)
    }

    constructor (failureDelayMs: nat, maxBackoffMs: nat)
      requires failureDelayMs >= 1 && maxBackoffMs >= 1
      ensures Valid() && AllArmed() && !started && fresh(Domains())
      ensures forall n :: Of(n).ledger == []
    {
      hide Domain.Valid;
      started, backfillTimer := false, false;
      current := new Domain(failureDelayMs, maxBackoffMs);
      managerActivity := new Domain(failureDelayMs, maxBackoffMs);
      rewards := new Domain(failureDelayMs, maxBackoffMs);
      roster := new Domain(failureDelayMs, maxBackoffMs);
    }

    method RequestFor(n: Name, anchor: Anchor, now: int) returns (threw: bool)
      requires Valid()
      modifies Of(n)
      ensures Valid()
      ensures threw <==> !WellFormed(anchor)
      ensures !threw ==> Of(n).Armed(started)
      ensures threw ==> (Of(n).Armed(started) <==> !started || Of(n).running || Of(n).timer.Some?)
      ensures Of(n).ledger == old(Of(n).ledger) + [Domain.Noted(anchor)]
      ensures Of(n).running == old(Of(n).running)
    {
      hide Domain.Valid, Domain.Armed, Domain.Noted;
      threw := Of(n).Request(started, anchor, now);
    }

    method RequestCatchUp(now: int)
      requires Valid()
      modifies Domains()
      ensures Valid() && AllArmed()
      ensures forall n :: Of(n).ledger == old(Of(n).ledger) + [Domain.Noted(NO_ANCHOR)]
      ensures forall n :: Of(n).running == old(Of(n).running)
    {
      hide Domain.Valid, Domain.Armed, Domain.Noted;
      var threw := RequestFor(Current, NO_ANCHOR, now);
      threw := RequestFor(ManagerActivity, NO_ANCHOR, now);
      threw := RequestFor(Rewards, NO_ANCHOR, now);
      threw := RequestFor(Roster, NO_ANCHOR, now);
    }

    /** `start`: anti-entropy requests for three domains, and a timer for a roster request made earlier. */
    method Start(now: int)
      requires Valid()
      modifies this`started, this`backfillTimer, Domains()
      ensures Valid() && started
      ensures old(!started || AllArmed()) ==> AllArmed()
      ensures old(started) ==> forall n :: unchanged(Of(n))
      ensures Of(Roster).ledger == old(Of(Roster).ledger)
      ensures !old(started) ==> forall n :: n != Roster ==>
        Of(n).ledger == old(Of(n).ledger) + [Domain.Noted(NO_ANCHOR)]
      ensures forall n :: Of(n).running == old(Of(n).running)
    {
      hide Domain.Valid, Domain.Armed, Domain.Noted;
      if started {
        return;
      }
      Of(Current).StartingKeepsValid();
      Of(ManagerActivity).StartingKeepsValid();
      Of(Rewards).StartingKeepsValid();
      Of(Roster).Rearm(now);
      started := true;
      backfillTimer := true;
      assert forall n :: Of(n).Valid(started);
      var threw := RequestFor(Current, NO_ANCHOR, now);
      threw := RequestFor(ManagerActivity, NO_ANCHOR, now);
      threw := RequestFor(Rewards, NO_ANCHOR, now);
    }

    static function Backfilled(n: Name): Ledger {
      if n == ManagerActivity || n == Rewards then [Domain.Noted(NO_ANCHOR)] else []
    }

    method BackfillFires(now: int)
      requires Valid() && backfillTimer
      modifies this`backfillTimer, Domains()
      ensures Valid()
      ensures old(AllArmed()) ==> AllArmed()
      ensures forall n :: Of(n).ledger == old(Of(n).ledger) + Backfilled(n)
      ensures forall n :: Of(n).running == old(Of(n).running)
    {
      hide Domain.Valid, Domain.Armed, Domain.Noted;
      var threw := RequestFor(ManagerActivity, NO_ANCHOR, now);
      threw := RequestFor(Rewards, NO_ANCHOR, now);
    }

    method Stop()
      requires Valid()
      modifies this`started, this`backfillTimer, Domains()
      ensures Valid() && AllArmed() && !started
      ensures forall n :: Of(n).ledger == Move(old(Of(n).ledger), Waiting, Dropped)
      ensures forall n :: !Of(n).pending && Of(n).timer.None?
    {
      hide Domain.Valid, Move;
      ghost var running := started;
      started := false;
      backfillTimer := false;
      Of(Current).Halt(running);
      Of(ManagerActivity).Halt(running);
      Of(Rewards).Halt(running);
      Of(Roster).Halt(running);
    }

    /** What `notifyProcessed` asks of the current state for a verified block. */
    static function CurrentAsked(anchor: Anchor, managerPrint: bool, pox5Print: bool, rewardPrint: bool): Ledger {
      [Domain.Noted(if managerPrint then anchor else NO_ANCHOR)]
      + (if pox5Print then [Domain.Noted(anchor)] else [])
      + (if rewardPrint then [Domain.Noted(anchor)] else [])
    }

    static function Asked(anchor: Anchor, asked: bool): Ledger {
      if asked then [Domain.Noted(anchor)] else []
    }

    /** `notifyProcessed` for a verified block; the flags say which prints its body holds. */
    method NotifyVerified(anchor: Anchor, managerPrint: bool, pox5Print: bool, rewardPrint: bool, now: int)
      requires Valid() && WellFormed(anchor)
      modifies Domains()
      ensures Valid()
      ensures old(AllArmed()) ==> AllArmed()
      ensures forall n :: Of(n).running == old(Of(n).running)
      ensures Of(Current).ledger == old(Of(Current).ledger) + CurrentAsked(anchor, managerPrint, pox5Print, rewardPrint)
      ensures Of(ManagerActivity).ledger == old(Of(ManagerActivity).ledger) + Asked(anchor, managerPrint)
      ensures Of(Roster).ledger == old(Of(Roster).ledger) + Asked(anchor, pox5Print)
      ensures Of(Rewards).ledger == old(Of(Rewards).ledger) + Asked(anchor, rewardPrint)
    {
      hide Domain.Valid, Domain.Armed, Domain.Noted;
      var threw := RequestFor(Current, if managerPrint then anchor else NO_ANCHOR, now);
      if managerPrint {
        threw := RequestFor(ManagerActivity, anchor, now);
      }
      if pox5Print {
        RequestWithCurrent(Roster, anchor, now);
      }
      if rewardPrint {
        RequestWithCurrent(Rewards, anchor, now);
      }
    }

    method RequestWithCurrent(n: Name, anchor: Anchor, now: int)
      requires Valid() && WellFormed(anchor) && n != Current
      modifies Of(Current), Of(n)
      ensures Valid()
      ensures old(AllArmed()) ==> AllArmed()
      ensures Of(Current).ledger == old(Of(Current).ledger) + [Domain.Noted(anchor)]
      ensures Of(n).ledger == old(Of(n).ledger) + [Domain.Noted(anchor)]
      ensures forall m :: Of(m).running == old(Of(m).running)
    {
      hide Domain.Valid, Domain.Armed, Domain.Noted;
      var threw := RequestFor(Current, anchor, now);
      threw := RequestFor(n, anchor, now);
    }

    /** `notifyProcessed` for any finished delivery. */
    method NotifyProcessed(verifiedBlock: bool, consumedBurnTrigger: bool, anchor: Anchor,
                           managerPrint: bool, pox5Print: bool, rewardPrint: bool, now: int)
      requires Valid() && WellFormed(anchor)
      modifies Domains()
      ensures Valid()
      ensures old(AllArmed()) ==> AllArmed()
      ensures forall n :: Of(n).running == old(Of(n).running)
      ensures Of(Current).ledger == old(Of(Current).ledger) +
        if verifiedBlock then CurrentAsked(anchor, managerPrint, pox5Print, rewardPrint)
          else Asked(anchor, consumedBurnTrigger)
      ensures Of(ManagerActivity).ledger == old(Of(ManagerActivity).ledger)
        + Asked(anchor, verifiedBlock && managerPrint)
      ensures Of(Roster).ledger == old(Of(Roster).ledger) + Asked(anchor, verifiedBlock && pox5Print)
      ensures Of(Rewards).ledger == old(Of(Rewards).ledger) + Asked(anchor, verifiedBlock && rewardPrint)
    {
      hide Domain.Valid, Domain.Armed, Domain.Noted, CurrentAsked;
      if verifiedBlock {
        NotifyVerified(anchor, managerPrint, pox5Print, rewardPrint, now);
      } else if consumedBurnTrigger {
        var threw := RequestFor(Current, anchor, now);
      }
    }

    /** No run is still going from before the last stop. */
    ghost predicate Undisturbed()
      reads this, Domains()
    {
      forall n :: Of(n).running ==> started
    }

    /** What one event does to every ledger: requests are added and moved on, never back from served or dropped. */
    twostate predicate Progressed()
      reads this, Domains()
    {
      forall n :: Follows(old(Of(n).ledger), Of(n).ledger)
    }

    twostate predicate LostNothing()
      reads this, Domains()
    {
      forall n :: NothingDropped(old(Of(n).ledger), Of(n).ledger)
    }

    /** No request was dropped, or can now be, but one that a run cut off by an earlier stop had taken. */
    twostate predicate LostOnlyDoomed()
      reads this, Domains()
    {
      forall n :: NoneNewlyDoomed(old(Of(n).ledger), old(started), Of(n).ledger, started)
    }

    lemma NoneDoomed()
      requires Valid() && Undisturbed()
      ensures forall n, k :: 0 <= k < |Of(n).ledger| && Of(n).ledger[k].place.InRun? ==> started
    {
      forall n, k | 0 <= k < |Of(n).ledger| && Of(n).ledger[k].place.InRun? ensures started {
        assert Of(n).Valid(started) && Any(Of(n).ledger, InRun);
      }
    }

    method TimerFires(n: Name, canRun: bool, now: int)
      requires Valid() && Of(n).timer.Some?
      modifies Of(n)
      ensures Valid() && Of(n).Armed(started) && started
      ensures Of(n).ledger == if canRun then Move(old(Of(n).ledger), Waiting, InRun) else old(Of(n).ledger)
    {
      hide Domain.Valid, Domain.Armed, Move;
      assert Of(n).Valid(started);
      Of(n).Fire(started, canRun, now);
    }

    method Settles(n: Name, outcome: Outcome, now: int)
      requires Valid() && Of(n).running
      modifies Of(n)
      ensures Valid() && Of(n).Armed(started) && !Of(n).running
      ensures outcome.Succeeded? ==> Of(n).ledger == Move(old(Of(n).ledger), InRun, ServedBy(old(Of(n).run)))
      ensures !outcome.Succeeded? && started ==> Of(n).ledger == Move(old(Of(n).ledger), InRun, Waiting)
      ensures !outcome.Succeeded? && !started ==> Of(n).ledger == Move(old(Of(n).ledger), InRun, Dropped)
    {
      hide Domain.Armed, Move, Domain.Books, Domain.Statistics;
      assert Of(n).Valid(started);
      Of(n).Settle(started, outcome, now);
    }

    /**
     Any event, enabled or not; `threw` says that the request was malformed, and `done` is the run that
     the event settled successfully. No other event serves a request.
     */
    method Step(e: Event) returns (threw: bool, ghost done: Option<Run>)
      requires Valid()
      modifies this`started, this`backfillTimer, Domains()
      ensures Valid() && Progressed()
      ensures threw <==> e.Request? && !WellFormed(e.anchor)
      ensures done == if e.Settles? && e.outcome.Succeeded? && old(Of(e.name).running)
        then Some(old(Of(e.name).run)) else None
      ensures forall n :: NewlyServed(old(Of(n).ledger), Of(n).ledger, if e.Settles? && e.name == n then done else None)
      ensures old(AllArmed()) && !threw ==> AllArmed()
      ensures !e.Stop? ==> LostOnlyDoomed()
      ensures old(Undisturbed()) && !e.Stop? ==> Undisturbed()
    {
      hide Domain.Valid, Domain.Armed, Move, Follows, NoneNewlyDoomed, NewlyServed, Domain.Noted;
      threw := false;
      done := if e.Settles? && e.outcome.Succeeded? && Of(e.name).running then Some(Of(e.name).run) else None;
      match e {
        case Start(now) =>
          Start(now);
        case Request(n, anchor, now) =>
          threw := RequestFor(n, anchor, now);
        case CatchUp(now) =>
          RequestCatchUp(now);
        case TimerFires(n, canRun, now) =>
          if Of(n).timer.Some? {
            TimerFires(n, canRun, now);
          }
        case Settles(n, outcome, now) =>
          if Of(n).running {
            Settles(n, outcome, now);
          }
        case BackfillFires(now) =>
          if backfillTimer {
            BackfillFires(now);
          }
        case Stop =>
          Stop();
          forall n
            ensures Follows(old(Of(n).ledger), Of(n).ledger) && NewlyServed(old(Of(n).ledger), Of(n).ledger, None)
          {
            StopFollows(old(Of(n).ledger));
          }
          return;
      }
      forall n
        ensures Follows(old(Of(n).ledger), Of(n).ledger)
        ensures NoneNewlyDoomed(old(Of(n).ledger), old(started), Of(n).ledger, started)
        ensures NewlyServed(old(Of(n).ledger), Of(n).ledger, if e.Settles? && e.name == n then done else None)
      {
        ghost var served := if e.Settles? && e.name == n then done else None;
        assert LedgerStep(old(Of(n).ledger), Of(n).ledger, started, served);
        StepFollows(old(Of(n).ledger), Of(n).ledger, started, served);
        StepDooms(old(Of(n).ledger), Of(n).ledger, old(started), started, served);
      }
    }

    /**
     Any run of events, in any order, malformed requests included. Every request keeps its place in
     the ledgers; it leaves the waiting and running ones only by a successful settlement or by a stop.
     `settled` holds, event by event, the run that it settled successfully.
     */
    method RunEvents(events: seq<Event>) returns (ghost settled: seq<Option<Run>>)
      requires Valid()
      modifies this`started, this`backfillTimer, Domains()
      ensures Valid() && Progressed() && |settled| == |events|
      ensures old(AllArmed()) ==>
        (forall i :: 0 <= i < |events| && events[i].Request? ==> WellFormed(events[i].anchor)) ==> AllArmed()
      ensures forall n :: ServedDuring(old(Of(n).ledger), Of(n).ledger, n, events, settled)
      ensures (forall i :: 0 <= i < |events| ==> !events[i].Stop?) ==> LostOnlyDoomed()
      ensures old(Undisturbed()) && (forall i :: 0 <= i < |events| ==> !events[i].Stop?) ==>
        Undisturbed() && LostNothing()
    {
      hide Domain.Valid, Domain.Armed, Follows, NoneNewlyDoomed, NewlyServed, ServedDuring;
      settled := [];
      forall n ensures Follows(Of(n).ledger, Of(n).ledger) && ServedDuring(Of(n).ledger, Of(n).ledger, n, [], [])
                       && NoneNewlyDoomed(Of(n).ledger, started, Of(n).ledger, started)
      {
        NothingHappened(Of(n).ledger, started, n);
      }
      assert events[..0] == [];
      if Undisturbed() { NoneDoomed(); }
      for i := 0 to |events|
        invariant Valid() && Progressed() && |settled| == i
        invariant old(AllArmed()) && (forall j :: 0 <= j < i && events[j].Request? ==> WellFormed(events[j].anchor)) ==>
          AllArmed()
        invariant forall n :: ServedDuring(old(Of(n).ledger), Of(n).ledger, n, events[..i], settled)
        invariant (forall j :: 0 <= j < i ==> !events[j].Stop?) ==> LostOnlyDoomed()
        invariant old(Undisturbed()) && (forall j :: 0 <= j < i ==> !events[j].Stop?) ==> Undisturbed()
      {
        ghost var onwards := forall j :: 0 <= j < i + 1 ==> !events[j].Stop?;
        label before:
        var threw;
        ghost var done;
        threw, done := Step(events[i]);
        assert events[..i + 1] == events[..i] + [events[i]];
        forall n
          ensures Follows(old(Of(n).ledger), Of(n).ledger)
          ensures onwards ==> NoneNewlyDoomed(old(Of(n).ledger), old(started), Of(n).ledger, started)
          ensures ServedDuring(old(Of(n).ledger), Of(n).ledger, n, events[..i + 1], settled + [done])
        {
          assert Follows(old@before(Of(n).ledger), Of(n).ledger);
          FollowsIsTransitive(old(Of(n).ledger), old@before(Of(n).ledger), Of(n).ledger);
          if onwards {
            DoomIsTransitive(old(Of(n).ledger), old(started), old@before(Of(n).ledger), old@before(started),
                             Of(n).ledger, started);
          }
          ServedOnwards(old(Of(n).ledger), old@before(Of(n).ledger), Of(n).ledger, n,
                        events[..i], settled, events[i], done);
        }
        settled := settled + [done];
      }
      assert events[..|events|] == events;
      if old(Undisturbed()) && forall i :: 0 <= i < |events| ==> !events[i].Stop? {
        forall n ensures NothingDropped(old(Of(n).ledger), Of(n).ledger) {
          DoomedWereDropped(old(Of(n).ledger), old(started), Of(n).ledger, started);
        }
      }
    }

    /** Some event was the successful settlement of this run in domain `n`. */
    static ghost predicate SettledBy(events: seq<Event>, settled: seq<Option<Run>>, n: Name, run: Run) {
      exists i :: 0 <= i < |events| && i < |settled| && Succeeds(events[i], n) && settled[i] == Some(run)
    }

    static predicate Succeeds(e: Event, n: Name) {
      e.Settles? && e.name == n && e.outcome.Succeeded?
    }

    /** Every request served meanwhile was served by a run that one of the events settled successfully. */
    static ghost predicate ServedDuring(before: Ledger, after: Ledger, n: Name,
                                        events: seq<Event>, settled: seq<Option<Run>>)
    {
      forall k :: 0 <= k < |after| && after[k].place.ServedBy? && !(k < |before| && before[k].place.ServedBy?) ==>
        SettledBy(events, settled, n, after[k].place.run)
    }

    static lemma ServedOnwards(a: Ledger, b: Ledger, c: Ledger, n: Name, events: seq<Event>,
                               settled: seq<Option<Run>>, e: Event, done: Option<Run>)
      requires |events| == |settled| && ServedDuring(a, b, n, events, settled) && Follows(a, b) && Follows(b, c)
      requires NewlyServed(b, c, if e.Settles? && e.name == n then done else None)
      requires done.Some? ==> e.Settles? && e.outcome.Succeeded?
      ensures ServedDuring(a, c, n, events + [e], settled + [done])
    {
      forall k | 0 <= k < |c| && c[k].place.ServedBy? && !(k < |a| && a[k].place.ServedBy?)
        ensures SettledBy(events + [e], settled + [done], n, c[k].place.run)
      {
        if k < |b| && b[k].place.ServedBy? {
          assert c[k] == b[k];
          var i :| 0 <= i < |events| && Succeeds(events[i], n) && settled[i] == Some(b[k].place.run);
          assert (events + [e])[i] == events[i] && (settled + [done])[i] == settled[i];
        } else {
          assert (events + [e])[|events|] == e && (settled + [done])[|settled|] == done;
        }
      }
    }

    static lemma DoomedWereDropped(before: Ledger, wasStarted: bool, after: Ledger, started: bool)
      requires NoneNewlyDoomed(before, wasStarted, after, started)
      requires forall k :: 0 <= k < |before| && before[k].place.InRun? ==> wasStarted
      ensures NothingDropped(before, after)
    {
    }

    /**
     From a verified delivery to the work it asks for, in any reachable state: however events go on,
     short of a stop, the manager-activity request is waiting, in a run that will not drop it, or was
     served by a later run that asked for its height and that one of the events settled successfully.
     */
    method FollowDelivery(anchor: Anchor, pox5Print: bool, rewardPrint: bool, now: int, events: seq<Event>)
      returns (ghost k: nat, ghost settled: seq<Option<Run>>)
      requires Valid() && WellFormed(anchor)
      requires forall i :: 0 <= i < |events| ==> !events[i].Stop?
      modifies this`started, this`backfillTimer, Domains()
      ensures Valid() && k < |Of(ManagerActivity).ledger| && |settled| == |events|
      ensures var e := Of(ManagerActivity).ledger[k];
        && e.(place := Waiting) == Domain.Noted(anchor)
        && (e.place == Waiting || (e.place == InRun && started)
            || (e.place.ServedBy? && Covers(e.place.run, k, e)
                && SettledBy(events, settled, ManagerActivity, e.place.run)))
    {
      hide Domain.Valid, Domain.Armed, Domain.Noted, Follows, NoneNewlyDoomed, ServedAreCovered, ServedDuring;
      ghost var d := Of(ManagerActivity);
      k := |d.ledger|;
      NotifyProcessed(true, false, anchor, true, pox5Print, rewardPrint, now);
      ghost var noted, wasStarted := d.ledger, started;
      settled := RunEvents(events);
      assert d.Valid(started);
      d.ServedWereCovered(started);
      assert NoneNewlyDoomed(noted, wasStarted, d.ledger, started);
      assert ServedDuring(noted, d.ledger, ManagerActivity, events, settled);
      EntryFollowed(noted, wasStarted, d.ledger, started, k, Domain.Noted(anchor), ManagerActivity, events, settled);
    }

    static lemma EntryFollowed(before: Ledger, wasStarted: bool, after: Ledger, started: bool, k: nat, e: Entry,
                               n: Name, events: seq<Event>, settled: seq<Option<Run>>)
      requires Follows(before, after) && NoneNewlyDoomed(before, wasStarted, after, started) && ServedAreCovered(after)
      requires ServedDuring(before, after, n, events, settled)
      requires k < |before| && before[k] == e && e.place == Waiting
      ensures k < |after| && after[k].(place := Waiting) == e
      ensures after[k].place == Waiting || (after[k].place == InRun && started)
        || (after[k].place.ServedBy? && Covers(after[k].place.run, k, after[k])
            && SettledBy(events, settled, n, after[k].place.run))
    {
    }

    static lemma NothingHappened(l: Ledger, s: bool, n: Name)
      ensures Follows(l, l) && NoneNewlyDoomed(l, s, l, s) && ServedDuring(l, l, n, [], [])
    {
    }
  }

  /** A malformed height on an idle, started domain throws and leaves work pending with nothing to run it. */
  method MalformedRequestStrandsWork() returns (d: Domain, anchor: Anchor, threw: bool)
    ensures fresh(d) && anchor == Anchor(Given(-1), Absent, NoCallback) && !WellFormed(anchor)
    ensures threw && d.requests == 1
    ensures d.Valid(true) && d.pending && !d.running && d.timer.None? && !d.Armed(true)
  {
    d := new Domain(15_000, 300_000);
    d.StartingKeepsValid();
    anchor := Anchor(Given(-1), Absent, NoCallback);
    threw := d.Request(true, anchor, 0);
  }
}
