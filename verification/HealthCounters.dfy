/** Window statistics over scraped counters and histograms that restart at zero. */
module HealthCounters {
  import opened Wrappers

  const SETTLE_MS := 30_000

  // ---------------------------------------------------------------------------------------------
  // Counters
  // ---------------------------------------------------------------------------------------------

  function Present(items: seq<Option<nat>>): seq<nat> {
    if |items| == 0 then []
    else Present(items[..|items| - 1]) + (if items[|items| - 1].Some? then [items[|items| - 1].value] else [])
  }

  /** What one sample adds to the one before: a lower value means a restart from zero. */
  function StepUp(a: nat, b: nat): nat {
    if b >= a then b - a else b
  }

  function Increase(values: seq<nat>): nat {
    if |values| < 2 then 0 else Increase(values[..|values| - 1]) + StepUp(values[|values| - 2], values[|values| - 1])
  }

  /** `counterIncrease`, null samples left out. */
  method CounterIncrease(items: seq<Option<nat>>) returns (r: Option<nat>)
    ensures r == CounterIncreaseOf(items)
  {
    var previous: Option<nat> := None;
    var increase, transitions: nat := 0, 0;
    for k := 0 to |items|
      invariant increase == Increase(Present(items[..k]))
      invariant previous == if Present(items[..k]) == [] then None
        else Some(Present(items[..k])[|Present(items[..k])| - 1])
      invariant transitions == if |Present(items[..k])| == 0 then 0 else |Present(items[..k])| - 1
    {
      ghost var before := Present(items[..k]);
      assert items[..k + 1][..k] == items[..k] && before + [] == before;
      if items[k].Some? {
        var value := items[k].value;
        assert Present(items[..k + 1]) == before + [value];
        IncreaseSnoc(before, value);
        if previous.Some? {
          increase := increase + if value >= previous.value then value - previous.value else value;
          transitions := transitions + 1;
        }
        previous := Some(value);
      }
    }
    assert items[..|items|] == items;
    r := if transitions > 0 then Some(increase) else None;
  }

  function CounterIncreaseOf(items: seq<Option<nat>>): Option<nat> {
    if |Present(items)| >= 2 then Some(Increase(Present(items))) else None
  }

  /** What a counter really does between samples. */
  datatype Tick = StepsUp | Restarts

  /** The counter's value after the first n ticks of its life. */
  function CounterAt(ticks: seq<Tick>, n: nat): nat
    requires n <= |ticks|
  {
    if n == 0 then 0 else if ticks[n - 1].Restarts? then 0 else CounterAt(ticks, n - 1) + 1
  }

  function TrueSteps(ticks: seq<Tick>, from: nat, to: nat): nat
    requires from <= to <= |ticks|
  {
    if from == to then 0 else TrueSteps(ticks, from, to - 1) + if ticks[to - 1].StepsUp? then 1 else 0
  }

  lemma {:induction false} StepUpIsBounded(ticks: seq<Tick>, from: nat, to: nat)
    requires from <= to <= |ticks|
    ensures CounterAt(ticks, to) <= CounterAt(ticks, from) + TrueSteps(ticks, from, to)
    ensures StepUp(CounterAt(ticks, from), CounterAt(ticks, to)) <= TrueSteps(ticks, from, to)
    ensures CounterAt(ticks, to) <= TrueSteps(ticks, from, to)
      || CounterAt(ticks, to) == CounterAt(ticks, from) + TrueSteps(ticks, from, to)
  {
    if from < to {
      StepUpIsBounded(ticks, from, to - 1);
    }
  }

  lemma {:induction false} TrueStepsAdd(ticks: seq<Tick>, a: nat, b: nat, c: nat)
    requires a <= b <= c <= |ticks|
    ensures TrueSteps(ticks, a, c) == TrueSteps(ticks, a, b) + TrueSteps(ticks, b, c)
  {
    if b < c {
      TrueStepsAdd(ticks, a, b, c - 1);
    }
  }

  ghost predicate InOrder(moments: seq<nat>, end: nat) {
    && (forall i :: 0 <= i < |moments| ==> moments[i] <= end)
    && (forall i, j :: 0 <= i < j < |moments| ==> moments[i] <= moments[j])
  }

  function Sampled(ticks: seq<Tick>, moments: seq<nat>): (r: seq<nat>)
    requires forall i :: 0 <= i < |moments| ==> moments[i] <= |ticks|
    ensures |r| == |moments| && forall i :: 0 <= i < |r| ==> r[i] == CounterAt(ticks, moments[i])
  {
    seq(|moments|, i requires 0 <= i < |moments| => CounterAt(ticks, moments[i]))
  }

  /** Sampled at any moments, through any restarts, the increase never exceeds the steps really taken. */
  lemma {:induction false} NeverOverCounts(ticks: seq<Tick>, moments: seq<nat>)
    requires InOrder(moments, |ticks|)
    ensures Increase(Sampled(ticks, moments)) <=
      if moments == [] then 0 else TrueSteps(ticks, moments[0], moments[|moments| - 1])
  {
    if |moments| >= 2 {
      var init := moments[..|moments| - 1];
      var a, b := moments[|moments| - 2], moments[|moments| - 1];
      NeverOverCounts(ticks, init);
      assert Sampled(ticks, moments)[..|moments| - 1] == Sampled(ticks, init);
      StepUpIsBounded(ticks, a, b);
      TrueStepsAdd(ticks, moments[0], a, b);
    }
  }

  // Dropping samples ------------------------------------------------------------------------------

  predicate IsSubsequence(t: seq<nat>, s: seq<nat>) {
    if |t| == 0 then true
    else if |s| == 0 then false
    else (t[|t| - 1] == s[|s| - 1] && IsSubsequence(t[..|t| - 1], s[..|s| - 1])) || IsSubsequence(t, s[..|s| - 1])
  }

  lemma Triangle(a: nat, b: nat, c: nat)
    ensures StepUp(a, c) <= StepUp(a, b) + StepUp(b, c)
  {
  }

  lemma IncreaseSnoc(s: seq<nat>, x: nat)
    ensures Increase(s + [x]) == Increase(s) + if |s| > 0 then StepUp(s[|s| - 1], x) else 0
  {
    assert (s + [x])[..|s|] == s;
  }

  lemma SubsequenceEnds(t: seq<nat>, s: seq<nat>)
    requires IsSubsequence(t, s) && |t| > 0
    ensures |s| > 0
    ensures (t[|t| - 1] == s[|s| - 1] && IsSubsequence(t[..|t| - 1], s[..|s| - 1])) || IsSubsequence(t, s[..|s| - 1])
  {
  }

  lemma IncreaseAtEnd(s: seq<nat>)
    requires |s| > 0
    ensures Increase(s) == Increase(s[..|s| - 1]) + if |s| > 1 then StepUp(s[|s| - 2], s[|s| - 1]) else 0
  {
  }

  lemma SplitAtEnd(s: seq<nat>)
    requires |s| > 0
    ensures s[..|s| - 1] + [s[|s| - 1]] == s
  {
  }

  lemma NoIncrease(s: seq<nat>)
    requires |s| == 0
    ensures Increase(s) == 0
  {
  }

  /** The same with one more sample at the end. */
  lemma {:induction false} SubsequenceWithEnd(t: seq<nat>, s: seq<nat>, x: nat)
    requires IsSubsequence(t, s)
    ensures Increase(t + [x]) <= Increase(s + [x])
  {
    IncreaseSnoc(t, x);
    IncreaseSnoc(s, x);
    NoIncrease([]);
    if |t| > 0 {
      SubsequenceEnds(t, s);
      hide IsSubsequence, Increase, StepUp;
      var init, last := s[..|s| - 1], s[|s| - 1];
      IncreaseAtEnd(s);
      IncreaseAtEnd(t);
      if t[|t| - 1] == last && IsSubsequence(t[..|t| - 1], init) {
        SubsequenceWithEnd(t[..|t| - 1], init, last);
        SplitAtEnd(s);
        SplitAtEnd(t);
      } else {
        SubsequenceWithEnd(t, init, x);
        IncreaseSnoc(init, x);
        if |init| > 0 {
          Triangle(init[|init| - 1], last, x);
        }
      }
    }
  }

  /** Dropping samples can only lower the increase. */
  lemma {:induction false} DroppingSamplesLowers(t: seq<nat>, s: seq<nat>)
    requires IsSubsequence(t, s)
    ensures Increase(t) <= Increase(s)
  {
    if |t| > 0 {
      SubsequenceEnds(t, s);
      hide IsSubsequence, Increase, StepUp;
      var init, last := s[..|s| - 1], s[|s| - 1];
      IncreaseAtEnd(s);
      IncreaseAtEnd(t);
      if t[|t| - 1] == last && IsSubsequence(t[..|t| - 1], init) {
        SubsequenceWithEnd(t[..|t| - 1], init, last);
        SplitAtEnd(s);
        SplitAtEnd(t);
      } else {
        DroppingSamplesLowers(t, init);
      }
    } else {
      NoIncrease(t);
    }
  }

  // ---------------------------------------------------------------------------------------------
  // Proposals and responses
  // ---------------------------------------------------------------------------------------------

  datatype Observation = Observation(at: int, proposals: Option<nat>, accepted: Option<nat>, rejected: Option<nat>)

  function Proposals(s: seq<Observation>): (r: seq<Option<nat>>)
    ensures |r| == |s| && forall i :: 0 <= i < |s| ==> r[i] == s[i].proposals
  {
    seq(|s|, i requires 0 <= i < |s| => s[i].proposals)
  }

  function Accepted(s: seq<Observation>): (r: seq<Option<nat>>)
    ensures |r| == |s| && forall i :: 0 <= i < |s| ==> r[i] == s[i].accepted
  {
    seq(|s|, i requires 0 <= i < |s| => s[i].accepted)
  }

  function Rejected(s: seq<Observation>): (r: seq<Option<nat>>)
    ensures |r| == |s| && forall i :: 0 <= i < |s| ==> r[i] == s[i].rejected
  {
    seq(|s|, i requires 0 <= i < |s| => s[i].rejected)
  }

  function Until(s: seq<Observation>, cutoff: int): seq<Observation> {
    if |s| == 0 then []
    else Until(s[..|s| - 1], cutoff) + (if s[|s| - 1].at <= cutoff then [s[|s| - 1]] else [])
  }

  /** The proposals old enough to have been answered; an empty window is taken as ending at the epoch. */
  function SettledProposals(s: seq<Observation>): Option<nat> {
    CounterIncreaseOf(Proposals(Until(s, (if |s| > 0 then s[|s| - 1].at else 0) - SETTLE_MS)))
  }

  function Responses(s: seq<Observation>): Option<nat> {
    var accepted, rejected := CounterIncreaseOf(Accepted(s)), CounterIncreaseOf(Rejected(s));
    if accepted.Some? && rejected.Some? then Some(accepted.value + rejected.value) else None
  }

  /** The response gap of `signerWindow`. */
  function ResponseGap(s: seq<Observation>): Option<nat> {
    if SettledProposals(s).Some? && Responses(s).Some? then
      Some(if SettledProposals(s).value > Responses(s).value then SettledProposals(s).value - Responses(s).value else 0)
    else None
  }

  lemma ProposalsSnoc(s: seq<Observation>, o: Observation)
    ensures Present(Proposals(s + [o])) == Present(Proposals(s)) + if o.proposals.Some? then [o.proposals.value] else []
  {
    assert Proposals(s + [o])[..|s|] == Proposals(s);
  }

  lemma SubsequenceSnoc(t: seq<nat>, s: seq<nat>, x: nat)
    requires IsSubsequence(t, s)
    ensures IsSubsequence(t + [x], s + [x]) && IsSubsequence(t, s + [x])
  {
    assert (t + [x])[..|t|] == t && (s + [x])[..|s|] == s;
  }

  lemma {:induction false} SettledIsSubsequence(s: seq<Observation>, cutoff: int)
    ensures IsSubsequence(Present(Proposals(Until(s, cutoff))), Present(Proposals(s)))
  {
    if |s| > 0 {
      var init, last := s[..|s| - 1], s[|s| - 1];
      var t := Until(init, cutoff);
      assert s == init + [last] && Until(s, cutoff) == if last.at <= cutoff then t + [last] else t;
      hide Present, Proposals, IsSubsequence, Until;
      SettledIsSubsequence(init, cutoff);
      ProposalsSnoc(init, last);
      ProposalsSnoc(t, last);
      var all, kept := Present(Proposals(init)), Present(Proposals(t));
      if last.proposals.Some? {
        SubsequenceSnoc(kept, all, last.proposals.value);
      } else {
        assert kept + [] == kept && all + [] == all;
      }
    }
  }

  /** Settled proposals are never more than all proposals. */
  lemma SettledNeverExceedAll(s: seq<Observation>)
    ensures SettledProposals(s).Some? && CounterIncreaseOf(Proposals(s)).Some? ==>
      SettledProposals(s).value <= CounterIncreaseOf(Proposals(s)).value
  {
    var cutoff := (if |s| > 0 then s[|s| - 1].at else 0) - SETTLE_MS;
    SettledIsSubsequence(s, cutoff);
    DroppingSamplesLowers(Present(Proposals(Until(s, cutoff))), Present(Proposals(s)));
  }

  /** Running totals since the signer started, at each instant. */
  datatype Signer = Signer(proposals: int -> nat, accepted: int -> nat, rejected: int -> nat)

  predicate Accumulates(g: Signer, t: int, u: int) {
    t <= u ==> g.proposals(t) <= g.proposals(u) && g.accepted(t) <= g.accepted(u) && g.rejected(t) <= g.rejected(u)
  }

  predicate NeverAhead(g: Signer, t: int) {
    g.accepted(t) + g.rejected(t) <= g.proposals(t)
  }

  predicate AnsweredBy(g: Signer, t: int) {
    g.proposals(t) <= g.accepted(t + SETTLE_MS) + g.rejected(t + SETTLE_MS)
  }

  /** It never answers ahead of a proposal, and answers each within the settle window. */
  ghost predicate AnswersInTime(g: Signer) {
    && (forall t, u {:trigger Accumulates(g, t, u)} :: Accumulates(g, t, u))
    && (forall t {:trigger NeverAhead(g, t)} :: NeverAhead(g, t))
    && (forall t {:trigger AnsweredBy(g, t)} :: AnsweredBy(g, t))
  }

  /** Every sample is there and reads the signer's own totals: no restart, no missing counter. */
  ghost predicate Observes(s: seq<Observation>, g: Signer) {
    && (forall i :: 0 <= i < |s| ==>
          s[i] == Observation(s[i].at, Some(g.proposals(s[i].at)), Some(g.accepted(s[i].at)),
                              Some(g.rejected(s[i].at))))
    && (forall i, j :: 0 <= i < j < |s| ==> s[i].at <= s[j].at)
  }

  ghost predicate Rising(values: seq<Option<nat>>) {
    && (forall i :: 0 <= i < |values| ==> values[i].Some?)
    && (forall i, j :: 0 <= i < j < |values| ==> values[i].value <= values[j].value)
  }

  /** Without restarts and gaps an increase is the last value less the first. */
  lemma {:induction false} IncreaseTelescopes(values: seq<Option<nat>>)
    requires Rising(values)
    ensures |Present(values)| == |values|
    ensures forall i :: 0 <= i < |values| ==> Present(values)[i] == values[i].value
    ensures |values| > 0 ==> Increase(Present(values)) == values[|values| - 1].value - values[0].value
  {
    if |values| > 0 {
      var init := values[..|values| - 1];
      IncreaseTelescopes(init);
      IncreaseSnoc(Present(init), values[|values| - 1].value);
    }
  }

  lemma {:induction false} UntilIsPrefix(s: seq<Observation>, cutoff: int)
    requires forall i, j :: 0 <= i < j < |s| ==> s[i].at <= s[j].at
    ensures Until(s, cutoff) <= s && forall i :: 0 <= i < |Until(s, cutoff)| ==> Until(s, cutoff)[i].at <= cutoff
  {
    if |s| > 0 {
      var init := s[..|s| - 1];
      UntilIsPrefix(init, cutoff);
      if s[|s| - 1].at <= cutoff {
        UntilIsAll(init, cutoff);
        assert s == init + [s[|s| - 1]];
      }
    }
  }

  lemma {:induction false} UntilIsAll(s: seq<Observation>, cutoff: int)
    requires forall i :: 0 <= i < |s| ==> s[i].at <= cutoff
    ensures Until(s, cutoff) == s
  {
    if |s| > 0 {
      var init, last := s[..|s| - 1], s[|s| - 1];
      UntilIsAll(init, cutoff);
      assert last.at <= cutoff && Until(s, cutoff) == Until(init, cutoff) + [last];
      assert s == init + [last];
    }
  }

  lemma RisingIncrease(values: seq<Option<nat>>)
    requires Rising(values)
    ensures CounterIncreaseOf(values).Some? <==> |values| >= 2
    ensures |values| >= 2 ==> CounterIncreaseOf(values).value == values[|values| - 1].value - values[0].value
  {
    IncreaseTelescopes(values);
  }

  lemma ResponsesObserved(s: seq<Observation>, g: Signer)
    requires AnswersInTime(g) && Observes(s, g) && Responses(s).Some?
    ensures |s| >= 2
    ensures Responses(s).value == g.accepted(s[|s| - 1].at) - g.accepted(s[0].at)
      + g.rejected(s[|s| - 1].at) - g.rejected(s[0].at)
  {
    hide CounterIncreaseOf;
    ObservedTotalsRise(s, g);
    RisingIncrease(Accepted(s));
    RisingIncrease(Rejected(s));
  }

  lemma SettledObserved(s: seq<Observation>, g: Signer) returns (end: int)
    requires AnswersInTime(g) && Observes(s, g) && SettledProposals(s).Some?
    ensures |s| > 0 && end <= s[|s| - 1].at - SETTLE_MS
    ensures SettledProposals(s).value == g.proposals(end) - g.proposals(s[0].at)
  {
    hide CounterIncreaseOf;
    var cutoff := (if |s| > 0 then s[|s| - 1].at else 0) - SETTLE_MS;
    var settled := Until(s, cutoff);
    UntilIsPrefix(s, cutoff);
    ObservedTotalsRise(settled, g);
    RisingIncrease(Proposals(settled));
    end := settled[|settled| - 1].at;
  }

  /** A signer that answers every proposal in time never shows a gap. */
  lemma PromptSignerHasNoGap(s: seq<Observation>, g: Signer)
    requires AnswersInTime(g) && Observes(s, g)
    ensures ResponseGap(s).None? || ResponseGap(s) == Some(0)
  {
    if ResponseGap(s).Some? {
      hide SettledProposals, Responses, Observes;
      var end := SettledObserved(s, g);
      ResponsesObserved(s, g);
      assert AnsweredBy(g, end) && Accumulates(g, end + SETTLE_MS, s[|s| - 1].at) && NeverAhead(g, s[0].at);
    }
  }

  lemma ObservedTotalsRise(s: seq<Observation>, g: Signer)
    requires AnswersInTime(g) && Observes(s, g)
    ensures Rising(Proposals(s)) && Rising(Accepted(s)) && Rising(Rejected(s))
  {
    forall i, j | 0 <= i < j < |s|
      ensures s[i].proposals.value <= s[j].proposals.value
        && s[i].accepted.value <= s[j].accepted.value && s[i].rejected.value <= s[j].rejected.value
    {
      assert Accumulates(g, s[i].at, s[j].at);
    }
  }
}
