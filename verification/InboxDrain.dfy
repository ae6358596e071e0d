/** The drain loop over the durable observer inbox, with store faults and outside events at every await. */
module InboxDrain {
  import opened Canonicality
  import opened Wrappers

  // ---------------------------------------------------------------------------------------------
  // The inbox table
  // ---------------------------------------------------------------------------------------------

  datatype RowState = Claimed(nextAttemptAt: int) | Processing | Terminal(final: FinalState)

  /** A delivery; its index in the table stands for its row, `uuid` is only the last ordering key. */
  datatype Row = Row(state: RowState, firstReceivedAt: int, uuid: nat)

  predicate Eligible(r: Row, now: int) {
    r.state.Claimed? && r.state.nextAttemptAt <= now
  }

  /** The order in which eligible rows are claimed. */
  predicate Precedes(a: Row, b: Row)
    requires a.state.Claimed? && b.state.Claimed?
  {
    var (x, y) := (a.state.nextAttemptAt, b.state.nextAttemptAt);
    x < y || (x == y && (a.firstReceivedAt < b.firstReceivedAt
                         || (a.firstReceivedAt == b.firstReceivedAt && a.uuid <= b.uuid)))
  }

  /** The row `claimNextDelivery` takes: an eligible one that no eligible one goes before. */
  function NextClaim(rows: seq<Row>, now: int): (r: Option<nat>)
    ensures r.None? <==> forall i :: 0 <= i < |rows| ==> !Eligible(rows[i], now)
    ensures r.Some? ==> r.value < |rows| && Eligible(rows[r.value], now)
    ensures r.Some? ==> forall i :: 0 <= i < |rows| && Eligible(rows[i], now) ==> Precedes(rows[r.value], rows[i])
  {
    if |rows| == 0 then None
    else
      var last := |rows| - 1;
      var best := NextClaim(rows[..last], now);
      if !Eligible(rows[last], now) then best
      else if best.None? || !Precedes(rows[best.value], rows[last]) then Some(last) else best
  }

  /** `recoverDeliveries`: every processing row becomes claimable again. */
  function Recovered(rows: seq<Row>, at: int): (r: seq<Row>)
    ensures |r| == |rows|
    ensures forall i :: 0 <= i < |rows| ==>
      r[i] == if rows[i].state.Processing? then rows[i].(state := Claimed(at)) else rows[i]
  {
    seq(|rows|, i requires 0 <= i < |rows| => if rows[i].state.Processing? then rows[i].(state := Claimed(at))
        else rows[i])
  }

  /** Deliveries that contradict others for one chain position quarantine them, whatever their state. */
  function Conflicted(rows: seq<Row>, conflicts: set<nat>): (r: seq<Row>)
    ensures |r| == |rows|
    ensures forall i :: 0 <= i < |rows| ==>
      r[i] == if i in conflicts then rows[i].(state := Terminal(Quarantined)) else rows[i]
  {
    seq(|rows|, i requires 0 <= i < |rows| => if i in conflicts then rows[i].(state := Terminal(Quarantined))
        else rows[i])
  }

  function Claimable(rows: seq<Row>, now: int): nat {
    if |rows| == 0 then 0 else Claimable(rows[..|rows| - 1], now) + if Eligible(rows[|rows| - 1], now) then 1 else 0
  }

  lemma {:induction false} ClaimableAfterUpdate(rows: seq<Row>, i: nat, row: Row, now: int)
    requires i < |rows|
    ensures Claimable(rows[i := row], now)
         == Claimable(rows, now) - (if Eligible(rows[i], now) then 1 else 0) + (if Eligible(row, now) then 1 else 0)
  {
    var last := |rows| - 1;
    if i < last {
      ClaimableAfterUpdate(rows[..last], i, row, now);
      assert rows[i := row][..last] == rows[..last][i := row];
    } else {
      assert rows[i := row][..last] == rows[..last];
    }
  }

  // ---------------------------------------------------------------------------------------------
  // What happens around one attempt
  // ---------------------------------------------------------------------------------------------

  datatype FinishFault = NoFault | BeforeCommit | AfterCommit

  /**
   Everything outside the loop's control in one attempt: the clock, the verdict, what other callers
   do while the verification is awaited, and which store calls fail.
   */
  datatype Attempt = Attempt(
    canProcess: bool, claimedAt: int, claimFails: bool,
    verdict: Verdict, arrivals: seq<Row>, conflicts: set<nat>, recoveredAt: Option<int>,
    notified: bool, startedAfter: bool, completedAt: int,
    finishFault: FinishFault, retryFails: bool, recoverFails: bool)

  /** New deliveries are queued or already final, never in processing. */
  predicate Legal(a: Attempt) {
    forall i :: 0 <= i < |a.arrivals| ==> !a.arrivals[i].state.Processing?
  }

  /** The clock stands at `now` and nobody else touches the inbox. */
  predicate Quiet(a: Attempt, now: int) {
    a.claimedAt == now == a.completedAt && a.arrivals == [] && a.conflicts == {} && a.recoveredAt.None? && !a.notified
  }

  /** Somebody else took the claimed row `i` out of processing while its verification was awaited. */
  predicate TakenAway(a: Attempt, i: nat) {
    a.recoveredAt.Some? || i in a.conflicts
  }

  /** The verification or a store call fails in a way that ends the drain. */
  predicate GivesUp(a: Attempt) {
    match a.verdict
    case Retry(_) => a.retryFails
    case Finish(_, _) => a.finishFault != NoFault
    case Threw => true
  }

  /** What an attempt can leave behind: a final row that is never announced, or a row still in processing. */
  datatype Mishap = NoMishap | Unannounced(row: nat) | StillClaimed(row: nat)

  /** The mishap of a claim that nobody took away. */
  function MishapOf(a: Attempt, i: nat): (m: Mishap)
    ensures m == NoMishap || (m.row == i && GivesUp(a))
  {
    if a.verdict.Finish? && a.finishFault == AfterCommit then Unannounced(i)
    else if GivesUp(a) && a.retryFails && a.recoverFails then StillClaimed(i)
    else NoMishap
  }

  /** What the loop did, in order: a durable finish, and the follow-up call after it. */
  datatype LogEntry = Finished(row: nat) | Notified(row: nat)

  ghost predicate SoundLog(log: seq<LogEntry>) {
    && (forall i, j :: 0 <= i < j < |log| && log[i].Finished? && log[j].Finished? ==> log[i].row != log[j].row)
    && (forall j :: 0 <= j < |log| && log[j].Notified? ==> j > 0 && log[j - 1] == Finished(log[j].row))
  }

  ghost predicate LogFits(log: seq<LogEntry>, rows: seq<Row>) {
    forall j :: 0 <= j < |log| ==> log[j].row < |rows| && (log[j].Finished? ==> rows[log[j].row].state.Terminal?)
  }

  /** Every finish logged from `start` on was announced at once, except an unannounced one, which never was. */
  ghost predicate AnnouncedBut(log: seq<LogEntry>, start: nat, m: Mishap) {
    && (forall j :: start <= j < |log| && log[j].Finished? && m != Unannounced(log[j].row) ==>
          j + 1 < |log| && log[j + 1] == Notified(log[j].row))
    && (m.Unannounced? ==> Notified(m.row) !in log && exists j :: start <= j < |log| && log[j] == Finished(m.row))
  }

  lemma NothingNew(log: seq<LogEntry>)
    ensures forall m: Mishap :: !m.Unannounced? ==> AnnouncedBut(log, |log|, m)
  {
  }

  /** A finish just committed, still without its announcement, and with it. */
  lemma FinishUnannounced(log: seq<LogEntry>, rows: seq<Row>, i: nat)
    requires SoundLog(log) && LogFits(log, rows) && i < |rows| && rows[i].state.Processing?
    ensures AnnouncedBut(log + [Finished(i)], |log|, Unannounced(i))
  {
    assert (log + [Finished(i)])[|log|] == Finished(i) && Finished(i) !in log;
    forall j | 0 <= j < |log| && log[j].Notified? ensures rows[log[j].row].state.Terminal? {
      assert log[j - 1] == Finished(log[j].row);
    }
  }

  lemma FinishAnnounced(log: seq<LogEntry>, i: nat)
    ensures AnnouncedBut(log + [Finished(i), Notified(i)], |log|, NoMishap)
  {
  }

  lemma AnnouncedOnwards(early: seq<LogEntry>, log: seq<LogEntry>, start: nat, m: Mishap)
    requires early <= log && start <= |early|
    requires AnnouncedBut(early, start, NoMishap) && AnnouncedBut(log, |early|, m)
    ensures AnnouncedBut(log, start, m)
  {
    forall j | start <= j < |log| && log[j].Finished? && m != Unannounced(log[j].row)
      ensures j + 1 < |log| && log[j + 1] == Notified(log[j].row)
    {
      if j < |early| { assert early[j] == log[j] && early[j + 1] == log[j + 1]; }
    }
  }

  /** Rows are never removed, a final row is never reopened, and only a still claimed row is newly in processing. */
  ghost predicate RowsKept(before: seq<Row>, after: seq<Row>, m: Mishap) {
    && |before| <= |after|
    && (forall i :: 0 <= i < |before| && before[i].state.Terminal? ==> after[i].state.Terminal?)
    && (forall i :: 0 <= i < |after| && after[i].state.Processing? ==>
          (i < |before| && before[i].state.Processing?) || m == StillClaimed(i))
    && (m.StillClaimed? ==> m.row < |after| && after[m.row].state.Processing?)
  }

  /** The processor may work and keeps running, and no call fails; whatever arrives, and whatever the clock does. */
  predicate Smooth(a: Attempt) {
    a.canProcess && !a.claimFails && !GivesUp(a) && a.startedAfter
  }

  /** Nobody takes a claim away. */
  predicate Unhindered(a: Attempt) {
    a.recoveredAt.None? && a.conflicts == {}
  }

  lemma SmoothGoesOn(a: Attempt)
    requires Smooth(a) && Unhindered(a)
    ensures a.canProcess && !a.claimFails && a.startedAfter && !GivesUp(a) && forall i :: !TakenAway(a, i)
  {
  }

  /** The same while row `i` is claimed. */
  ghost predicate KeptBut(before: seq<Row>, after: seq<Row>, i: nat) {
    && |before| <= |after|
    && (forall k :: 0 <= k < |before| && before[k].state.Terminal? ==> after[k].state.Terminal?)
    && (forall k :: 0 <= k < |after| && after[k].state.Processing? ==>
        k == i || (k < |before| && before[k].state.Processing?))
  }

  lemma ClaimingKept(rows: seq<Row>, i: nat, now: int, log: seq<LogEntry>)
    requires i < |rows| && Eligible(rows[i], now) && LogFits(log, rows)
    ensures LogFits(log, rows[i := rows[i].(state := Processing)])
  {
  }

  lemma SettledRowsKept(before: seq<Row>, mid: seq<Row>, after: seq<Row>, i: nat, m: Mishap)
    requires KeptBut(before, mid, i) && RowsKept(mid, after, NoMishap)
    requires i < |after| && (after[i].state.Processing? <==> m == StillClaimed(i)) && (m == NoMishap || m.row == i)
    ensures RowsKept(before, after, m)
  {
  }

  lemma SameRowsKept(rows: seq<Row>)
    ensures RowsKept(rows, rows, NoMishap)
  {
  }

  /** The table after what other callers did to it. */
  function Outside(rows: seq<Row>, a: Attempt): seq<Row> {
    Conflicted(if a.recoveredAt.Some? then Recovered(rows, a.recoveredAt.value) else rows, a.conflicts) + a.arrivals
  }

  lemma OutsideKept(rows: seq<Row>, a: Attempt, log: seq<LogEntry>)
    requires Legal(a) && LogFits(log, rows)
    ensures RowsKept(rows, Outside(rows, a), NoMishap) && LogFits(log, Outside(rows, a))
    ensures forall i :: 0 <= i < |rows| && rows[i].state.Processing? ==>
      (Outside(rows, a)[i].state.Processing? <==> !TakenAway(a, i))
    ensures a.arrivals == [] && a.conflicts == {} && a.recoveredAt.None? ==> Outside(rows, a) == rows
  {
  }

  lemma RetriedKept(rows: seq<Row>, i: nat, at: int, log: seq<LogEntry>)
    requires i < |rows| && rows[i].state.Processing? && LogFits(log, rows)
    ensures var after := rows[i := rows[i].(state := Claimed(at))];
      RowsKept(rows, after, NoMishap) && LogFits(log, after)
  {
  }

  lemma RecoveredKept(rows: seq<Row>, at: int, log: seq<LogEntry>)
    requires LogFits(log, rows)
    ensures RowsKept(rows, Recovered(rows, at), NoMishap) && LogFits(log, Recovered(rows, at))
  {
  }

  lemma RowsKeptOnwards(a: seq<Row>, b: seq<Row>, c: seq<Row>, m: Mishap)
    requires RowsKept(a, b, NoMishap) && RowsKept(b, c, m)
    ensures RowsKept(a, c, m)
  {
  }

  function CountNotified(log: seq<LogEntry>): nat {
    if |log| == 0 then 0 else CountNotified(log[..|log| - 1]) + if log[|log| - 1].Notified? then 1 else 0
  }

  lemma OneAnnounced(log: seq<LogEntry>, i: nat)
    ensures CountNotified(log + [Finished(i), Notified(i)]) == CountNotified(log) + 1
  {
    var once := log + [Finished(i)];
    var after := log + [Finished(i), Notified(i)];
    assert after[..|after| - 1] == once && once[..|once| - 1] == log;
  }

  datatype AttemptResult = NothingToClaim | ClaimThrew | Done(notified: bool) | GaveUp

  /** Why a drain ended. */
  datatype Ending = NotAsked | CannotProcess | Stopped | ClaimFailed | GaveUpOn(row: nat) | NothingDue

  class ObserverInboxProcessor {
    var rows: seq<Row>
    var started: bool
    var drainRequested: bool
    const retryIntervalMs: nat
    const maxBatchSize: nat
    ghost var log: seq<LogEntry>

    ghost predicate Valid()
      reads this
    {
      retryIntervalMs >= 1 && maxBatchSize >= 1 && SoundLog(log) && LogFits(log, rows)
    }

    constructor (inbox: seq<Row>, retryInterval: nat, batchSize: nat)
      requires retryInterval >= 1 && batchSize >= 1
      ensures Valid() && rows == inbox && log == [] && !started
    {
      rows, started, drainRequested, log := inbox, false, false, [];
      retryIntervalMs, maxBatchSize := retryInterval, batchSize;
    }

    /** `#returnToQueue`: the targeted retry, or else the recovery of every claim. */
    method ReturnToQueue(i: nat, a: Attempt) returns (failed: bool)
      requires Valid() && i < |rows|
      modifies `rows
      ensures Valid() && RowsKept(old(rows), rows, NoMishap) && |rows| == |old(rows)|
      ensures failed <==> a.retryFails || !old(rows[i]).state.Processing?
      ensures rows ==
        if !failed then old(rows)[i := old(rows)[i].(state := Claimed(a.completedAt + retryIntervalMs))]
        else if a.recoverFails then old(rows)
        else Recovered(old(rows), a.completedAt)
    {
      hide SoundLog, LogFits, RowsKept;
      if !a.retryFails && rows[i].state.Processing? {
        RetriedKept(rows, i, a.completedAt + retryIntervalMs, log);
        rows := rows[i := rows[i].(state := Claimed(a.completedAt + retryIntervalMs))];
        return false;
      }
      RecoveredKept(rows, a.completedAt, log);
      SameRowsKept(rows);
      if !a.recoverFails {
        rows := Recovered(rows, a.completedAt);
      }
      failed := true;
    }

    /** `finishDelivery`: refused unless the row is in processing; pruning after the commit may still fail. */
    method Finish(i: nat, state: FinalState, fault: FinishFault) returns (threw: bool)
      requires Valid() && i < |rows|
      modifies `rows, `log
      ensures Valid()
      ensures threw <==> fault != NoFault || !old(rows[i]).state.Processing?
      ensures if fault == BeforeCommit || !old(rows[i]).state.Processing? then rows == old(rows) && log == old(log)
              else rows == old(rows)[i := old(rows)[i].(state := Terminal(state))] && log == old(log) + [Finished(i)]
      ensures RowsKept(old(rows), rows, NoMishap) && CountNotified(log) == CountNotified(old(log))
    {
      if fault == BeforeCommit || !rows[i].state.Processing? {
        return true;
      }
      rows := rows[i := rows[i].(state := Terminal(state))];
      log := log + [Finished(i)];
      assert log[..|log| - 1] == old(log);
      threw := fault == AfterCommit;
    }

    /** Claims row `i` and lets the rest of the system run until its verification is back. */
    method Await(i: nat, a: Attempt)
      requires Valid() && Legal(a) && i < |rows| && Eligible(rows[i], a.claimedAt)
      modifies `rows, `started, `drainRequested
      ensures Valid() && i < |rows|
      ensures KeptBut(old(rows), rows, i)
      ensures rows[i].state.Processing? <==> !TakenAway(a, i)
      ensures Quiet(a, a.claimedAt) ==> rows == old(rows)[i := old(rows)[i].(state := Processing)]
      ensures started == a.startedAfter && drainRequested == (a.startedAfter && (old(drainRequested) || a.notified))
    {
      hide LogFits, SoundLog, Outside;
      var claimed := rows[i := rows[i].(state := Processing)];
      ClaimingKept(rows, i, a.claimedAt, log);
      OutsideKept(claimed, a, log);
      rows := Outside(claimed, a);
      started := a.startedAfter;
      drainRequested := a.startedAfter && (drainRequested || a.notified);
    }

    /** The follow-up call for a delivery that has just been finished. */
    method Announce(i: nat)
      requires Valid() && |log| > 0 && log[|log| - 1] == Finished(i)
      modifies `log
      ensures Valid() && log == old(log) + [Notified(i)]
    {
      log := log + [Notified(i)];
    }

    /** What the loop does with the verdict on row `i`. */
    method Conclude(i: nat, a: Attempt) returns (r: AttemptResult, ghost m: Mishap)
      requires Valid() && i < |rows|
      modifies `rows, `log, `drainRequested
      ensures Valid() && RowsKept(old(rows), rows, NoMishap) && old(log) <= log && |rows| == |old(rows)|
      ensures r == Done(true) ==> log == old(log) + [Finished(i), Notified(i)] && rows[i].state.Terminal?
      ensures r == Done(false) ==> log == old(log) && rows[i].state == Claimed(a.completedAt + retryIntervalMs)
      ensures r.Done? ==> unchanged(`drainRequested)
      ensures r.Done? ==> forall k :: 0 <= k < |rows| && k != i ==> rows[k] == old(rows)[k]
      ensures r.Done? || r.GaveUp?
      ensures r.GaveUp? <==> !old(rows)[i].state.Processing? || GivesUp(a)
      ensures r.GaveUp? ==> CountNotified(log) == CountNotified(old(log)) && !drainRequested
      ensures m == if old(rows)[i].state.Processing? then MishapOf(a, i) else NoMishap
      // left in processing: exactly when neither the retry nor the recovery worked
      ensures rows[i].state.Processing? <==> m == StillClaimed(i)
      // finished and never announced: exactly when pruning failed after the commit
      ensures AnnouncedBut(log, |old(log)|, m) && (m.Unannounced? ==> rows[i].state.Terminal?)
    {
      hide SoundLog, LogFits, RowsKept, CountNotified, AnnouncedBut;
      ghost var before, beforeLog := rows, log;
      var failed: bool;
      m := if rows[i].state.Processing? then MishapOf(a, i) else NoMishap;
      NothingNew(log);
      match a.verdict {
        case Retry(_) =>
          failed := ReturnToQueue(i, a);
          r := Done(false);
        case Finish(state, _) =>
          var threw := Finish(i, state, a.finishFault);
          if !threw {
            Announce(i);
            FinishAnnounced(beforeLog, i);
            assert log == beforeLog + [Finished(i), Notified(i)];
            return Done(true), m;
          }
          ghost var mid := rows;
          if m.Unannounced? {
            FinishUnannounced(beforeLog, before, i);
          }
          failed := ReturnToQueue(i, a);
          RowsKeptOnwards(before, mid, rows, NoMishap);
          failed := true;
        case Threw =>
          failed := ReturnToQueue(i, a);
          failed := true;
      }
      if failed {
        drainRequested := false;
        r := GaveUp;
      }
    }

    /**
     One pass of the inner loop: claim, verify, and settle the delivery one way or another. What it can
     leave behind, and when it gives up, is decided by the claimed row and by what failed in this pass.
     */
    method TryOne(a: Attempt) returns (r: AttemptResult, ghost m: Mishap)
      requires Valid() && Legal(a)
      modifies `rows, `log, `started, `drainRequested
      ensures Valid()
      ensures RowsKept(old(rows), rows, m) && old(log) <= log && AnnouncedBut(log, |old(log)|, m)
      ensures a.claimFails <==> r.ClaimThrew?
      ensures r.NothingToClaim? || r.ClaimThrew? ==> unchanged(this) && m == NoMishap
      ensures !a.claimFails ==> (r.NothingToClaim? <==> NextClaim(old(rows), a.claimedAt).None?)
      ensures r.Done? || r.GaveUp? ==> var i := NextClaim(old(rows), a.claimedAt).value;
        && (r.GaveUp? <==> TakenAway(a, i) || GivesUp(a))
        && m == (if TakenAway(a, i) then NoMishap else MishapOf(a, i))
        && (m == NoMishap || (m.row == i && r.GaveUp?))
      ensures r == Done(true) ==> exists i :: log == old(log) + [Finished(i), Notified(i)]
      ensures r == Done(false) ==> log == old(log)
      ensures CountNotified(log) == CountNotified(old(log)) + if r == Done(true) then 1 else 0
      ensures r.GaveUp? ==> !drainRequested
      ensures r.Done? ==>
        && started == a.startedAfter
        && drainRequested == (a.startedAfter && (old(drainRequested) || a.notified))
      ensures Quiet(a, a.claimedAt) && r.Done? ==> Claimable(rows, a.claimedAt) < Claimable(old(rows), a.claimedAt)
    {
      hide LogFits, SoundLog, RowsKept, KeptBut, CountNotified, Claimable, AnnouncedBut;
      NothingNew(log);
      SameRowsKept(rows);
      if a.claimFails {
        return ClaimThrew, NoMishap;
      }
      var claim := NextClaim(rows, a.claimedAt);
      if claim.None? {
        return NothingToClaim, NoMishap;
      }
      var i := claim.value;
      ghost var before := rows;
      Await(i, a);
      ghost var mid := rows;
      r, m := Conclude(i, a);
      if r == Done(true) { OneAnnounced(old(log), i); }
      SettledRowsKept(before, mid, rows, i, m);
      if Quiet(a, a.claimedAt) && r.Done? {
        assert rows == before[i := rows[i]];
        ClaimableAfterUpdate(before, i, rows[i], a.claimedAt);
      }
    }

    ghost predicate Progress(rows0: seq<Row>, log0: seq<LogEntry>, processed: nat, m: Mishap)
      reads `rows, `log
    {
      && RowsKept(rows0, rows, m) && log0 <= log
      && CountNotified(log) == CountNotified(log0) + processed
      && AnnouncedBut(log, |log0|, m)
    }

    lemma ProgressOnwards(rows0: seq<Row>, log0: seq<LogEntry>, processed: nat, mid: seq<Row>, midLog: seq<LogEntry>,
                          more: nat, m: Mishap)
      requires RowsKept(rows0, mid, NoMishap) && log0 <= midLog
        && CountNotified(midLog) == CountNotified(log0) + processed
      requires AnnouncedBut(midLog, |log0|, NoMishap)
      requires Progress(mid, midLog, more, m)
      ensures Progress(rows0, log0, processed + more, m)
    {
      hide RowsKept, AnnouncedBut, CountNotified;
      RowsKeptOnwards(rows0, mid, rows, m);
      AnnouncedOnwards(midLog, log, |log0|, m);
    }

    /** One batch: at most `maxBatchSize` attempts while started; `end` is set when the drain ends with it. */
    method Batch(env: nat -> Attempt, first: nat, ghost quietFrom: nat, ghost now: int)
      returns (processed: nat, attempts: nat, used: nat, stopped: bool, threw: bool, ghost end: Ending, ghost m: Mishap)
      requires Valid() && started && forall k :: Legal(env(k))
      requires forall k :: k >= quietFrom ==> Quiet(env(k), now)
      modifies `rows, `log, `started, `drainRequested
      ensures Valid() && Progress(old(rows), old(log), processed, m)
      ensures used > first && attempts <= maxBatchSize
      ensures m != NoMishap ==> end == GaveUpOn(m.row) && m == MishapOf(env(used - 1), m.row)
      ensures stopped <==> end.ClaimFailed? || end.GaveUpOn?
      ensures end.ClaimFailed? <==> threw
      ensures threw ==> env(used - 1).claimFails
      ensures end.GaveUpOn? ==> !drainRequested && (TakenAway(env(used - 1), end.row) || GivesUp(env(used - 1)))
      ensures !stopped && started && attempts < maxBatchSize ==> Claimable(rows, env(used - 1).claimedAt) == 0
      ensures !stopped && !started ==> !env(used - 1).startedAfter
      ensures first >= quietFrom && !stopped ==>
        && Claimable(rows, now) + attempts <= Claimable(old(rows), now)
        && (drainRequested ==> old(drainRequested))
    {
      hide LogFits, SoundLog, RowsKept, CountNotified, Claimable, Eligible, AnnouncedBut, GivesUp, MishapOf, TakenAway;
      processed, attempts, used, stopped, threw := 0, 0, first, false, false;
      end, m := NothingDue, NoMishap;
      SameRowsKept(rows);
      NothingNew(log);
      var batchIndex := 0;
      while batchIndex < maxBatchSize && started
        invariant batchIndex <= maxBatchSize && attempts == batchIndex && used == first + batchIndex
        invariant Valid() && Progress(old(rows), old(log), processed, m) && m == NoMishap && end.NothingDue?
        invariant batchIndex == 0 ==> started
        invariant !started ==> !env(used - 1).startedAfter
        invariant first >= quietFrom ==>
          Claimable(rows, now) + attempts <= Claimable(old(rows), now) && (drainRequested ==> old(drainRequested))
      {
        var a := env(used);
        ghost var mid, midLog := rows, log;
        var r;
        r, m := TryOne(a);
        used := used + 1;
        ProgressOnwards(old(rows), old(log), processed, mid, midLog, if r == Done(true) then 1 else 0, m);
        if r.ClaimThrew? {
          stopped, threw, end := true, true, ClaimFailed;
          return;
        }
        if r.NothingToClaim? {
          NothingClaimable(rows, a.claimedAt);
          return;
        }
        attempts := attempts + 1;
        batchIndex := batchIndex + 1;
        if r.GaveUp? {
          stopped, end := true, GaveUpOn(NextClaim(mid, a.claimedAt).value);
          return;
        }
        if r.notified {
          processed := processed + 1;
        }
      }
    }

    /** What is so at a drain's end, for each of the reasons why it can end. */
    ghost predicate Ended(end: Ending, env: nat -> Attempt, used: nat, threw: bool)
      reads `rows, `started, `drainRequested
    {
      && (threw <==> end.ClaimFailed?)
      && (end.ClaimFailed? || end.GaveUpOn? || end.NothingDue? ==> used > 0)
      && match end
         case NotAsked => !(started && drainRequested)
         case CannotProcess => !env(used).canProcess
         case Stopped => !started
         case ClaimFailed => env(used - 1).claimFails
         case GaveUpOn(i) => !drainRequested && (TakenAway(env(used - 1), i) || GivesUp(env(used - 1)))
         case NothingDue => started && !drainRequested && Claimable(rows, env(used - 1).claimedAt) == 0
    }

    /**
     The whole drain, against any environment that is eventually quiet. Each delivery is finished at
     most once, the follow-up call comes right after its finish, and final rows stay final. At most one
     row is left in processing or finished without its follow-up call: that of the last attempt, when
     both its retry and the recovery failed, or its payload pruning after the commit. The drain ends for
     the reason it names; if attempts are smooth and no claim is taken away, only because nothing was due.
     */
    method Drain(env: nat -> Attempt, ghost quietFrom: nat, ghost now: int)
      returns (processed: nat, threw: bool, ghost used: nat, ghost end: Ending, ghost m: Mishap)
      requires Valid() && forall k :: Legal(env(k))
      requires forall k :: k >= quietFrom ==> Quiet(env(k), now)
      modifies `rows, `log, `started, `drainRequested
      ensures Valid()
      ensures RowsKept(old(rows), rows, m) && old(log) <= log && AnnouncedBut(log, |old(log)|, m)
      ensures CountNotified(log) == CountNotified(old(log)) + processed
      ensures Ended(end, env, used, threw) && (end.NotAsked? <==> !old(started && drainRequested))
      ensures m != NoMishap ==> end == GaveUpOn(m.row) && m == MishapOf(env(used - 1), m.row)
      ensures old(started && drainRequested) && (forall k :: Smooth(env(k)) && Unhindered(env(k))) ==>
        end.NothingDue?
    {
      hide LogFits, SoundLog, RowsKept, CountNotified, Claimable, Quiet, AnnouncedBut, GivesUp, MishapOf, TakenAway,
           Smooth, Unhindered;
      processed, threw, m := 0, false, NoMishap;
      end := if started && drainRequested then NothingDue else NotAsked;
      var next := 0;
      used := next;
      SameRowsKept(rows);
      NothingNew(log);
      while started && drainRequested
        invariant Valid() && Progress(old(rows), old(log), processed, m) && !threw && m == NoMishap && used == next
        invariant end.NotAsked? <==> !old(started && drainRequested)
        invariant end.NotAsked? || end.NothingDue?
        invariant end.NothingDue? ==> used > 0 || (started && drainRequested)
        invariant end.NothingDue? && started && !drainRequested ==> Claimable(rows, env(used - 1).claimedAt) == 0
        invariant end.NothingDue? && !started ==> !env(used - 1).startedAfter
        invariant end.NotAsked? ==> !(started && drainRequested)
        decreases if next < quietFrom then quietFrom - next else 0, Claimable(rows, now), drainRequested
      {
        drainRequested := false;
        if Smooth(env(next)) && Unhindered(env(next)) { SmoothGoesOn(env(next)); }
        if !env(next).canProcess {
          end := CannotProcess;
          return;
        }
        ghost var mid, midLog := rows, log;
        var more, attempts, stopped;
        more, attempts, next, stopped, threw, end, m := Batch(env, next, quietFrom, now);
        used := next;
        if Smooth(env(used - 1)) && Unhindered(env(used - 1)) { SmoothGoesOn(env(used - 1)); }
        ProgressOnwards(old(rows), old(log), processed, mid, midLog, more, m);
        processed := processed + more;
        if stopped {
          return;
        }
        end := NothingDue;
        if attempts == maxBatchSize {
          drainRequested := true;
        }
      }
      if used > 0 && Smooth(env(used - 1)) && Unhindered(env(used - 1)) { SmoothGoesOn(env(used - 1)); }
      if end.NothingDue? && !started {
        end := Stopped;
      }
    }

    /** `start`: claims left by an earlier process or by double faults become claimable. */
    method Start(now: int) returns (recovered: bool)
      requires Valid()
      modifies `rows, `started, `drainRequested
      ensures Valid() && started && (drainRequested || old(started))
      ensures recovered == !old(started)
      ensures recovered ==>
        rows == Recovered(old(rows), now) && forall i :: 0 <= i < |rows| ==> !rows[i].state.Processing?
      ensures !recovered ==> rows == old(rows)
    {
      if started {
        return false;
      }
      started := true;
      RecoveredKept(rows, now, log);
      rows := Recovered(rows, now);
      drainRequested := true;
      recovered := true;
    }

    /** The delivery's finish is durable, at most once, and announced right after it if at all. */
    lemma FinishedOnceThenAnnounced(i: nat)
      requires Valid()
      ensures forall j, k :: 0 <= j < k < |log| && log[j] == Finished(i) ==> log[k] != Finished(i)
      ensures Finished(i) in log ==> i < |rows| && rows[i].state.Terminal?
      ensures forall j :: 0 <= j < |log| && log[j] == Notified(i) ==> j > 0 && log[j - 1] == Finished(i)
      ensures forall j, k :: 0 <= j < k < |log| && log[j] == Notified(i) ==> log[k] != Notified(i)
    {
      forall j, k | 0 <= j < k < |log| && log[j] == Notified(i) ensures log[k] != Notified(i) {
        assert log[j - 1] == Finished(i) && log[k - 1] != Finished(i);
      }
    }
  }

  lemma {:induction false} NothingClaimable(rows: seq<Row>, now: int)
    requires NextClaim(rows, now).None?
    ensures Claimable(rows, now) == 0
  {
    if |rows| > 0 {
      NothingClaimable(rows[..|rows| - 1], now);
    }
  }

  /** One delivery, pruning fails after its finish is committed: final, and never announced. */
  method PruningFaultSilencesADelivery() returns (p: ObserverInboxProcessor, r: AttemptResult)
    ensures p.Valid() && |p.rows| > 0 && p.rows[0].state.Terminal?
    ensures r.GaveUp? && Finished(0) in p.log && Notified(0) !in p.log
  {
    p := new ObserverInboxProcessor([Row(Claimed(0), 0, 0)], 1000, 10);
    var recovered := p.Start(0);
    var verdict := Finish(NodeVerified, Proved);
    var a := Attempt(true, 0, false, verdict, [], {}, None, false, true, 0, AfterCommit, false, false);
    assert Eligible(p.rows[0], 0);
    ghost var m;
    r, m := p.TryOne(a);
  }
}
