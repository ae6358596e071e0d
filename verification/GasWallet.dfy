/**
 The gas-wallet sweep lifecycle: durable rows and wallet authorizations, in-memory approvals and
 refreshes that other calls overtake at every await, and crashes that forget the in-memory half.
 */
module GasWallet {
  import opened Wrappers

  type Principal = nat
  type Txid = nat

  datatype Status = Planned | Broadcast | Confirmed | Failed | Cancelled | Expired
  datatype FailureReason =
    ApprovalElapsed | AccountChanged | SigningFailed | NodeRejected | AbortedOnChain | Conflicting

  datatype Sweep = Sweep(wallet: Principal, nonce: nat, amount: nat, fee: nat, expiresAt: int,
                         status: Status, txid: Option<Txid>, broadcastAmbiguous: bool,
                         failureReason: Option<FailureReason>)

  /** Who holds a wallet's single authorization. */
  datatype Holder = SweepHolds(id: nat) | RunHolds

  predicate Active(s: Sweep) {
    s.status == Planned || s.status == Broadcast
  }

  /** Where an approval stands between two awaits. */
  datatype Phase = Checking | Signing | Recorded(txid: Txid) | Submitted(txid: Txid)

  datatype Submission = Submission(id: nat, txid: Txid)

  // ---------------------------------------------------------------------------------------------
  // What rows may become
  // ---------------------------------------------------------------------------------------------

  /** A transaction id is recorded exactly from broadcasting on; a failure may lie on either side. */
  predicate RowFits(s: Sweep) {
    match s.status
    case Planned => s.txid.None?
    case Broadcast => s.txid.Some?
    case Confirmed => s.txid.Some?
    case Failed => true
    case Cancelled => s.txid.None?
    case Expired => s.txid.None?
  }

  /**
   Once broadcast, a sweep keeps its transaction and moves only to confirmed or failed, where it
   stays. One that ended before it was broadcast never becomes active again.
   */
  predicate Evolves(before: Sweep, after: Sweep) {
    && after.wallet == before.wallet && after.nonce == before.nonce && after.amount == before.amount
    && after.fee == before.fee && after.expiresAt == before.expiresAt
    && (before.txid.Some? ==>
          && after.txid == before.txid
          && (after.status == Broadcast || after.status == Confirmed || after.status == Failed)
          && (before.status != Broadcast ==> after.status == before.status))
    && (before.txid.None? && before.status != Planned ==> after.txid.None? && !Active(after))
  }

  ghost predicate RowsEvolve(before: seq<Sweep>, after: seq<Sweep>) {
    |before| <= |after| && forall i :: 0 <= i < |before| ==> Evolves(before[i], after[i])
  }

  lemma RowsEvolveOnwards(a: seq<Sweep>, b: seq<Sweep>, c: seq<Sweep>)
    requires RowsEvolve(a, b) && RowsEvolve(b, c)
    requires forall i :: 0 <= i < |a| ==> RowFits(a[i])
    requires forall i :: 0 <= i < |b| ==> RowFits(b[i])
    ensures RowsEvolve(a, c)
  {
    forall i | 0 <= i < |a| ensures Evolves(a[i], c[i]) {
      assert Evolves(a[i], b[i]) && Evolves(b[i], c[i]) && RowFits(a[i]) && RowFits(b[i]);
    }
  }

  /** Each active sweep holds its wallet's authorization, and a sweep that holds one is active. */
  ghost predicate AuthorizationsFit(rows: seq<Sweep>, holders: map<Principal, Holder>) {
    && (forall i :: 0 <= i < |rows| && Active(rows[i]) ==>
        rows[i].wallet in holders && holders[rows[i].wallet] == SweepHolds(i))
    && (forall w :: w in holders && holders[w].SweepHolds? ==>
          holders[w].id < |rows| && Active(rows[holders[w].id]) && rows[holders[w].id].wallet == w)
  }

  /** What an approval in flight knows about its row. */
  predicate PhaseFits(s: Sweep, phase: Phase) {
    match phase
    case Checking => s.txid.None?
    case Signing => s.txid.None?
    case Recorded(txid) => s.txid == Some(txid)
    case Submitted(txid) => s.txid == Some(txid)
  }

  ghost predicate ApprovalsFit(rows: seq<Sweep>, approvals: map<nat, Phase>) {
    forall i :: i in approvals ==> i < |rows| && PhaseFits(rows[i], approvals[i])
  }

  /** Every submission is of the recorded transaction, one per sweep, and none of a sweep still to be submitted. */
  ghost predicate SubmissionsFit(rows: seq<Sweep>, approvals: map<nat, Phase>, submissions: seq<Submission>) {
    && (forall k :: 0 <= k < |submissions| ==>
          && submissions[k].id < |rows| && rows[submissions[k].id].txid == Some(submissions[k].txid)
          && (submissions[k].id in approvals ==> !approvals[submissions[k].id].Recorded?))
    && (forall j, k :: 0 <= j < k < |submissions| ==> submissions[j].id != submissions[k].id)
  }

  function LatestActive(rows: seq<Sweep>): (r: Option<nat>)
    ensures r.None? <==> forall i :: 0 <= i < |rows| ==> !Active(rows[i])
    ensures r.Some? ==> r.value < |rows| && Active(rows[r.value])
  {
    if |rows| == 0 then None
    else if Active(rows[|rows| - 1]) then Some(|rows| - 1) else LatestActive(rows[..|rows| - 1])
  }

  function Released(holders: map<Principal, Holder>, i: nat): map<Principal, Holder> {
    map w | w in holders && holders[w] != SweepHolds(i) :: holders[w]
  }

  /** Whatever happens to sweeps, the wallets held by reward runs stay held, and no others become so. */
  ghost predicate RunsKept(before: map<Principal, Holder>, after: map<Principal, Holder>) {
    forall w :: (w in before && before[w].RunHolds?) <==> (w in after && after[w].RunHolds?)
  }

  lemma ReleasedKeepsRuns(holders: map<Principal, Holder>, i: nat)
    ensures RunsKept(holders, Released(holders, i))
  {
  }

  lemma AuthorizationsAfter(rows: seq<Sweep>, holders: map<Principal, Holder>, i: nat, row: Sweep)
    requires AuthorizationsFit(rows, holders) && i < |rows| && row.wallet == rows[i].wallet
      && (Active(row) ==> Active(rows[i]))
    ensures AuthorizationsFit(rows[i := row], if Active(row) then holders else Released(holders, i))
  {
  }

  lemma ApprovalsAfter(rows: seq<Sweep>, approvals: map<nat, Phase>, submissions: seq<Submission>, i: nat, row: Sweep)
    requires ApprovalsFit(rows, approvals) && SubmissionsFit(rows, approvals, submissions)
    requires i < |rows| && Evolves(rows[i], row) && (i in approvals ==> PhaseFits(row, approvals[i]))
    ensures ApprovalsFit(rows[i := row], approvals) && SubmissionsFit(rows[i := row], approvals, submissions)
  {
  }

  lemma RowsAfter(rows: seq<Sweep>, i: nat, row: Sweep)
    requires i < |rows| && Evolves(rows[i], row) && forall k :: 0 <= k < |rows| ==> RowFits(rows[k])
    ensures RowsEvolve(rows, rows[i := row])
  {
    assert forall k :: 0 <= k < |rows| ==> RowFits(rows[k]) && Evolves(rows[k], rows[i := row][k]);
  }

  // ---------------------------------------------------------------------------------------------
  // The service
  // ---------------------------------------------------------------------------------------------

  datatype Account = Unavailable | Observed(nonce: nat, balance: nat)
  datatype BroadcastResult = Accepted | Ambiguous | DeterministicRejection
  datatype ChainOutcome = OutcomeConfirmed(success: bool) | OutcomeConflict | OutcomeUnknown
  datatype Answer = Went | Refused

  class GasWalletService {
    // Durable.
    var rows: seq<Sweep>
    var holders: map<Principal, Holder>
    // Forgotten by a crash.
    var approvals: map<nat, Phase>
    var refreshes: set<nat>
    /** Every transaction handed to the network. */
    ghost var submissions: seq<Submission>

    ghost predicate Valid()
      reads this
    {
      && (forall i :: 0 <= i < |rows| ==> RowFits(rows[i]))
      && AuthorizationsFit(rows, holders)
      && ApprovalsFit(rows, approvals)
      && SubmissionsFit(rows, approvals, submissions)
      && (forall i :: i in refreshes ==> i < |rows|)
    }

    constructor ()
      ensures Valid() && rows == [] && submissions == [] && holders == map[] && approvals == map[] && refreshes == {}
    {
      rows, holders, approvals, refreshes, submissions := [], map[], map[], {}, [];
    }

    /** `gasWalletSweeps.update`: the row and, when it ends the sweep, the authorization, in one transaction. */
    method Update(i: nat, row: Sweep)
      requires Valid() && i < |rows| && RowFits(row) && Evolves(rows[i], row)
      requires Active(row) ==> Active(rows[i])
      requires i in approvals ==> PhaseFits(row, approvals[i])
      modifies `rows, `holders
      ensures Valid() && rows == old(rows)[i := row] && RowsEvolve(old(rows), rows)
      ensures holders == if Active(row) then old(holders) else Released(old(holders), i)
    {
      hide AuthorizationsFit, ApprovalsFit, SubmissionsFit, RowsEvolve, Released;
      AuthorizationsAfter(rows, holders, i, row);
      ApprovalsAfter(rows, approvals, submissions, i, row);
      RowsAfter(rows, i, row);
      rows := rows[i := row];
      if !Active(row) {
        holders := Released(holders, i);
      }
    }

    /** `#resolveSweep`, which looks at nothing before it writes. */
    method Resolve(i: nat, status: Status, reason: Option<FailureReason>)
      requires Valid() && i < |rows| && rows[i].txid.None?
      requires status == Failed || status == Cancelled || status == Expired
      modifies `rows, `holders
      ensures RunsKept(old(holders), holders)
      ensures Valid() && RowsEvolve(old(rows), rows)
      ensures rows == old(rows)[i := old(rows)[i].(status := status, failureReason := reason)]
      ensures holders == Released(old(holders), i)
    {
      hide AuthorizationsFit, ApprovalsFit, SubmissionsFit, RowsEvolve, Released;
      assert ApprovalsFit(rows, approvals);
      PhaseOf(rows, approvals, i);
      ReleasedKeepsRuns(holders, i);
      Update(i, rows[i].(status := status, failureReason := reason));
    }

    method Forget(i: nat)
      requires Valid()
      modifies `approvals
      ensures Valid() && approvals == old(approvals) - {i}
    {
      approvals := approvals - {i};
    }

    // Approval --------------------------------------------------------------------------------------

    /** `approveSweep` up to its first await; a second call for a sweep joins the first. */
    method BeginApprove(i: nat, now: int, signerReady: bool, runJobs: nat) returns (answer: Answer)
      requires Valid()
      modifies `rows, `holders, `approvals
      ensures RunsKept(old(holders), holders)
      ensures Valid() && RowsEvolve(old(rows), rows)
      ensures i in old(approvals) ==> answer == Went && approvals == old(approvals) && rows == old(rows)
      ensures i !in old(approvals) ==>
        && (answer == Went <==>
            && signerReady && runJobs == 0
            && i < |old(rows)| && old(rows)[i].status == Planned && now < old(rows)[i].expiresAt)
        && approvals == if answer == Went then old(approvals)[i := Checking] else old(approvals)
      ensures rows == if i !in old(approvals) && signerReady && i < |old(rows)| && old(rows)[i].status == Planned
        && old(rows)[i].expiresAt <= now
        then old(rows)[i := old(rows)[i].(status := Expired, failureReason := Some(ApprovalElapsed))] else old(rows)
    {
      hide AuthorizationsFit, RowsEvolve;
      SameRows(rows);
      if i in approvals {
        return Went;
      }
      if !signerReady || i >= |rows| || rows[i].status != Planned {
        return Refused;
      }
      assert RowFits(rows[i]);
      if rows[i].expiresAt <= now {
        Resolve(i, Expired, Some(ApprovalElapsed));
        return Refused;
      }
      if runJobs > 0 {
        return Refused;
      }
      approvals := approvals[i := Checking];
      answer := Went;
    }

    /** `#assertSweepApprovalCurrent`. */
    predicate StillCurrent(i: nat, now: int)
      reads `rows
    {
      i < |rows| && rows[i].status == Planned && now < rows[i].expiresAt
    }

    /** The refusal checks and the account read came back. */
    method AccountRead(i: nat, refused: bool, account: Account, now: int) returns (answer: Answer)
      requires Valid() && i in approvals && approvals[i] == Checking
      modifies `rows, `holders, `approvals
      ensures RunsKept(old(holders), holders)
      ensures Valid() && RowsEvolve(old(rows), rows)
      ensures answer == Went <==> old(!refused && account.Observed? && !Stale(rows[i], account) && StillCurrent(i, now))
      ensures approvals == if answer == Went then old(approvals)[i := Signing] else old(approvals) - {i}
      ensures rows == if !refused && account.Observed? && Stale(old(rows)[i], account)
        then old(rows)[i := old(rows)[i].(status := Expired, failureReason := Some(AccountChanged))] else old(rows)
      // a cancellation is overwritten exactly by a stale account
      ensures i < |rows| == |old(rows)|
      ensures old(rows)[i].status.Cancelled? && rows[i].status != Cancelled <==>
        old(rows)[i].status.Cancelled? && !refused && account.Observed? && Stale(old(rows)[i], account)
    {
      hide AuthorizationsFit, RowsEvolve;
      SameRows(rows);
      PhaseOf(rows, approvals, i);
      if refused || account.Unavailable? {
        Forget(i);
        return Refused;
      }
      if Stale(rows[i], account) {
        Resolve(i, Expired, Some(AccountChanged));
        Forget(i);
        return Refused;
      }
      if !StillCurrent(i, now) {
        Forget(i);
        return Refused;
      }
      approvals := approvals[i := Signing];
      answer := Went;
    }

    /** Signing came back; the transaction id is made durable before anything reaches the network. */
    method SignDone(i: nat, signed: Option<Txid>, now: int) returns (answer: Answer)
      requires Valid() && i in approvals && approvals[i] == Signing
      modifies `rows, `holders, `approvals
      ensures RunsKept(old(holders), holders)
      ensures Valid() && RowsEvolve(old(rows), rows)
      ensures answer == Went <==> signed.Some? && old(StillCurrent(i, now))
      ensures approvals == if answer == Went then old(approvals)[i := Recorded(signed.value)] else old(approvals) - {i}
      ensures rows == if signed.None?
          then old(rows)[i := old(rows)[i].(status := Failed, failureReason := Some(SigningFailed))]
        else if answer == Went
          then old(rows)[i := old(rows)[i].(status := Broadcast, txid := signed, broadcastAmbiguous := true)]
        else old(rows)
      // a cancellation is overwritten exactly by a signing failure
      ensures i < |rows| == |old(rows)|
      ensures old(rows)[i].status.Cancelled? && rows[i].status != Cancelled <==>
        old(rows)[i].status.Cancelled? && signed.None?
    {
      hide AuthorizationsFit, RowsEvolve;
      SameRows(rows);
      PhaseOf(rows, approvals, i);
      if signed.None? {
        Resolve(i, Failed, Some(SigningFailed));
        Forget(i);
        return Refused;
      }
      if !StillCurrent(i, now) {
        Forget(i);
        return Refused;
      }
      Forget(i);
      NotSubmittedYet(rows, submissions, i);
      hide ApprovalsFit, SubmissionsFit;
      Update(i, rows[i].(status := Broadcast, txid := signed, broadcastAmbiguous := true));
      RecordedFits(rows, approvals, submissions, i, signed.value);
      approvals := approvals[i := Recorded(signed.value)];
      answer := Went;
    }

    /** The broadcaster hands the signed transaction to the network. */
    method Submit(i: nat)
      requires Valid() && i in approvals && approvals[i].Recorded?
      modifies `approvals, `submissions
      ensures Valid()
      ensures submissions == old(submissions) + [Submission(i, old(approvals)[i].txid)]
      ensures approvals == old(approvals)[i := Submitted(old(approvals)[i].txid)]
      ensures rows[i].txid == Some(old(approvals)[i].txid) && rows[i].status != Cancelled && rows[i].status != Expired
    {
      hide AuthorizationsFit;
      PhaseOf(rows, approvals, i);
      assert RowFits(rows[i]);
      submissions := submissions + [Submission(i, approvals[i].txid)];
      approvals := approvals[i := Submitted(approvals[i].txid)];
    }

    /** The broadcast answered or failed; what settled meanwhile is left alone. */
    method Response(i: nat, result: BroadcastResult)
      requires Valid() && i in approvals && (approvals[i].Recorded? || approvals[i].Submitted?)
      modifies `rows, `holders, `approvals
      ensures RunsKept(old(holders), holders)
      ensures Valid() && RowsEvolve(old(rows), rows) && approvals == old(approvals) - {i}
      ensures rows == if old(rows)[i].status != Broadcast || old(rows)[i].failureReason.Some? then old(rows)
        else if result == DeterministicRejection
          then old(rows)[i := old(rows)[i].(status := Failed, failureReason := Some(NodeRejected))]
        else old(rows)[i := old(rows)[i].(broadcastAmbiguous := result == Ambiguous)]
    {
      hide AuthorizationsFit, RowsEvolve;
      SameRows(rows);
      PhaseOf(rows, approvals, i);
      Forget(i);
      if rows[i].status != Broadcast || rows[i].failureReason.Some? {
        return;
      }
      if result == DeterministicRejection {
        Update(i, rows[i].(status := Failed, failureReason := Some(NodeRejected)));
      } else {
        Update(i, rows[i].(broadcastAmbiguous := result == Ambiguous));
      }
    }

    // Cancelling, expiring, refreshing ---------------------------------------------------------------

    method Cancel(i: nat) returns (answer: Answer)
      requires Valid()
      modifies `rows, `holders
      ensures RunsKept(old(holders), holders)
      ensures Valid() && RowsEvolve(old(rows), rows)
      ensures answer == Went <==> i < |old(rows)| && old(rows)[i].status == Planned
      ensures rows == if answer == Went
        then old(rows)[i := old(rows)[i].(status := Cancelled, failureReason := None)] else old(rows)
    {
      hide AuthorizationsFit, RowsEvolve;
      SameRows(rows);
      if i >= |rows| || rows[i].status != Planned {
        return Refused;
      }
      assert RowFits(rows[i]);
      Resolve(i, Cancelled, None);
      answer := Went;
    }

    /** `#expirePlannedSweeps` on the sweep `active()` returns, the latest active one. */
    method ExpirePlanned(now: int)
      requires Valid()
      modifies `rows, `holders
      ensures RunsKept(old(holders), holders)
      ensures Valid() && RowsEvolve(old(rows), rows)
      ensures var a := LatestActive(old(rows));
        rows == if a.Some? && old(rows)[a.value].status == Planned && old(rows)[a.value].expiresAt <= now
          then old(rows)[a.value := old(rows)[a.value].(status := Expired, failureReason := Some(ApprovalElapsed))]
          else old(rows)
    {
      hide AuthorizationsFit, RowsEvolve;
      SameRows(rows);
      var active := LatestActive(rows);
      if active.Some? && rows[active.value].status == Planned && rows[active.value].expiresAt <= now {
        assert RowFits(rows[active.value]);
        Resolve(active.value, Expired, Some(ApprovalElapsed));
      }
    }

    /** `refreshSweep` up to its first await; a second call for a sweep joins the first. */
    method BeginRefresh(i: nat, now: int)
      requires Valid()
      modifies `rows, `holders, `refreshes
      ensures RunsKept(old(holders), holders)
      ensures Valid() && RowsEvolve(old(rows), rows)
      ensures rows == if i !in old(refreshes) && i < |old(rows)| && old(rows)[i].status == Planned
        && old(rows)[i].expiresAt <= now
        then old(rows)[i := old(rows)[i].(status := Expired, failureReason := Some(ApprovalElapsed))] else old(rows)
      ensures refreshes == old(refreshes) + if i < |old(rows)| && old(rows)[i].status == Broadcast then {i} else {}
    {
      hide AuthorizationsFit, RowsEvolve;
      SameRows(rows);
      if i in refreshes || i >= |rows| {
        return;
      }
      assert RowFits(rows[i]);
      if rows[i].status == Planned && rows[i].expiresAt <= now {
        Resolve(i, Expired, Some(ApprovalElapsed));
      } else if rows[i].status == Broadcast {
        refreshes := refreshes + {i};
      }
    }

    /** The chain's outcome for the refreshed transaction came back. */
    method Refreshed(i: nat, outcome: ChainOutcome)
      requires Valid() && i in refreshes
      modifies `rows, `holders, `refreshes
      ensures RunsKept(old(holders), holders)
      ensures Valid() && RowsEvolve(old(rows), rows) && refreshes == old(refreshes) - {i}
      ensures rows == if old(rows)[i].status != Broadcast then old(rows)
        else match outcome
          case OutcomeConflict => old(rows)[i := old(rows)[i].(failureReason := Some(Conflicting))]
          case OutcomeConfirmed(success) => old(rows)[i := old(rows)[i].(
            status := if success then Confirmed else Failed,
            failureReason := if success then None else Some(AbortedOnChain))]
          case OutcomeUnknown => old(rows)
    {
      hide AuthorizationsFit, RowsEvolve;
      SameRows(rows);
      refreshes := refreshes - {i};
      assert RowFits(rows[i]);
      PhaseOf(rows, approvals, i);
      if rows[i].status != Broadcast {
        return;
      }
      match outcome {
        case OutcomeConflict =>
          Update(i, rows[i].(failureReason := Some(Conflicting)));
        case OutcomeConfirmed(success) =>
          Update(i, rows[i].(status := if success then Confirmed else Failed,
                             failureReason := if success then None else Some(AbortedOnChain)));
        case OutcomeUnknown =>
      }
    }

    // Preparing, other holders, crashes --------------------------------------------------------------

    /** `prepareSweep` up to its first await. */
    method BeginPrepare(now: int, runJobs: nat) returns (answer: Answer)
      requires Valid()
      modifies `rows, `holders
      ensures RunsKept(old(holders), holders)
      ensures Valid() && RowsEvolve(old(rows), rows)
      ensures answer == Went <==> runJobs == 0 && forall i :: 0 <= i < |rows| ==> !Active(rows[i])
    {
      ExpirePlanned(now);
      answer := if LatestActive(rows).Some? || runJobs > 0 then Refused else Went;
    }

    /** `gasWalletSweeps.insert`: the wallet's authorization and the planned row, or neither. */
    method Insert(wallet: Principal, nonce: nat, amount: nat, fee: nat, expiresAt: int) returns (answer: Answer)
      requires Valid()
      modifies `rows, `holders
      ensures RunsKept(old(holders), holders)
      ensures Valid() && RowsEvolve(old(rows), rows)
      ensures answer == Refused <==> wallet in old(holders)
      ensures answer == Refused ==> rows == old(rows) && holders == old(holders)
      ensures answer == Went ==>
        && rows == old(rows) + [Sweep(wallet, nonce, amount, fee, expiresAt, Planned, None, false, None)]
        && holders == old(holders)[wallet := SweepHolds(|old(rows)|)]
    {
      hide RowsEvolve;
      SameRows(rows);
      if wallet in holders {
        return Refused;
      }
      ghost var before := rows;
      holders := holders[wallet := SweepHolds(|rows|)];
      rows := rows + [Sweep(wallet, nonce, amount, fee, expiresAt, Planned, None, false, None)];
      AppendedRows(before, rows[|before|]);
      answer := Went;
    }

    method RunAcquires(wallet: Principal) returns (answer: Answer)
      requires Valid()
      modifies `holders
      ensures Valid() && answer == (if wallet in old(holders) then Refused else Went)
      ensures holders == if answer == Went then old(holders)[wallet := RunHolds] else old(holders)
    {
      if wallet in holders {
        return Refused;
      }
      holders := holders[wallet := RunHolds];
      answer := Went;
    }

    method RunReleases(wallet: Principal)
      requires Valid()
      modifies `holders
      ensures Valid()
      ensures holders == if wallet in old(holders) && old(holders)[wallet] == RunHolds then old(holders) - {wallet}
        else old(holders)
    {
      if wallet in holders && holders[wallet] == RunHolds {
        holders := holders - {wallet};
      }
    }

    /** The process dies and restarts; only the rows and authorizations are left. */
    method Crash()
      requires Valid()
      modifies `approvals, `refreshes
      ensures Valid() && approvals == map[] && refreshes == {}
    {
      approvals, refreshes := map[], {};
    }

    // What the invariant means -----------------------------------------------------------------------

    /** Each sweep is submitted at most once, with the transaction its row recorded beforehand. */
    lemma SubmittedAtMostOnce(j: nat, k: nat)
      requires Valid() && j < |submissions| && k < |submissions| && submissions[j].id == submissions[k].id
      ensures j == k
      ensures submissions[j].id < |rows| && rows[submissions[j].id].txid == Some(submissions[j].txid)
      ensures rows[submissions[j].id].status in {Broadcast, Confirmed, Failed}
    {
      assert RowFits(rows[submissions[j].id]);
    }

    /** A cancelled or expired sweep was never submitted. */
    lemma NeverSubmittedWhenEnded(i: nat)
      requires Valid() && i < |rows| && rows[i].status in {Planned, Cancelled, Expired}
      ensures forall k :: 0 <= k < |submissions| ==> submissions[k].id != i
    {
      assert RowFits(rows[i]);
    }

    /**
     At most one sweep of a wallet is active, and none while a run holds the wallet; so with the one
     wallet a deployment has, at most one sweep is active at all.
     */
    lemma OneActiveSweepPerWallet(i: nat, j: nat)
      requires Valid() && i < |rows| && j < |rows| && Active(rows[i])
      ensures Active(rows[j]) && rows[i].wallet == rows[j].wallet ==> i == j
      ensures rows[i].wallet in holders && holders[rows[i].wallet] == SweepHolds(i)
      ensures (forall k :: 0 <= k < |rows| ==> rows[k].wallet == rows[0].wallet) && Active(rows[j]) ==> i == j
    {
      assert Active(rows[j]) ==> holders[rows[j].wallet] == SweepHolds(j);
    }

    // Runs -------------------------------------------------------------------------------------------

    /** One event; what is not enabled does not happen. */
    method Step(e: Event)
      requires Valid()
      modifies this
      ensures Valid() && RowsEvolve(old(rows), rows)
      ensures old(submissions) <= submissions
      ensures |submissions| > |old(submissions)| ==>
        |submissions| == |old(submissions)| + 1 && e == Submits(submissions[|old(submissions)|].id)
    {
      hide AuthorizationsFit, ApprovalsFit, SubmissionsFit, RowsEvolve;
      SameRows(rows);
      match e {
        case Prepares(now, runJobs) => var _ := BeginPrepare(now, runJobs);
        case Inserts(wallet, nonce, amount, fee, expiresAt) => var _ := Insert(wallet, nonce, amount, fee, expiresAt);
        case Approves(i, now, signerReady, runJobs) => var _ := BeginApprove(i, now, signerReady, runJobs);
        case AccountReads(i, refused, account, now) =>
          if i in approvals && approvals[i] == Checking {
            var _ := AccountRead(i, refused, account, now);
          }
        case Signs(i, signed, now) =>
          if i in approvals && approvals[i] == Signing {
            var _ := SignDone(i, signed, now);
          }
        case Submits(i) =>
          if i in approvals && approvals[i].Recorded? {
            Submit(i);
          }
        case Responds(i, result) =>
          if i in approvals && (approvals[i].Recorded? || approvals[i].Submitted?) {
            Response(i, result);
          }
        case Cancels(i) => var _ := Cancel(i);
        case Lists(now) => ExpirePlanned(now);
        case Refreshes(i, now) => BeginRefresh(i, now);
        case Outcomes(i, outcome) =>
          if i in refreshes {
            Refreshed(i, outcome);
          }
        case RunStarts(wallet) => var _ := RunAcquires(wallet);
        case RunEnds(wallet) => RunReleases(wallet);
        case Crashes => Crash();
      }
    }

    /**
     Any interleaving of preparations, approvals at any of their awaits, cancels, listings, refreshes,
     reward runs and crashes: what was ever submitted stays submitted once, and rows only evolve.
     */
    method RunEvents(events: seq<Event>)
      requires Valid()
      modifies this
      ensures Valid() && RowsEvolve(old(rows), rows)
      ensures old(submissions) <= submissions
      ensures forall i :: 0 <= i < |old(rows)| && old(rows)[i].txid.None? && old(rows)[i].status != Planned ==>
        rows[i].txid.None? && forall k :: 0 <= k < |submissions| ==> submissions[k].id != i
    {
      hide AuthorizationsFit, ApprovalsFit, RowsEvolve;
      SameRows(rows);
      for n := 0 to |events|
        invariant Valid() && RowsEvolve(old(rows), rows) && old(submissions) <= submissions
      {
        ghost var mid := rows;
        Step(events[n]);
        RowsEvolveOnwards(old(rows), mid, rows);
      }
      EndedStayUnsubmitted(old(rows), rows);
    }

    lemma EndedStayUnsubmitted(before: seq<Sweep>, after: seq<Sweep>)
      requires RowsEvolve(before, after) && after == rows && Valid()
      ensures forall i :: 0 <= i < |before| && before[i].txid.None? && before[i].status != Planned ==>
        rows[i].txid.None? && forall k :: 0 <= k < |submissions| ==> submissions[k].id != i
    {
      forall i | 0 <= i < |before| && before[i].txid.None? && before[i].status != Planned
        ensures rows[i].txid.None? && forall k :: 0 <= k < |submissions| ==> submissions[k].id != i
      {
        assert Evolves(before[i], after[i]);
      }
    }
  }

  datatype Event =
    | Prepares(now: int, runJobs: nat)
    | Inserts(wallet: Principal, nonce: nat, amount: nat, fee: nat, expiresAt: int)
    | Approves(id: nat, now: int, signerReady: bool, runJobs: nat)
    | AccountReads(id: nat, refused: bool, account: Account, now: int)
    | Signs(id: nat, signed: Option<Txid>, now: int)
    | Submits(id: nat)
    | Responds(id: nat, result: BroadcastResult)
    | Cancels(id: nat)
    | Lists(now: int)
    | Refreshes(id: nat, now: int)
    | Outcomes(id: nat, outcome: ChainOutcome)
    | RunStarts(wallet: Principal)
    | RunEnds(wallet: Principal)
    | Crashes

  /**
   The ended status itself is not frozen before a broadcast: a sweep cancelled while it is being
   signed reads as failed once signing fails.
   */
  method CancelledSweepMayTurnFailed() returns (g: GasWalletService, earlier: Sweep)
    ensures fresh(g) && g.Valid() && earlier.status == Cancelled && earlier.failureReason.None?
    ensures g.rows == [earlier.(status := Failed, failureReason := Some(SigningFailed))] && g.submissions == []
  {
    g := new GasWalletService();
    var answer := g.Insert(7, 0, 90, 10, 1_000);
    answer := g.BeginApprove(0, 0, true, 0);
    answer := g.AccountRead(0, false, Observed(0, 100), 1);
    answer := g.Cancel(0);
    earlier := g.rows[0];
    answer := g.SignDone(0, None, 2);
  }

  predicate Stale(s: Sweep, account: Account) {
    account.Observed? && (account.nonce != s.nonce || account.balance < s.amount + s.fee)
  }

  lemma NotSubmittedYet(rows: seq<Sweep>, submissions: seq<Submission>, i: nat)
    requires i < |rows| && rows[i].txid.None?
    requires SubmissionsFit(rows, map[], submissions)
    ensures forall k :: 0 <= k < |submissions| ==> submissions[k].id != i
  {
  }

  lemma RecordedFits(rows: seq<Sweep>, approvals: map<nat, Phase>, submissions: seq<Submission>, i: nat, txid: Txid)
    requires ApprovalsFit(rows, approvals) && SubmissionsFit(rows, approvals, submissions)
    requires i < |rows| && PhaseFits(rows[i], Recorded(txid))
    requires forall k :: 0 <= k < |submissions| ==> submissions[k].id != i
    ensures var after := approvals[i := Recorded(txid)];
      ApprovalsFit(rows, after) && SubmissionsFit(rows, after, submissions)
  {
  }

  lemma AppendedRows(rows: seq<Sweep>, row: Sweep)
    requires forall i :: 0 <= i < |rows| ==> RowFits(rows[i])
    ensures RowsEvolve(rows, rows + [row])
  {
    assert forall i :: 0 <= i < |rows| ==> RowFits(rows[i]) && Evolves(rows[i], (rows + [row])[i]);
  }

  lemma PhaseOf(rows: seq<Sweep>, approvals: map<nat, Phase>, i: nat)
    requires ApprovalsFit(rows, approvals)
    ensures i in approvals ==> i < |rows| && PhaseFits(rows[i], approvals[i])
  {
  }

  lemma SameRows(rows: seq<Sweep>)
    requires forall i :: 0 <= i < |rows| ==> RowFits(rows[i])
    ensures RowsEvolve(rows, rows)
  {
    assert forall i :: 0 <= i < |rows| ==> RowFits(rows[i]) && Evolves(rows[i], rows[i]);
  }
}
