/** Bounded enumeration of the mempool through an untrusted paged API, twice, for nonce safety. */
module Mempool {
  import opened Sequences
  import opened Wrappers

  const MAX_PAGE_SIZE := 50
  const MAX_PAGES_BOUND := 100
  const MAX_TRANSACTIONS_BOUND := 5_000

  type Principal = nat
  type Cursor = nat

  datatype Participant = Participant(address: Principal, nonce: nat)

  /** The facts of a pending row; `txid` is its 32-byte id read as a number, so it orders as its hex text does. */
  datatype Transaction = Transaction(txid: nat, sender: Participant, sponsor: Option<Participant>)
  datatype Page = Page(total: nat, limit: nat, next: Option<Cursor>, current: Option<Cursor>, results: seq<Transaction>)

  /** What the server answers to request number `n` with a cursor; None is a failed fetch or parse. */
  type Server = (nat, Option<Cursor>) -> Option<Page>

  datatype Reason =
    | PageSizeMismatch | CursorMismatch | TotalChanged | DuplicateTransaction | TransactionLimit
    | CountMismatch | CursorCycle | PageLimit | SnapshotChanged
  datatype Status = Complete | Incomplete(reason: Reason)
  datatype Options = Options(pageSize: int, maxPages: int, maxTransactions: int)
  datatype Enumeration = Enumeration(status: Status, transactions: seq<Transaction>, pagesRead: nat,
                                     observed: nat, reportedTotal: nat)
  datatype Failure = InvalidOptions | FetchFailed

  predicate InBounds(o: Options) {
    && 1 <= o.pageSize <= MAX_PAGE_SIZE
    && 1 <= o.maxPages <= MAX_PAGES_BOUND
    && 1 <= o.maxTransactions <= MAX_TRANSACTIONS_BOUND
  }

  // ---------------------------------------------------------------------------------------------
  // What following the cursors yields
  // ---------------------------------------------------------------------------------------------

  /** The cursor of the k-th request of a scan that begins with request `start`. */
  function CursorAt(serve: Server, start: nat, k: nat): Option<Cursor> {
    if k == 0 then None
    else
      var page := serve(start + k - 1, CursorAt(serve, start, k - 1));
      if page.None? then None else page.value.next
  }

  function PageAt(serve: Server, start: nat, k: nat): Option<Page> {
    serve(start + k, CursorAt(serve, start, k))
  }

  function Rows(serve: Server, start: nat, k: nat): seq<Transaction> {
    if k == 0 then []
    else
      var page := PageAt(serve, start, k - 1);
      Rows(serve, start, k - 1) + (if page.Some? then page.value.results else [])
  }

  ghost predicate DistinctTxids(txs: seq<Transaction>) {
    forall i, j :: 0 <= i < j < |txs| ==> txs[i].txid != txs[j].txid
  }

  /** The k-th page exists and is what was asked for, with the total of the first. */
  ghost predicate PageFine(serve: Server, start: nat, o: Options, k: nat, total: nat) {
    var page := PageAt(serve, start, k);
    && page.Some?
    && page.value.limit == o.pageSize && |page.value.results| <= o.pageSize
    && page.value.total == total
    && (k > 0 ==> page.value.current == CursorAt(serve, start, k))
  }

  /** More pages were announced after the k-th, under a cursor not used before, and rows were still missing. */
  ghost predicate GoesOn(serve: Server, start: nat, k: nat, total: nat) {
    && CursorAt(serve, start, k + 1).Some?
    && |Rows(serve, start, k + 1)| < total
    && forall i :: 0 < i <= k ==> CursorAt(serve, start, i) != CursorAt(serve, start, k + 1)
  }

  /** The cursors lead in m pages from the start to the end, through exactly the reported number of distinct rows. */
  ghost predicate FullChain(serve: Server, start: nat, o: Options, m: nat, total: nat) {
    && 1 <= m <= o.maxPages
    && (forall k :: 0 <= k < m ==> PageFine(serve, start, o, k, total))
    && (forall k :: 0 <= k < m - 1 ==> GoesOn(serve, start, k, total))
    && CursorAt(serve, start, m).None?
    && DistinctTxids(Rows(serve, start, m))
    && |Rows(serve, start, m)| == total <= o.maxTransactions
  }

  /** What an incomplete outcome says about the last page that was read, page k. */
  ghost predicate ReasonHolds(serve: Server, start: nat, o: Options, k: nat, reason: Reason)
    requires PageAt(serve, start, k).Some? && PageAt(serve, start, 0).Some?
  {
    var page, rows := PageAt(serve, start, k).value, Rows(serve, start, k + 1);
    var total := PageAt(serve, start, 0).value.total;
    match reason
    case PageSizeMismatch => page.limit != o.pageSize || |page.results| > page.limit
    case CursorMismatch => k > 0 && page.current != CursorAt(serve, start, k)
    case TotalChanged => page.total != total
    case DuplicateTransaction => !DistinctTxids(rows)
    case TransactionLimit => total > o.maxTransactions || |rows| > o.maxTransactions
    case CountMismatch => if page.next.None? then |rows| != total else |rows| >= total
    case CursorCycle => page.next.Some? && UsedBy(serve, start, k, page.next.value)
    case PageLimit => page.next.Some? && k + 1 == o.maxPages
    case SnapshotChanged => false
  }

  function Txids(txs: seq<Transaction>): set<nat> {
    set i | 0 <= i < |txs| :: txs[i].txid
  }

  lemma TxidsSnoc(txs: seq<Transaction>, tx: Transaction)
    requires DistinctTxids(txs)
    ensures Txids(txs + [tx]) == Txids(txs) + {tx.txid}
    ensures tx.txid in Txids(txs) <==> !DistinctTxids(txs + [tx])
  {
    var all := txs + [tx];
    assert forall i :: 0 <= i < |txs| ==> all[i] == txs[i];
    assert all[|txs|] == tx;
  }

  lemma RepeatSpreads(a: seq<Transaction>, b: seq<Transaction>)
    requires !DistinctTxids(a)
    ensures !DistinctTxids(a + b)
  {
    var i, j :| 0 <= i < j < |a| && a[i].txid == a[j].txid;
    assert (a + b)[i] == a[i] && (a + b)[j] == a[j];
  }

  /** The inner loop over a page's rows, up to the first repeated transaction. */
  method Append(transactions: seq<Transaction>, seen: set<nat>, rows: seq<Transaction>)
    returns (repeated: bool, all: seq<Transaction>, txids: set<nat>)
    requires DistinctTxids(transactions) && seen == Txids(transactions) && |seen| == |transactions|
    ensures repeated <==> !DistinctTxids(transactions + rows)
    ensures !repeated ==> all == transactions + rows
    ensures all <= transactions + rows && txids == Txids(all) && |txids| == |all| && DistinctTxids(all)
  {
    hide DistinctTxids, Txids;
    all, txids := transactions, seen;
    for k := 0 to |rows|
      invariant all == transactions + rows[..k] && txids == Txids(all) && |txids| == |all| && DistinctTxids(all)
    {
      var tx := rows[k];
      assert transactions + rows == (all + [tx]) + rows[k + 1..];
      TxidsSnoc(all, tx);
      if tx.txid in txids {
        RepeatSpreads(all + [tx], rows[k + 1..]);
        return true, all, txids;
      }
      all := all + [tx];
      txids := txids + {tx.txid};
    }
    assert rows[..|rows|] == rows;
    repeated := false;
  }

  lemma {:induction false} RowsGrow(serve: Server, start: nat, a: nat, b: nat)
    requires a <= b
    ensures Rows(serve, start, a) <= Rows(serve, start, b)
  {
    if a < b {
      RowsGrow(serve, start, a, b - 1);
    }
  }

  lemma PrefixDistinct(a: seq<Transaction>, b: seq<Transaction>)
    requires a <= b && DistinctTxids(b)
    ensures DistinctTxids(a)
  {
  }

  /** What a full chain says of the page a scan is at. */
  lemma FullChainStep(serve: Server, start: nat, o: Options, m: nat, total: nat, k: nat)
    requires FullChain(serve, start, o, m, total) && k < m
    ensures PageFine(serve, start, o, k, total)
    ensures DistinctTxids(Rows(serve, start, k + 1)) && |Rows(serve, start, k + 1)| <= total <= o.maxTransactions
    ensures if k + 1 == m then CursorAt(serve, start, k + 1).None? && |Rows(serve, start, k + 1)| == total
            else GoesOn(serve, start, k, total)
  {
    RowsGrow(serve, start, k + 1, m);
    PrefixDistinct(Rows(serve, start, k + 1), Rows(serve, start, m));
  }

  /** The scan's variables after k accepted pages, each of which announced another. */
  ghost predicate Scanned(serve: Server, start: nat, o: Options, k: nat, total: Option<nat>,
                          transactions: seq<Transaction>, cursor: Option<Cursor>, requested: set<Cursor>) {
    && cursor == CursorAt(serve, start, k) && (cursor.None? <==> k == 0)
    && transactions == Rows(serve, start, k) && DistinctTxids(transactions)
    && (total.None? <==> k == 0)
    && (total.Some? ==>
          && PageAt(serve, start, 0).Some? && total == Some(PageAt(serve, start, 0).value.total)
          && total.value <= o.maxTransactions
          && (forall j :: 0 <= j < k ==>
              PageFine(serve, start, o, j, total.value) && GoesOn(serve, start, j, total.value)))
    && (forall c :: c in requested <==> UsedBy(serve, start, k, c))
  }

  /** The cursor was requested at or before the k-th request. */
  ghost predicate UsedBy(serve: Server, start: nat, k: nat, c: Cursor) {
    exists i :: 0 < i <= k && CursorAt(serve, start, i) == Some(c)
  }

  lemma UsedByNext(serve: Server, start: nat, k: nat, c: Cursor)
    ensures UsedBy(serve, start, k + 1, c) <==> UsedBy(serve, start, k, c) || CursorAt(serve, start, k + 1) == Some(c)
  {
    if i :| 0 < i <= k + 1 && CursorAt(serve, start, i) == Some(c) {
      assert i <= k ==> UsedBy(serve, start, k, c);
    }
  }

  /** The verdict on a page's own claims, before its rows are taken. */
  function PageVerdict(page: Page, o: Options, cursor: Option<Cursor>, total: Option<nat>): Option<Reason> {
    if page.limit != o.pageSize || |page.results| > page.limit then Some(PageSizeMismatch)
    else if cursor.Some? && page.current != cursor then Some(CursorMismatch)
    else if total.Some? && page.total != total.value then Some(TotalChanged)
    else None
  }

  /** The verdict once its rows are taken; None means that the scan goes on. */
  function ScanVerdict(page: Page, o: Options, observed: nat, requested: set<Cursor>, pagesRead: nat): Option<Status> {
    if page.total > o.maxTransactions || observed > o.maxTransactions then Some(Incomplete(TransactionLimit))
    else if page.next.None? then Some(if observed == page.total then Complete else Incomplete(CountMismatch))
    else if observed >= page.total then Some(Incomplete(CountMismatch))
    else if page.next.value in requested then Some(Incomplete(CursorCycle))
    else if pagesRead >= o.maxPages then Some(Incomplete(PageLimit))
    else None
  }

  lemma PageVerdictMeans(serve: Server, start: nat, o: Options, k: nat, total: Option<nat>,
                         transactions: seq<Transaction>, cursor: Option<Cursor>, requested: set<Cursor>)
    requires Scanned(serve, start, o, k, total, transactions, cursor, requested) && PageAt(serve, start, k).Some?
    ensures var page := PageAt(serve, start, k).value; var v := PageVerdict(page, o, cursor, total);
      && PageAt(serve, start, 0).Some?
      && (v.Some? ==> ReasonHolds(serve, start, o, k, v.value))
      && (v.None? ==> PageFine(serve, start, o, k, page.total) && page.total == PageAt(serve, start, 0).value.total)
      && Rows(serve, start, k + 1) == transactions + page.results
      && (!DistinctTxids(transactions + page.results) ==> ReasonHolds(serve, start, o, k, DuplicateTransaction))
  {
    if k > 0 {
      assert PageFine(serve, start, o, 0, total.value);
    }
  }

  lemma ScanVerdictMeans(serve: Server, start: nat, o: Options, k: nat, total: Option<nat>,
                         transactions: seq<Transaction>, cursor: Option<Cursor>, requested: set<Cursor>, page: Page)
    requires Scanned(serve, start, o, k, total, transactions, cursor, requested) && InBounds(o) && k < o.maxPages
    requires PageAt(serve, start, k) == Some(page) && PageFine(serve, start, o, k, page.total)
    requires PageAt(serve, start, 0).Some? && page.total == PageAt(serve, start, 0).value.total
    requires Rows(serve, start, k + 1) == transactions + page.results && DistinctTxids(transactions + page.results)
    ensures var v := ScanVerdict(page, o, |transactions + page.results|, requested, k + 1);
      && (v == Some(Complete) ==> FullChain(serve, start, o, k + 1, page.total))
      && (v.Some? && v.value.Incomplete? ==> ReasonHolds(serve, start, o, k, v.value.reason))
      && (v.None? ==> page.next.Some? && k + 1 < o.maxPages)
      && (v.None? ==>
            Scanned(serve, start, o, k + 1, Some(page.total), transactions + page.results, page.next,
                    requested + {page.next.value}))
  {
    assert CursorAt(serve, start, k + 1) == page.next;
    hide DistinctTxids, Rows, CursorAt;
    var v := ScanVerdict(page, o, |transactions + page.results|, requested, k + 1);
    if v.None? {
      var more := requested + {page.next.value};
      forall c ensures c in more <==> UsedBy(serve, start, k + 1, c) {
        UsedByNext(serve, start, k, c);
      }
      assert GoesOn(serve, start, k, page.total);
    }
  }

  /** A scan never rejects a page of a full chain, and ends with its last one. */
  lemma FullChainIsAccepted(serve: Server, start: nat, o: Options, m: nat, chainTotal: nat, k: nat, total: Option<nat>,
                            transactions: seq<Transaction>, cursor: Option<Cursor>, requested: set<Cursor>, page: Page)
    requires FullChain(serve, start, o, m, chainTotal) && k < m
    requires Scanned(serve, start, o, k, total, transactions, cursor, requested)
    requires PageAt(serve, start, k) == Some(page) && Rows(serve, start, k + 1) == transactions + page.results
    ensures PageVerdict(page, o, cursor, total).None? && DistinctTxids(transactions + page.results)
    ensures ScanVerdict(page, o, |transactions + page.results|, requested, k + 1)
         == if k + 1 == m then Some(Complete) else None
  {
    FullChainStep(serve, start, o, m, chainTotal, k);
    assert PageFine(serve, start, o, 0, chainTotal);
    assert CursorAt(serve, start, k + 1) == page.next;
  }

  // ---------------------------------------------------------------------------------------------
  // One scan
  // ---------------------------------------------------------------------------------------------

  ghost predicate ScanResult(serve: Server, start: nat, o: Options, e: Enumeration) {
    && 1 <= e.pagesRead <= o.maxPages
    && e.observed == |e.transactions| && e.transactions <= Rows(serve, start, e.pagesRead)
    && DistinctTxids(e.transactions)
    && PageAt(serve, start, 0).Some? && PageAt(serve, start, e.pagesRead - 1).Some?
    && (e.status.Complete? ==>
          FullChain(serve, start, o, e.pagesRead, e.reportedTotal) && e.transactions == Rows(serve, start, e.pagesRead))
    && (e.status.Incomplete? ==> ReasonHolds(serve, start, o, e.pagesRead - 1, e.status.reason))
  }

  /**
   `#enumerateMempoolEndpoint` against any server: never more than `maxPages` requests, complete only
   over a full chain of cursors, and, for the chain length `m` and total of any full chain, complete then.
   */
  method Enumerate(serve: Server, start: nat, o: Options, ghost m: nat, ghost chainTotal: nat)
    returns (r: Result<Enumeration, Failure>, requests: nat)
    ensures r == Err(InvalidOptions) <==> !InBounds(o)
    ensures requests <= if InBounds(o) then o.maxPages else 0
    ensures r.Ok? ==> requests == r.value.pagesRead && ScanResult(serve, start, o, r.value)
    ensures r == Err(FetchFailed) ==> requests > 0 && PageAt(serve, start, requests - 1).None?
    ensures InBounds(o) && FullChain(serve, start, o, m, chainTotal) ==>
      r.Ok? && r.value.status.Complete? && requests == m
  {
    hide Rows, CursorAt, DistinctTxids, Txids, FullChain, ReasonHolds, Scanned, PageFine, PageVerdict, ScanVerdict;
    requests := 0;
    if !InBounds(o) {
      return Err(InvalidOptions), requests;
    }
    ghost var full := FullChain(serve, start, o, m, chainTotal);
    var transactions: seq<Transaction>, observed: set<nat>, requested: set<Cursor> := [], {}, {};
    var cursor: Option<Cursor>, reportedTotal: Option<nat> := None, None;
    ScanStarts(serve, start, o);
    if full {
      FullChainServes(serve, start, o, m, chainTotal);
    }
    while true
      invariant requests < o.maxPages && (full ==> requests < m)
      invariant Scanned(serve, start, o, requests, reportedTotal, transactions, cursor, requested)
      invariant observed == Txids(transactions) && |observed| == |transactions|
      decreases o.maxPages - requests
    {
      ScanStands(serve, start, o, requests, reportedTotal, transactions, cursor, requested);
      var answer := serve(start + requests, cursor);
      ghost var k := requests;
      requests := requests + 1;
      if answer.None? {
        return Err(FetchFailed), requests;
      }
      var page := answer.value;
      PageVerdictMeans(serve, start, o, k, reportedTotal, transactions, cursor, requested);
      if full {
        FullChainIsAccepted(serve, start, o, m, chainTotal, k, reportedTotal, transactions, cursor, requested, page);
      }
      var wrong := PageVerdict(page, o, cursor, reportedTotal);
      if wrong.Some? {
        var total := if reportedTotal.Some? then reportedTotal.value else 0;
        r := Ok(Enumeration(Incomplete(wrong.value), transactions, requests, |observed|, total));
        return;
      }
      ScanVerdictMeansIf(serve, start, o, k, reportedTotal, transactions, cursor, requested, page);
      var repeated, all, txids := Append(transactions, observed, page.results);
      transactions, observed := all, txids;
      if repeated {
        return Ok(Enumeration(Incomplete(DuplicateTransaction), all, requests, |txids|, page.total)), requests;
      }
      var verdict := ScanVerdict(page, o, |txids|, requested, requests);
      if verdict.Some? {
        return Ok(Enumeration(verdict.value, all, requests, |txids|, page.total)), requests;
      }
      reportedTotal, cursor := Some(page.total), page.next;
      requested := requested + {page.next.value};
    }
  }

  lemma FullChainServes(serve: Server, start: nat, o: Options, m: nat, total: nat)
    requires FullChain(serve, start, o, m, total)
    ensures m >= 1 && forall k :: 0 <= k < m ==> PageAt(serve, start, k).Some?
  {
    forall k | 0 <= k < m ensures PageAt(serve, start, k).Some? {
      assert PageFine(serve, start, o, k, total);
    }
  }

  lemma ScanStarts(serve: Server, start: nat, o: Options)
    ensures Scanned(serve, start, o, 0, None, [], None, {}) && Txids([]) == {}
  {
  }

  lemma ScanStands(serve: Server, start: nat, o: Options, k: nat, total: Option<nat>,
                   transactions: seq<Transaction>, cursor: Option<Cursor>, requested: set<Cursor>)
    requires Scanned(serve, start, o, k, total, transactions, cursor, requested)
    ensures PageAt(serve, start, k) == serve(start + k, cursor)
    ensures transactions == Rows(serve, start, k) && DistinctTxids(transactions)
      && Rows(serve, start, k) <= Rows(serve, start, k + 1)
  {
  }

  lemma ScanVerdictMeansIf(serve: Server, start: nat, o: Options, k: nat, total: Option<nat>,
                           transactions: seq<Transaction>, cursor: Option<Cursor>, requested: set<Cursor>, page: Page)
    requires Scanned(serve, start, o, k, total, transactions, cursor, requested) && InBounds(o) && k < o.maxPages
    requires PageAt(serve, start, k) == Some(page) && PageVerdict(page, o, cursor, total).None?
    ensures DistinctTxids(transactions + page.results) ==>
      var v := ScanVerdict(page, o, |transactions + page.results|, requested, k + 1);
      && PageAt(serve, start, 0).Some?
      && (v == Some(Complete) ==> FullChain(serve, start, o, k + 1, page.total))
      && (v.Some? && v.value.Incomplete? ==> ReasonHolds(serve, start, o, k, v.value.reason))
      && (v.None? ==> page.next.Some? && k + 1 < o.maxPages)
      && (v.None? ==>
            Scanned(serve, start, o, k + 1, Some(page.total), transactions + page.results, page.next,
                    requested + {page.next.value}))
  {
    PageVerdictMeans(serve, start, o, k, total, transactions, cursor, requested);
    if DistinctTxids(transactions + page.results) {
      ScanVerdictMeans(serve, start, o, k, total, transactions, cursor, requested, page);
    }
  }

  // ---------------------------------------------------------------------------------------------
  // Two scans
  // ---------------------------------------------------------------------------------------------

  predicate ByTxid(a: Transaction, b: Transaction) {
    a.txid < b.txid
  }

  /** `canonicalMempoolSnapshot`: the rows' facts ordered by txid. */
  function Snapshot(txs: seq<Transaction>): seq<Transaction> {
    Sort(txs, ByTxid)
  }

  function Facts(txs: seq<Transaction>): set<Transaction> {
    Elements(txs)
  }

  /** Snapshots agree exactly when the same facts were seen, in whatever order. */
  lemma SnapshotsCompareFacts(a: seq<Transaction>, b: seq<Transaction>)
    requires DistinctTxids(a) && DistinctTxids(b)
    ensures Snapshot(a) == Snapshot(b) <==> Facts(a) == Facts(b)
  {
    SortSorts(a, ByTxid);
    SortSorts(b, ByTxid);
    if Facts(a) == Facts(b) {
      AscendingIsUnique(Snapshot(a), Snapshot(b), ByTxid);
    }
  }

  datatype Role = Origin | Sponsor
  datatype Activity = Activity(txid: nat, principal: Principal, nonce: nat, role: Role, origin: Participant,
                               sponsor: Option<Participant>)

  function ActivitiesOf(tx: Transaction, principal: Principal): seq<Activity> {
    (if tx.sender.address == principal
     then [Activity(tx.txid, principal, tx.sender.nonce, Origin, tx.sender, tx.sponsor)] else [])
    + (if tx.sponsor.Some? && tx.sponsor.value.address == principal
       then [Activity(tx.txid, principal, tx.sponsor.value.nonce, Sponsor, tx.sender, tx.sponsor)] else [])
  }

  function NonceActivities(txs: seq<Transaction>, principal: Principal): seq<Activity> {
    if |txs| == 0 then [] else ActivitiesOf(txs[0], principal) + NonceActivities(txs[1..], principal)
  }

  /** The part the principal has in a row under a role. */
  predicate Plays(tx: Transaction, principal: Principal, a: Activity) {
    var who := if a.role.Origin? then Some(tx.sender) else tx.sponsor;
    && a.txid == tx.txid && a.principal == principal && a.origin == tx.sender && a.sponsor == tx.sponsor
    && who == Some(Participant(principal, a.nonce))
  }

  /** One activity for each role the principal plays in each row, and no other. */
  lemma {:induction false} ActivitiesAreExact(txs: seq<Transaction>, principal: Principal)
    requires DistinctTxids(txs)
    ensures forall a :: a in NonceActivities(txs, principal) <==>
      exists i :: 0 <= i < |txs| && Plays(txs[i], principal, a)
    ensures forall i, j :: 0 <= i < j < |NonceActivities(txs, principal)| ==>
      NonceActivities(txs, principal)[i] != NonceActivities(txs, principal)[j]
  {
    if |txs| > 0 {
      var tail := txs[1..];
      ActivitiesAreExact(tail, principal);
      var first, rest := ActivitiesOf(txs[0], principal), NonceActivities(tail, principal);
      forall a
        ensures a in NonceActivities(txs, principal) <==> exists i :: 0 <= i < |txs| && Plays(txs[i], principal, a)
      {
        assert a in NonceActivities(txs, principal) <==> a in first || a in rest;
        assert a in first <==> Plays(txs[0], principal, a);
        if i :| 0 <= i < |tail| && Plays(tail[i], principal, a) {
          assert Plays(txs[i + 1], principal, a);
        }
        if i :| 0 <= i < |txs| && Plays(txs[i], principal, a) {
          assert i > 0 ==> Plays(tail[i - 1], principal, a);
        }
      }
      forall a | a in rest ensures a.txid != txs[0].txid {
        var i :| 0 <= i < |tail| && Plays(tail[i], principal, a);
        assert tail[i] == txs[i + 1];
      }
      forall a | a in first ensures a.txid == txs[0].txid {
      }
    }
  }

  datatype GasPayerActivity = GasPayerActivity(status: Status, activities: seq<Activity>, pagesRead: nat,
                                               observed: nat, reportedTotal: nat)

  /**
   `enumerateGasPayerMempoolActivity`: complete means that two scans each walked a full chain and saw
   the same facts, whatever the row order, with one activity per role the principal plays. Conversely, if
   full chains of `m` and then `more` pages are served, it is complete exactly when they hold the same facts.
   */
  method EnumerateGasPayer(serve: Server, principal: Principal, o: Options, ghost m: nat, ghost total: nat,
                           ghost more: nat, ghost laterTotal: nat)
    returns (r: Result<GasPayerActivity, Failure>, requests: nat)
    ensures requests <= if InBounds(o) then 2 * o.maxPages else 0
    ensures r.Ok? ==> r.value.pagesRead == requests
    ensures r.Ok? && r.value.status.Complete? ==>
      exists first :: AgreedScans(serve, o, first, requests, r.value, principal)
    ensures r.Ok? && r.value.status == Incomplete(SnapshotChanged) ==>
      exists first :: DisagreedScans(serve, o, first, requests)
    ensures InBounds(o) && FullChain(serve, 0, o, m, total) && FullChain(serve, m, o, more, laterTotal) ==>
      && r.Ok? && requests == m + more
      && r.value.status == if Facts(Rows(serve, 0, m)) == Facts(Rows(serve, m, more)) then Complete
         else Incomplete(SnapshotChanged)
  {
    hide FullChain, Rows, ReasonHolds, CursorAt, DistinctTxids, Facts, Snapshot, NonceActivities;
    var first: Result<Enumeration, Failure>;
    first, requests := Enumerate(serve, 0, o, m, total);
    if first.Err? {
      return Err(first.error), requests;
    }
    var e := first.value;
    ScanNeverReportsChange(serve, 0, o, e);
    if e.status.Complete? {
      var second, pagesMore := Enumerate(serve, requests, o, more, laterTotal);
      requests := requests + pagesMore;
      if second.Err? {
        return Err(second.error), requests;
      }
      var b := second.value;
      ScanNeverReportsChange(serve, e.pagesRead, o, b);
      SnapshotsCompareFacts(b.transactions, e.transactions);
      ghost var pages := e.pagesRead;
      RowsAreTotal(serve, 0, o, pages, e.reportedTotal);
      if b.status.Complete? {
        RowsAreTotal(serve, pages, o, pagesMore, b.reportedTotal);
        SameFactsSameSize(e.transactions, b.transactions);
        if b.reportedTotal != e.reportedTotal || Snapshot(b.transactions) != Snapshot(e.transactions) {
          assert DisagreedScans(serve, o, pages, requests);
          b := b.(status := Incomplete(SnapshotChanged));
        }
      }
      e := b.(pagesRead := requests);
      r := Ok(GasPayerActivity(e.status, NonceActivities(e.transactions, principal), e.pagesRead, e.observed,
                               e.reportedTotal));
      assert r.value.status.Complete? ==> AgreedScans(serve, o, pages, requests, r.value, principal);
      return;
    }
    r := Ok(GasPayerActivity(e.status, NonceActivities(e.transactions, principal), e.pagesRead, e.observed,
                             e.reportedTotal));
  }

  lemma ScanNeverReportsChange(serve: Server, start: nat, o: Options, e: Enumeration)
    requires ScanResult(serve, start, o, e)
    ensures e.status != Incomplete(SnapshotChanged)
  {
  }

  lemma SameFactsSameSize(a: seq<Transaction>, b: seq<Transaction>)
    requires DistinctTxids(a) && DistinctTxids(b)
    ensures Facts(a) == Facts(b) ==> |a| == |b|
  {
    ElementsCount(a);
    ElementsCount(b);
  }

  lemma RowsAreTotal(serve: Server, start: nat, o: Options, m: nat, total: nat)
    ensures FullChain(serve, start, o, m, total) ==>
      |Rows(serve, start, m)| == total && DistinctTxids(Rows(serve, start, m))
  {
  }

  /** The first `first` requests and the rest up to `requests` each walked a full chain. */
  ghost predicate AgreedScans(serve: Server, o: Options, first: nat, requests: nat, r: GasPayerActivity,
                              principal: Principal)
  {
    && first < requests
    && FullChain(serve, 0, o, first, r.reportedTotal) && FullChain(serve, first, o, requests - first, r.reportedTotal)
    && Facts(Rows(serve, 0, first)) == Facts(Rows(serve, first, requests - first))
    && r.observed == r.reportedTotal && r.activities == NonceActivities(Rows(serve, first, requests - first), principal)
  }

  ghost predicate DisagreedScans(serve: Server, o: Options, first: nat, requests: nat) {
    && first < requests
    && FullChain(serve, 0, o, first, |Rows(serve, 0, first)|)
    && FullChain(serve, first, o, requests - first, |Rows(serve, first, requests - first)|)
    && (|Rows(serve, 0, first)| != |Rows(serve, first, requests - first)|
        || Facts(Rows(serve, 0, first)) != Facts(Rows(serve, first, requests - first)))
  }
}
