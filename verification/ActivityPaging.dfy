/**
 Bounded keyset pagination of the activity history. A request hydrates at most 200 keys and returns
 at most `limit` items, and the continuation can come from either bound.
 */
module ActivityPaging {
  import opened Sequences
  import opened Wrappers
  import opened Text

  const MAX_HYDRATED := 200
  const MAX_PAGE_LIMIT := 100
  const DAY_MS := 24 * 60 * 60 * 1000

  datatype Key = Key(activityId: String, occurredAt: int)
  datatype Kind = Operation | ChainEvent | ConfigurationChange
  datatype DisplayStatus = ActionRequired | NeedsAttention | InProgress | Complete | Superseded | Observed

  /** `searchable` holds the lower-cased activity id, actor and transaction ids. */
  datatype Summary = Summary(key: Key, kind: Kind, domain: String, status: DisplayStatus, searchable: seq<String>)

  datatype StatusFilter = AnyStatus | OnlyActionRequired | OnlyNeedsAttention | OnlyInProgress | Resolved
  datatype TypeFilter = AnyType | Actions | ChainEvents | Configuration
  datatype TimeFilter = AnyTime | LastDay | LastWeek | LastMonth
  datatype Filters = Filters(status: StatusFilter, typ: TypeFilter, domain: Option<String>, time: TimeFilter,
                             search: Option<String>)

  /** The filter digest a cursor carries is taken as injective, so the filters stand for it. */
  datatype Cursor = Cursor(key: Key, filters: Filters)
  datatype Query = Query(filters: Filters, cursor: Option<Cursor>, limit: int)
  datatype PageError = InvalidLimit | InvalidCursor
  datatype Page = Page(active: seq<Summary>, items: seq<Summary>, nextCursor: Option<Cursor>)

  datatype HistoryEntry = HistoryEntry(key: Key, kind: Kind)

  /** The key index over terminal authorities, what each key hydrates to, and the active records. */
  datatype Store = Store(history: seq<HistoryEntry>, details: map<String, Summary>, active: seq<Summary>)

  // ---------------------------------------------------------------------------------------------
  // Order and filters
  // ---------------------------------------------------------------------------------------------

  /** `historyOrder`: newest first, then by ascending id. */
  predicate Before(a: Key, b: Key) {
    a.occurredAt > b.occurredAt || (a.occurredAt == b.occurredAt && Less(a.activityId, b.activityId))
  }

  predicate IsAfter(after: Option<Key>, k: Key) {
    after.None? || Before(after.value, k)
  }

  predicate IsActive(s: DisplayStatus) {
    s == ActionRequired || s == InProgress || s == NeedsAttention
  }

  predicate MatchesStatus(s: Summary, f: StatusFilter) {
    match f
    case AnyStatus => true
    case OnlyActionRequired => s.status == ActionRequired
    case OnlyNeedsAttention => s.status == NeedsAttention
    case OnlyInProgress => s.status == InProgress
    case Resolved => s.status == Complete || s.status == Superseded || s.status == Observed
  }

  predicate MatchesType(kind: Kind, f: TypeFilter) {
    match f
    case AnyType => true
    case Actions => kind == Operation
    case ChainEvents => kind == ChainEvent
    case Configuration => kind == ConfigurationChange
  }

  function TimeCutoff(f: TimeFilter, now: int): Option<int> {
    match f
    case AnyTime => None
    case LastDay => Some(now - DAY_MS)
    case LastWeek => Some(now - 7 * DAY_MS)
    case LastMonth => Some(now - 30 * DAY_MS)
  }

  predicate MatchesFilters(s: Summary, f: Filters, now: int) {
    var cutoff := TimeCutoff(f.time, now);
    && MatchesStatus(s, f.status)
    && MatchesType(s.kind, f.typ)
    && (f.domain.None? || s.domain == f.domain.value)
    && (cutoff.None? || IsActive(s.status) || s.key.occurredAt >= cutoff.value)
    && (f.search.None? || exists k :: 0 <= k < |s.searchable| && f.search.value <= s.searchable[k])
  }

  function Matching(s: seq<Summary>, f: Filters, now: int): seq<Summary> {
    if |s| == 0 then [] else (if MatchesFilters(s[0], f, now) then [s[0]] else []) + Matching(s[1..], f, now)
  }

  function WithActivity(s: seq<Summary>, active: bool): seq<Summary> {
    if |s| == 0 then [] else (if IsActive(s[0].status) == active then [s[0]] else []) + WithActivity(s[1..], active)
  }

  function StrictlyAfter(s: seq<Summary>, after: Option<Key>): seq<Summary> {
    if |s| == 0 then [] else (if IsAfter(after, s[0].key) then [s[0]] else []) + StrictlyAfter(s[1..], after)
  }

  predicate ComesBefore(a: Summary, b: Summary) {
    Before(a.key, b.key)
  }

  function SortHistory(s: seq<Summary>): seq<Summary> {
    Sort(s, ComesBefore)
  }

  // ---------------------------------------------------------------------------------------------
  // The store's reads
  // ---------------------------------------------------------------------------------------------

  /** The bounds the index applies: the record type and the time cutoff. */
  predicate Admits(entry: HistoryEntry, f: Filters, now: int) {
    var cutoff := TimeCutoff(f.time, now);
    MatchesType(entry.kind, f.typ) && (cutoff.None? || entry.key.occurredAt >= cutoff.value)
  }

  /** The index keys a query admits strictly after a key, in history order. */
  function EligibleKeys(history: seq<HistoryEntry>, f: Filters, now: int, after: Option<Key>): seq<Key> {
    if |history| == 0 then []
    else
      var rest := EligibleKeys(history[1..], f, now, after);
      if Admits(history[0], f, now) && IsAfter(after, history[0].key) then [history[0].key] + rest else rest
  }

  predicate ReadsHistory(f: StatusFilter) {
    f == AnyStatus || f == Resolved
  }

  /** `historyKeys`, one more than the hydration bound so that a continuation is noticed. */
  function HistoryKeys(store: Store, f: Filters, now: int, after: Option<Key>): seq<Key> {
    if ReadsHistory(f.status) then Take(EligibleKeys(store.history, f, now, after), MAX_HYDRATED + 1) else []
  }

  /** What hydrating keys one by one and keeping the matching records yields. */
  function MatchedOf(keys: seq<Key>, details: map<String, Summary>, f: Filters, now: int): seq<Summary> {
    if |keys| == 0 then []
    else
      (if keys[0].activityId in details && MatchesFilters(details[keys[0].activityId], f, now)
       then [details[keys[0].activityId]] else [])
      + MatchedOf(keys[1..], details, f, now)
  }

  /** Every matching history record, found without the index's own prefilter. */
  function MatchingHistory(history: seq<HistoryEntry>, details: map<String, Summary>, f: Filters,
                           now: int): seq<Summary>
  {
    if |history| == 0 then []
    else
      var id := history[0].key.activityId;
      (if id in details && MatchesFilters(details[id], f, now) then [details[id]] else [])
      + MatchingHistory(history[1..], details, f, now)
  }

  ghost predicate Sorted(history: seq<HistoryEntry>) {
    forall i, j :: 0 <= i < j < |history| ==> Before(history[i].key, history[j].key)
  }

  /**
   What the repositories provide: a strictly ordered index whose keys hydrate, if at all, to the
   record they name, terminal records in the history and only active ones outside it.
   */
  ghost predicate Coherent(store: Store) {
    && Sorted(store.history)
    && (forall i :: 0 <= i < |store.history| && store.history[i].key.activityId in store.details ==>
          var d := store.details[store.history[i].key.activityId];
          d.key == store.history[i].key && d.kind == store.history[i].kind && !IsActive(d.status))
    && (forall i :: 0 <= i < |store.active| ==> IsActive(store.active[i].status))
  }

  // ---------------------------------------------------------------------------------------------
  // One page
  // ---------------------------------------------------------------------------------------------

  /** `projectActivityPage` on the records a request collected. */
  function Project(records: seq<Summary>, q: Query, now: int): Page
    requires 1 <= q.limit
  {
    var matching := Matching(records, q.filters, now);
    var history := StrictlyAfter(SortHistory(WithActivity(matching, false)), AfterOf(q.cursor));
    var items := Take(history, q.limit);
    Page(WithActivity(matching, true),
         items,
         if |history| > q.limit then Some(Cursor(items[q.limit - 1].key, q.filters)) else None)
  }

  function AfterOf(cursor: Option<Cursor>): Option<Key> {
    if cursor.None? then None else Some(cursor.value.key)
  }

  /** What a page answers, in terms of the keys after its cursor rather than of the scan. */
  function PageOf(store: Store, q: Query, now: int): Result<Page, PageError> {
    if !(1 <= q.limit <= MAX_PAGE_LIMIT) then Err(InvalidLimit)
    else if q.cursor.Some? && q.cursor.value.filters != q.filters then Err(InvalidCursor)
    else
      var keys := HistoryKeys(store, q.filters, now, AfterOf(q.cursor));
      var matched := MatchedOf(Take(keys, MAX_HYDRATED), store.details, q.filters, now);
      Ok(Page(
        Matching(store.active, q.filters, now),
        Take(matched, q.limit),
        if |matched| > q.limit then Some(Cursor(matched[q.limit - 1].key, q.filters))
        else if |keys| > MAX_HYDRATED then Some(Cursor(keys[MAX_HYDRATED - 1], q.filters))
        else None))
  }

  // Projecting what was scanned -----------------------------------------------------------------

  ghost predicate StrictlyOrdered(s: seq<Summary>) {
    forall i, j :: 0 <= i < j < |s| ==> Before(s[i].key, s[j].key)
  }

  lemma BeforeTransitive(a: Key, b: Key, c: Key)
    requires Before(a, b) && Before(b, c)
    ensures Before(a, c)
  {
    if a.occurredAt == b.occurredAt == c.occurredAt {
      LessTransitive(a.activityId, b.activityId, c.activityId);
    }
  }

  /** Exactly one of before, equal and after holds. */
  lemma BeforeTotal(a: Key, b: Key)
    ensures Before(a, b) || a == b || Before(b, a)
    ensures !(Before(a, b) && Before(b, a)) && (a == b ==> !Before(a, b))
  {
    LessTotal(a.activityId, b.activityId);
  }

  lemma JoinIsAssociative<T>(a: seq<T>, b: seq<T>, c: seq<T>)
    ensures a + (b + c) == (a + b) + c
  {
  }

  lemma {:induction false} MatchingAppend(a: seq<Summary>, b: seq<Summary>, f: Filters, now: int)
    ensures Matching(a + b, f, now) == Matching(a, f, now) + Matching(b, f, now)
  {
    if |a| == 0 {
      assert a + b == b;
    } else {
      assert (a + b)[1..] == a[1..] + b;
      MatchingAppend(a[1..], b, f, now);
      var first := if MatchesFilters(a[0], f, now) then [a[0]] else [];
      JoinIsAssociative(first, Matching(a[1..], f, now), Matching(b, f, now));
    }
  }

  lemma {:induction false} WithActivityAppend(a: seq<Summary>, b: seq<Summary>, active: bool)
    ensures WithActivity(a + b, active) == WithActivity(a, active) + WithActivity(b, active)
  {
    if |a| == 0 {
      assert a + b == b;
    } else {
      assert (a + b)[1..] == a[1..] + b;
      WithActivityAppend(a[1..], b, active);
      var first := if IsActive(a[0].status) == active then [a[0]] else [];
      JoinIsAssociative(first, WithActivity(a[1..], active), WithActivity(b, active));
    }
  }

  lemma {:induction false} MatchingKeepsActivity(s: seq<Summary>, f: Filters, now: int, active: bool)
    requires forall i :: 0 <= i < |s| ==> IsActive(s[i].status) == active
    ensures WithActivity(Matching(s, f, now), active) == Matching(s, f, now)
    ensures WithActivity(Matching(s, f, now), !active) == []
  {
    if |s| > 0 {
      MatchingKeepsActivity(s[1..], f, now, active);
      var rest := Matching(s[1..], f, now);
      if MatchesFilters(s[0], f, now) {
        assert Matching(s, f, now)[1..] == rest;
      } else {
        assert Matching(s, f, now) == rest;
      }
    }
  }

  lemma {:induction false} SortingSortedIsIdentity(s: seq<Summary>)
    requires StrictlyOrdered(s)
    ensures SortHistory(s) == s
  {
    if |s| > 0 {
      SortingSortedIsIdentity(s[1..]);
      if |s| > 1 {
        assert Before(s[0].key, s[1].key);
        BeforeTotal(s[0].key, s[1].key);
      }
    }
  }

  lemma {:induction false} AllAfterIsIdentity(s: seq<Summary>, after: Option<Key>)
    requires forall i :: 0 <= i < |s| ==> IsAfter(after, s[i].key)
    ensures StrictlyAfter(s, after) == s
  {
    if |s| > 0 {
      AllAfterIsIdentity(s[1..], after);
    }
  }

  /** The records of one scan: matching, terminal, in order and after the cursor. */
  ghost predicate ScannedHistory(s: seq<Summary>, q: Query, now: int) {
    && StrictlyOrdered(s)
    && forall i :: 0 <= i < |s| ==>
         MatchesFilters(s[i], q.filters, now) && !IsActive(s[i].status) && IsAfter(AfterOf(q.cursor), s[i].key)
  }

  lemma {:induction false} AllMatchingIsIdentity(s: seq<Summary>, f: Filters, now: int)
    requires forall i :: 0 <= i < |s| ==> MatchesFilters(s[i], f, now)
    ensures Matching(s, f, now) == s
  {
    if |s| > 0 {
      AllMatchingIsIdentity(s[1..], f, now);
    }
  }

  lemma ProjectOfScan(active: seq<Summary>, scanned: seq<Summary>, q: Query, now: int)
    requires 1 <= q.limit && ScannedHistory(scanned, q, now)
    requires forall i :: 0 <= i < |active| ==> IsActive(active[i].status)
    ensures Project(active + scanned, q, now) ==
      Page(Matching(active, q.filters, now), Take(scanned, q.limit),
           if |scanned| > q.limit then Some(Cursor(scanned[q.limit - 1].key, q.filters)) else None)
  {
    var shown := Matching(active, q.filters, now);
    var matching := Matching(active + scanned, q.filters, now);
    assert matching == shown + scanned by {
      MatchingAppend(active, scanned, q.filters, now);
      AllMatchingIsIdentity(scanned, q.filters, now);
    }
    SplitByActivity(active, scanned, q.filters, now);
    assert StrictlyAfter(SortHistory(scanned), AfterOf(q.cursor)) == scanned by {
      SortingSortedIsIdentity(scanned);
      AllAfterIsIdentity(scanned, AfterOf(q.cursor));
    }
  }

  lemma SplitByActivity(active: seq<Summary>, scanned: seq<Summary>, f: Filters, now: int)
    requires forall i :: 0 <= i < |active| ==> IsActive(active[i].status)
    requires forall i :: 0 <= i < |scanned| ==> MatchesFilters(scanned[i], f, now) && !IsActive(scanned[i].status)
    ensures WithActivity(Matching(active, f, now) + scanned, true) == Matching(active, f, now)
    ensures WithActivity(Matching(active, f, now) + scanned, false) == scanned
  {
    var shown := Matching(active, f, now);
    MatchingKeepsActivity(active, f, now, true);
    MatchingKeepsActivity(scanned, f, now, false);
    AllMatchingIsIdentity(scanned, f, now);
    WithActivityAppend(shown, scanned, true);
    WithActivityAppend(shown, scanned, false);
    assert shown + [] == shown && [] + scanned == scanned;
  }

  // What the keys of a request hydrate to --------------------------------------------------------

  ghost predicate StrictKeys(keys: seq<Key>) {
    forall i, j :: 0 <= i < j < |keys| ==> Before(keys[i], keys[j])
  }

  ghost predicate HydratesTerminal(keys: seq<Key>, details: map<String, Summary>) {
    forall i :: 0 <= i < |keys| && keys[i].activityId in details ==>
      details[keys[i].activityId].key == keys[i] && !IsActive(details[keys[i].activityId].status)
  }

  lemma {:induction false} MatchedAppend(a: seq<Key>, b: seq<Key>, details: map<String, Summary>, f: Filters, now: int)
    ensures MatchedOf(a + b, details, f, now) == MatchedOf(a, details, f, now) + MatchedOf(b, details, f, now)
  {
    if |a| == 0 {
      assert a + b == b;
    } else {
      assert (a + b)[1..] == a[1..] + b;
      MatchedAppend(a[1..], b, details, f, now);
    }
  }

  /** The matches of ordered keys are ordered and each comes from one of the keys. */
  lemma {:induction false} MatchedFacts(keys: seq<Key>, details: map<String, Summary>, f: Filters, now: int)
    requires StrictKeys(keys) && HydratesTerminal(keys, details)
    ensures |MatchedOf(keys, details, f, now)| <= |keys|
    ensures StrictlyOrdered(MatchedOf(keys, details, f, now))
    ensures forall m :: 0 <= m < |MatchedOf(keys, details, f, now)| ==>
      var s := MatchedOf(keys, details, f, now)[m];
      MatchesFilters(s, f, now) && !IsActive(s.status) && s.key in keys
  {
    if |keys| > 0 {
      MatchedFacts(keys[1..], details, f, now);
      var rest := MatchedOf(keys[1..], details, f, now);
      forall m | 0 <= m < |rest| ensures Before(keys[0], rest[m].key) && rest[m].key in keys {
        var k :| 0 <= k < |keys[1..]| && keys[1..][k] == rest[m].key;
        assert keys[k + 1] == rest[m].key;
      }
    }
  }

  lemma {:induction false} EligibleFacts(history: seq<HistoryEntry>, f: Filters, now: int, after: Option<Key>)
    requires Sorted(history)
    ensures StrictKeys(EligibleKeys(history, f, now, after))
    ensures forall k :: 0 <= k < |EligibleKeys(history, f, now, after)| ==>
      && IsAfter(after, EligibleKeys(history, f, now, after)[k])
      && exists i :: 0 <= i < |history| && history[i].key == EligibleKeys(history, f, now, after)[k]
  {
    if |history| > 0 {
      EligibleFacts(history[1..], f, now, after);
      var rest := EligibleKeys(history[1..], f, now, after);
      forall k | 0 <= k < |rest|
        ensures Before(history[0].key, rest[k]) && exists i :: 0 <= i < |history| && history[i].key == rest[k]
      {
        var i :| 0 <= i < |history[1..]| && history[1..][i].key == rest[k];
        assert history[i + 1].key == rest[k];
      }
    }
  }

  lemma RequestKeys(store: Store, f: Filters, now: int, after: Option<Key>)
    requires Coherent(store)
    ensures StrictKeys(HistoryKeys(store, f, now, after))
      && HydratesTerminal(HistoryKeys(store, f, now, after), store.details)
    ensures forall k :: 0 <= k < |HistoryKeys(store, f, now, after)| ==>
      IsAfter(after, HistoryKeys(store, f, now, after)[k])
  {
    EligibleFacts(store.history, f, now, after);
    var keys := HistoryKeys(store, f, now, after);
    forall k | 0 <= k < |keys| && keys[k].activityId in store.details
      ensures store.details[keys[k].activityId].key == keys[k] && !IsActive(store.details[keys[k].activityId].status)
    {
      var i :| 0 <= i < |store.history| && store.history[i].key == keys[k];
    }
  }

  lemma ScanIsHistory(scan: seq<Key>, details: map<String, Summary>, q: Query, now: int)
    requires StrictKeys(scan) && HydratesTerminal(scan, details)
    requires forall k :: 0 <= k < |scan| ==> IsAfter(AfterOf(q.cursor), scan[k])
    ensures ScannedHistory(MatchedOf(scan, details, q.filters, now), q, now)
  {
    MatchedFacts(scan, details, q.filters, now);
  }

  /** A scan cut short has one match more than the page shows, so the whole scan shows the same. */
  lemma ScanDecidesThePage(scan: seq<Key>, hydrated: nat, details: map<String, Summary>, q: Query, now: int)
    requires 1 <= q.limit && hydrated <= |scan|
    requires hydrated < |scan| ==> |MatchedOf(scan[..hydrated], details, q.filters, now)| > q.limit
    ensures var seen := MatchedOf(scan[..hydrated], details, q.filters, now);
      var all := MatchedOf(scan, details, q.filters, now);
      && Take(seen, q.limit) == Take(all, q.limit)
      && (|seen| > q.limit <==> |all| > q.limit)
      && (|seen| > q.limit ==> seen[q.limit - 1] == all[q.limit - 1])
  {
    assert scan == scan[..hydrated] + scan[hydrated..];
    MatchedAppend(scan[..hydrated], scan[hydrated..], details, q.filters, now);
    if hydrated == |scan| {
      assert scan[..hydrated] == scan;
    }
  }

  /** `ActivityProjectionService.page`; `hydrated` counts the history keys it looked up. */
  method ReadPage(store: Store, q: Query, now: int) returns (r: Result<Page, PageError>, hydrated: nat)
    requires Coherent(store)
    ensures r == PageOf(store, q, now)
    ensures hydrated <= MAX_HYDRATED
  {
    hide MatchedOf, Matching, EligibleKeys, SortHistory, StrictlyAfter, WithActivity, MatchesFilters;
    hydrated := 0;
    if !(1 <= q.limit <= MAX_PAGE_LIMIT) {
      return Err(InvalidLimit), hydrated;
    }
    if q.cursor.Some? && q.cursor.value.filters != q.filters {
      return Err(InvalidCursor), hydrated;
    }
    var keys := HistoryKeys(store, q.filters, now, AfterOf(q.cursor));
    var records, lastScanned;
    records, lastScanned, hydrated := Hydrate(store, Take(keys, MAX_HYDRATED), q, now);
    var page := Project(records, q, now);
    if page.nextCursor.None? && |keys| > MAX_HYDRATED && lastScanned.Some? {
      page := page.(nextCursor := Some(Cursor(lastScanned.value, q.filters)));
    }
    r := Ok(page);
    ghost var scan := Take(keys, MAX_HYDRATED);
    RequestKeys(store, q.filters, now, AfterOf(q.cursor));
    ScanIsHistory(scan[..hydrated], store.details, q, now);
    ProjectOfScan(store.active, MatchedOf(scan[..hydrated], store.details, q.filters, now), q, now);
    ScanDecidesThePage(scan, hydrated, store.details, q, now);
  }

  /** The loop that looks keys up one by one and stops once the page is known to overflow. */
  method Hydrate(store: Store, scan: seq<Key>, q: Query, now: int)
    returns (records: seq<Summary>, lastScanned: Option<Key>, hydrated: nat)
    requires 1 <= q.limit
    ensures hydrated <= |scan|
    ensures records == store.active + MatchedOf(scan[..hydrated], store.details, q.filters, now)
    ensures hydrated < |scan| ==> |MatchedOf(scan[..hydrated], store.details, q.filters, now)| > q.limit
    ensures lastScanned == if hydrated == 0 then None else Some(scan[hydrated - 1])
  {
    records, lastScanned, hydrated := store.active, None, 0;
    var matching := 0;
    assert scan[..0] == [];
    while hydrated < |scan| && matching <= q.limit
      invariant hydrated <= |scan|
      invariant matching == |MatchedOf(scan[..hydrated], store.details, q.filters, now)|
      invariant records == store.active + MatchedOf(scan[..hydrated], store.details, q.filters, now)
      invariant lastScanned == if hydrated == 0 then None else Some(scan[hydrated - 1])
    {
      var key := scan[hydrated];
      assert scan[..hydrated + 1] == scan[..hydrated] + [key];
      MatchedAppend(scan[..hydrated], [key], store.details, q.filters, now);
      lastScanned := Some(key);
      hydrated := hydrated + 1;
      if key.activityId in store.details && MatchesFilters(store.details[key.activityId], q.filters, now) {
        records := records + [store.details[key.activityId]];
        matching := matching + 1;
      }
    }
  }

  // ---------------------------------------------------------------------------------------------
  // The whole walk
  // ---------------------------------------------------------------------------------------------

  lemma {:induction false} SameEligibleWhenAllAfter(history: seq<HistoryEntry>, f: Filters, now: int,
                                                    a: Option<Key>, b: Option<Key>)
    requires forall i :: 0 <= i < |history| ==> IsAfter(a, history[i].key) && IsAfter(b, history[i].key)
    ensures EligibleKeys(history, f, now, a) == EligibleKeys(history, f, now, b)
  {
    if |history| > 0 {
      SameEligibleWhenAllAfter(history[1..], f, now, a, b);
    }
  }

  /** Continuing after the i-th eligible key leaves exactly the keys behind it. */
  lemma {:induction false} EligibleContinues(history: seq<HistoryEntry>, f: Filters, now: int, after: Option<Key>,
                                             i: nat)
    requires Sorted(history) && i < |EligibleKeys(history, f, now, after)|
    ensures var keys := EligibleKeys(history, f, now, after);
      EligibleKeys(history, f, now, Some(keys[i])) == keys[i + 1..]
  {
    var keys := EligibleKeys(history, f, now, after);
    var head, tail := history[0].key, history[1..];
    var behind := EligibleKeys(tail, f, now, after);
    BeforeTotal(head, head);
    if Admits(history[0], f, now) && IsAfter(after, head) && i == 0 {
      forall j | 0 <= j < |tail| ensures IsAfter(after, tail[j].key) {
        if after.Some? {
          BeforeTransitive(after.value, head, tail[j].key);
        }
      }
      SameEligibleWhenAllAfter(tail, f, now, after, Some(head));
    } else {
      var at := if Admits(history[0], f, now) && IsAfter(after, head) then i - 1 else i;
      assert keys[i] == behind[at] && keys[i + 1..] == behind[at + 1..];
      EligibleContinues(tail, f, now, after, at);
      assert Before(head, behind[at]) by {
        EligibleFacts(tail, f, now, after);
        var j :| 0 <= j < |tail| && tail[j].key == behind[at];
        assert history[j + 1] == tail[j];
      }
      BeforeTotal(head, behind[at]);
    }
  }

  /** The n-th match sits on one of the keys, and the keys up to it yield the first n matches. */
  lemma {:induction false} NthMatch(keys: seq<Key>, details: map<String, Summary>, f: Filters, now: int, n: nat)
    returns (j: nat)
    requires HydratesTerminal(keys, details)
    requires 1 <= n <= |MatchedOf(keys, details, f, now)|
    ensures j < |keys| && keys[j] == MatchedOf(keys, details, f, now)[n - 1].key
    ensures MatchedOf(keys[..j + 1], details, f, now) == MatchedOf(keys, details, f, now)[..n]
  {
    var all := MatchedOf(keys, details, f, now);
    var rest := MatchedOf(keys[1..], details, f, now);
    var taken := |all| - |rest|;
    if taken == 1 && n == 1 {
      assert all == [all[0]] + rest;
      assert keys[..1][1..] == [];
      j := 0;
    } else {
      var below := NthMatch(keys[1..], details, f, now, n - taken);
      j := below + 1;
      assert keys[..j + 1][1..] == keys[1..][..below + 1];
    }
  }

  /** A query a client can send while walking: a legal limit and a cursor made for its own filters. */
  predicate WalkQuery(q: Query) {
    1 <= q.limit <= MAX_PAGE_LIMIT && (q.cursor.Some? ==> q.cursor.value.filters == q.filters)
  }

  function Remaining(store: Store, q: Query, now: int): seq<Key> {
    if ReadsHistory(q.filters.status) then EligibleKeys(store.history, q.filters, now, AfterOf(q.cursor)) else []
  }

  /** A page takes a prefix of the remaining matches and its cursor stands for exactly the rest. */
  lemma PageAdvances(store: Store, q: Query, now: int)
    requires Coherent(store) && WalkQuery(q)
    ensures PageOf(store, q, now).Ok?
    ensures var page := PageOf(store, q, now).value;
      var left := MatchedOf(Remaining(store, q, now), store.details, q.filters, now);
      if page.nextCursor.None? then page.items == left
      else
        var next := q.(cursor := page.nextCursor);
        && WalkQuery(next)
        && |Remaining(store, next, now)| < |Remaining(store, q, now)|
        && left == page.items + MatchedOf(Remaining(store, next, now), store.details, q.filters, now)
  {
    var after := AfterOf(q.cursor);
    var left := Remaining(store, q, now);
    var scan := Take(left, MAX_HYDRATED);
    var page := PageOf(store, q, now).value;
    var matched := MatchedOf(scan, store.details, q.filters, now);
    assert Take(HistoryKeys(store, q.filters, now, after), MAX_HYDRATED) == scan;
    RequestKeys(store, q.filters, now, after);
    if |matched| > q.limit {
      var j := NthMatch(scan, store.details, q.filters, now, q.limit);
      assert scan[..j + 1] == left[..j + 1];
      CutAt(store, q, now, j);
    } else if |left| > MAX_HYDRATED {
      CutAt(store, q, now, MAX_HYDRATED - 1);
    }
  }

  lemma CutAt(store: Store, q: Query, now: int, j: nat)
    requires Coherent(store) && j < |Remaining(store, q, now)|
    ensures var left := Remaining(store, q, now);
      var next := q.(cursor := Some(Cursor(left[j], q.filters)));
      && |Remaining(store, next, now)| < |left|
      && MatchedOf(left, store.details, q.filters, now)
         == MatchedOf(left[..j + 1], store.details, q.filters, now)
            + MatchedOf(Remaining(store, next, now), store.details, q.filters, now)
  {
    var left := Remaining(store, q, now);
    EligibleContinues(store.history, q.filters, now, AfterOf(q.cursor), j);
    assert left == left[..j + 1] + left[j + 1..];
    MatchedAppend(left[..j + 1], left[j + 1..], store.details, q.filters, now);
  }

  /** Everything a client sees by following `nextCursor` until there is none. */
  ghost function Walk(store: Store, q: Query, now: int): seq<Summary>
    requires Coherent(store) && WalkQuery(q)
    decreases |Remaining(store, q, now)|
  {
    PageAdvances(store, q, now);
    var page := PageOf(store, q, now).value;
    if page.nextCursor.None? then page.items
    else page.items + Walk(store, q.(cursor := page.nextCursor), now)
  }

  lemma {:induction false} WalkYieldsTheRest(store: Store, q: Query, now: int)
    requires Coherent(store) && WalkQuery(q)
    ensures Walk(store, q, now) == MatchedOf(Remaining(store, q, now), store.details, q.filters, now)
    decreases |Remaining(store, q, now)|
  {
    PageAdvances(store, q, now);
    var page := PageOf(store, q, now).value;
    if page.nextCursor.Some? {
      WalkYieldsTheRest(store, q.(cursor := page.nextCursor), now);
    }
  }

  ghost predicate CoherentHistory(history: seq<HistoryEntry>, details: map<String, Summary>) {
    forall i :: 0 <= i < |history| && history[i].key.activityId in details ==>
      var d := details[history[i].key.activityId];
      d.key == history[i].key && d.kind == history[i].kind && !IsActive(d.status)
  }

  /** The index's type and time bounds never hide a record the full filter would show. */
  lemma {:induction false} PrefilterHidesNothing(history: seq<HistoryEntry>, details: map<String, Summary>, f: Filters,
                                                 now: int)
    requires CoherentHistory(history, details)
    ensures MatchedOf(EligibleKeys(history, f, now, None), details, f, now) == MatchingHistory(history, details, f, now)
    ensures !ReadsHistory(f.status) ==> MatchingHistory(history, details, f, now) == []
  {
    if |history| > 0 {
      var head, tail := history[0], history[1..];
      forall i | 0 <= i < |tail| && tail[i].key.activityId in details
        ensures var d := details[tail[i].key.activityId];
          d.key == tail[i].key && d.kind == tail[i].kind && !IsActive(d.status)
      {
        assert tail[i] == history[i + 1];
      }
      PrefilterHidesNothing(tail, details, f, now);
      var rest := EligibleKeys(tail, f, now, None);
      assert ([head.key] + rest)[1..] == rest;
      if head.key.activityId in details {
        var d := details[head.key.activityId];
        assert MatchesFilters(d, f, now) ==> Admits(head, f, now);
      }
    }
  }

  /**
   Exactly-once traversal: however small the limit and however often the hydration bound cuts a
   page short, the pages concatenate to the matching history.
   */
  lemma WalkVisitsHistoryExactlyOnce(store: Store, f: Filters, limit: int, now: int)
    requires Coherent(store) && 1 <= limit <= MAX_PAGE_LIMIT
    ensures Walk(store, Query(f, None, limit), now) == MatchingHistory(store.history, store.details, f, now)
  {
    WalkYieldsTheRest(store, Query(f, None, limit), now);
    PrefilterHidesNothing(store.history, store.details, f, now);
  }

  /** That history holds exactly the matching records, each once and in history order. */
  lemma {:induction false} MatchingHistoryIsExact(history: seq<HistoryEntry>, details: map<String, Summary>, f: Filters,
                                                  now: int)
    requires Sorted(history) && CoherentHistory(history, details)
    ensures StrictlyOrdered(MatchingHistory(history, details, f, now))
    ensures forall s :: s in MatchingHistory(history, details, f, now) <==>
      exists i :: 0 <= i < |history| && Yields(history[i], details, f, now, s)
  {
    if |history| > 0 {
      var head, tail := history[0], history[1..];
      MatchingHistoryIsExact(tail, details, f, now);
      var rest := MatchingHistory(tail, details, f, now);
      var all := MatchingHistory(history, details, f, now);
      forall m | 0 <= m < |rest| ensures Before(head.key, rest[m].key) {
        assert rest[m] in rest;
        var i :| 0 <= i < |tail| && Yields(tail[i], details, f, now, rest[m]);
        assert history[i + 1] == tail[i];
      }
      forall s ensures s in all <==> exists i :: 0 <= i < |history| && Yields(history[i], details, f, now, s) {
        assert s in all <==> Yields(head, details, f, now, s) || s in rest;
        if i :| 0 <= i < |tail| && Yields(tail[i], details, f, now, s) {
          assert Yields(history[i + 1], details, f, now, s);
        }
        if i :| 0 <= i < |history| && Yields(history[i], details, f, now, s) {
          assert i == 0 || tail[i - 1] == history[i];
        }
      }
    }
  }

  predicate Yields(entry: HistoryEntry, details: map<String, Summary>, f: Filters, now: int, s: Summary) {
    entry.key.activityId in details && details[entry.key.activityId] == s && MatchesFilters(s, f, now)
  }
}
