/**
 The resumable copy of a manager contract's event log into the local store.

 The log is kept oldest first, so an event's index is its age rank and a paging cursor is the number
 of events that are still older than the page boundary. That number does not move when the chain
 appends newer events, which is what makes a persisted cursor resumable.
 */
module EventSync {
  import opened Wrappers

  datatype EventId = EventId(txId: string, eventIndex: nat)
  datatype LogEvent = LogEvent(id: EventId, height: nat)
  datatype Row = Row(height: nat, canonical: bool)
  datatype Vocabulary = GenericV1 | ReferenceManagerV1
  datatype Checkpoint = Checkpoint(cursor: Option<nat>, updatedAt: nat)
  datatype LogPage = LogPage(results: seq<LogEvent>, prevCursor: Option<nat>)

  datatype SyncResult = SyncResult(
    resumed: bool,
    incremental: bool,
    pagesProcessed: nat,
    eventsProcessed: nat,
    newEvents: nat,
    replayedEvents: nat,
    stoppedAtKnownOverlap: bool)

  datatype SyncOutcome = InvalidPageLimit | Interrupted | Finished(result: SyncResult)

  /** The locals of one pass that change from page to page. */
  datatype Scan = Scan(
    cursor: Option<nat>,
    requestedCursors: set<Option<nat>>,
    pages: nat, processed: nat, added: nat, replayed: nat,
    stoppedAtOverlap: bool,
    scannedIds: set<EventId>,
    boundary: Option<nat>,
    boundaryComplete: bool)

  /** What a pass is fixed to when it starts. */
  datatype PassOptions = PassOptions(
    v: Vocabulary, pageLimit: nat, observedAt: nat, resumed: bool, incremental: bool)

  /** What the proof remembers of a pass: how it started, and that it stored the ranks `p..head`. */
  datatype Pass = Pass(
    closed: bool, ahead: bool, behind: bool,
    before: map<EventId, Row>, startLog: seq<LogEvent>, startHead: nat,
    p: nat, head: nat, rows: map<EventId, Row>)

  datatype Progress = More | Done | Aborted

  // ---------------------------------------------------------------------------------------------
  // The API and the store
  // ---------------------------------------------------------------------------------------------

  /** The oldest rank of a page of `limit` events that starts just below rank `top`. */
  function Bottom(top: nat, limit: nat): nat {
    if top <= limit then 0 else top - limit
  }

  /** An honest answer: up to `limit` events, newest first, starting just below the cursor. */
  function GetLogs(log: seq<LogEvent>, cursor: Option<nat>, limit: nat): (page: LogPage)
    requires cursor.Some? ==> cursor.value <= |log|
  {
    PageBelow(log, if cursor.Some? then cursor.value else |log|, limit)
  }

  function PageBelow(log: seq<LogEvent>, top: nat, limit: nat): LogPage
    requires top <= |log|
  {
    var bottom := Bottom(top, limit);
    LogPage(Newest(log, bottom, top), if bottom == 0 then None else Some(bottom))
  }

  /** The rows a page writes; the later row of a duplicated id wins. */
  function PageRows(page: seq<LogEvent>): map<EventId, Row> {
    if |page| == 0 then map[]
    else map[page[0].id := Row(page[0].height, true)] + PageRows(page[1..])
  }

  function CountUnknown(known: set<EventId>, page: seq<LogEvent>): (n: nat)
    ensures n <= |page|
  {
    if |page| == 0 then 0
    else (if page[0].id in known then 0 else 1) + CountUnknown(known, page[1..])
  }

  predicate Above(height: nat, boundary: nat, includeBoundary: bool) {
    height > boundary || (includeBoundary && height == boundary)
  }

  /** `markMissingCanonicalContractEvents`. */
  function MarkMissing(events: map<EventId, Row>, boundary: nat, includeBoundary: bool,
                       present: set<EventId>): map<EventId, Row>
  {
    map id | id in events ::
      if events[id].canonical && Above(events[id].height, boundary, includeBoundary) && id !in present
      then events[id].(canonical := false)
      else events[id]
  }

  /** The early stop's test of a page. */
  predicate WhollyKnown(page: LogPage, events: map<EventId, Row>) {
    |page.results| > 0 && forall k :: 0 <= k < |page.results| ==> page.results[k].id in events
  }

  function Other(v: Vocabulary): Vocabulary {
    if v == GenericV1 then ReferenceManagerV1 else GenericV1
  }

  /** `managerEventCheckpoint`: another vocabulary's scan that is not older voids this one's claim. */
  function UsableCheckpoint(streams: map<Vocabulary, Checkpoint>, v: Vocabulary): Option<Checkpoint> {
    var other := Other(v);
    if other in streams && (v !in streams || streams[other].updatedAt >= streams[v].updatedAt) then None
    else if v in streams then Some(streams[v])
    else None
  }

  function MinHeight(rows: seq<nat>): (m: nat)
    requires rows != []
    ensures m in rows
    ensures forall k :: 0 <= k < |rows| ==> m <= rows[k]
  {
    if |rows| == 1 then rows[0]
    else var rest := MinHeight(rows[1..]); if rows[0] <= rest then rows[0] else rest
  }

  function LogHeights(page: seq<LogEvent>): seq<nat> {
    seq(|page|, k requires 0 <= k < |page| => page[k].height)
  }

  function StoredHeights(events: map<EventId, Row>, page: seq<LogEvent>): seq<nat>
    requires forall k :: 0 <= k < |page| ==> page[k].id in events
  {
    seq(|page|, k requires 0 <= k < |page| => events[page[k].id].height)
  }

  // ---------------------------------------------------------------------------------------------
  // What the protocol keeps
  // ---------------------------------------------------------------------------------------------

  predicate DistinctIds(log: seq<LogEvent>) {
    forall i, j :: 0 <= i < j < |log| ==> log[i].id != log[j].id
  }

  predicate Known(log: seq<LogEvent>, events: map<EventId, Row>, i: nat)
    requires i < |log|
  {
    log[i].id in events
  }

  /** A stored event implies every older event down to rank `p` is stored. */
  ghost predicate ClosedFrom(log: seq<LogEvent>, events: map<EventId, Row>, p: nat) {
    forall i, j :: p <= i < j < |log| && Known(log, events, j) ==> Known(log, events, i)
  }

  ghost predicate Covers(log: seq<LogEvent>, events: map<EventId, Row>, p: nat, head: nat)
    requires head <= |log|
  {
    forall i :: p <= i < head ==> Known(log, events, i)
  }

  /** No hole from rank `p` up, and everything from `p` up to `head` present. */
  ghost predicate HoleFree(log: seq<LogEvent>, events: map<EventId, Row>, p: nat, head: nat) {
    p <= head <= |log| && ClosedFrom(log, events, p) && Covers(log, events, p, head)
  }

  function Position(cursor: Option<nat>): nat {
    if cursor.Some? then cursor.value else 0
  }

  /**
   The backfill invariant. Whichever vocabulary's checkpoint may be trusted, the store has no hole
   above its cursor, and holds everything from there up to the head its scan started at.
   */
  ghost predicate Backfilled(log: seq<LogEvent>, events: map<EventId, Row>,
                             streams: map<Vocabulary, Checkpoint>, scanHead: nat)
  {
    forall v :: UsableCheckpoint(streams, v).Some? ==>
      HoleFree(log, events, Position(streams[v].cursor), scanHead)
  }

  ghost predicate HeightsAscend(log: seq<LogEvent>) {
    forall i, j :: 0 <= i < j < |log| ==> log[i].height <= log[j].height
  }

  ghost predicate HeightsAgree(log: seq<LogEvent>, events: map<EventId, Row>) {
    forall i :: 0 <= i < |log| && Known(log, events, i) ==> events[log[i].id].height == log[i].height
  }

  ghost predicate InLog(log: seq<LogEvent>, id: EventId) {
    exists i :: 0 <= i < |log| && log[i].id == id
  }

  /**
   What a finished incremental pass over ranks `from..|log|` did to the rows `before` it. No event
   of the log lost its canonical flag; of the rows that are no longer in the log, exactly the
   canonical ones above the boundary height lost it (those at it too when the whole log was read).
   */
  ghost predicate RepairedAbove(log: seq<LogEvent>, before: map<EventId, Row>, after: map<EventId, Row>, from: nat)
    requires from <= |log|
  {
    && (forall i :: 0 <= i < |log| && Known(log, after, i)
                    && (Known(log, before, i) ==> before[log[i].id].canonical)
                    ==> after[log[i].id].canonical)
    && (forall id :: id in before && !InLog(log, id) ==>
          && id in after
          && after[id] == if from < |log| && before[id].canonical
             && Above(before[id].height, log[from].height, from == 0)
                          then before[id].(canonical := false) else before[id])
  }

  /** The ranks `bottom..top`, newest first, as pages deliver them. */
  function Newest(log: seq<LogEvent>, bottom: nat, top: nat): (r: seq<LogEvent>)
    requires bottom <= top <= |log|
    ensures |r| == top - bottom
    ensures forall k :: 0 <= k < |r| ==> r[k] == log[top - 1 - k]
  {
    seq(top - bottom, k requires 0 <= k < top - bottom => log[top - 1 - k])
  }

  /** `ids` names exactly the ranks `p..head` of the log. */
  ghost predicate NamesRanks(log: seq<LogEvent>, ids: set<EventId>, p: nat, head: nat) {
    && p <= head <= |log|
    && (forall i :: 0 <= i < |log| ==> (log[i].id in ids <==> p <= i < head))
    && (forall id :: id in ids ==> InLog(log, id))
  }

  /** `rows` is what storing exactly the ranks `p..head` writes. */
  ghost predicate RankRows(log: seq<LogEvent>, rows: map<EventId, Row>, p: nat, head: nat) {
    && NamesRanks(log, rows.Keys, p, head)
    && forall i :: p <= i < head ==> rows[log[i].id] == Row(log[i].height, true)
  }

  function IdsOf(page: seq<LogEvent>): set<EventId> {
    set k | 0 <= k < |page| :: page[k].id
  }

  lemma PageNamesRanks(log: seq<LogEvent>, bottom: nat, top: nat)
    requires DistinctIds(log) && bottom <= top <= |log|
    ensures NamesRanks(log, IdsOf(Newest(log, bottom, top)), bottom, top)
  {
    var page := Newest(log, bottom, top);
    forall i | bottom <= i < top ensures log[i].id in IdsOf(page) {
      assert page[top - 1 - i].id == log[i].id;
    }
  }

  lemma OneRank(log: seq<LogEvent>, i: nat)
    requires DistinctIds(log) && i < |log|
    ensures RankRows(log, map[log[i].id := Row(log[i].height, true)], i, i + 1)
  {
  }

  /** Names and rows of adjoining rank ranges join. */
  lemma NamesJoin(log: seq<LogEvent>, lower: set<EventId>, upper: set<EventId>, bottom: nat, p: nat, head: nat)
    requires NamesRanks(log, lower, bottom, p) && NamesRanks(log, upper, p, head)
    ensures NamesRanks(log, upper + lower, bottom, head)
  {
  }

  lemma SameNames(log: seq<LogEvent>, a: set<EventId>, b: set<EventId>, p: nat, head: nat)
    requires NamesRanks(log, a, p, head) && NamesRanks(log, b, p, head)
    ensures a == b
  {
    forall id | id in a || id in b ensures id in a && id in b {
      assert InLog(log, id);
    }
  }

  lemma RowsJoin(log: seq<LogEvent>, lower: map<EventId, Row>, upper: map<EventId, Row>, bottom: nat, p: nat, head: nat)
    requires RankRows(log, lower, bottom, p) && RankRows(log, upper, p, head)
    ensures RankRows(log, upper + lower, bottom, head)
  {
    NamesJoin(log, lower.Keys, upper.Keys, bottom, p, head);
    assert (upper + lower).Keys == upper.Keys + lower.Keys;
  }

  /** The rows of the newest event of a page, and those of the rest. */
  lemma PageRowsSplit(log: seq<LogEvent>, bottom: nat, top: nat)
    requires bottom < top <= |log|
    ensures PageRows(Newest(log, bottom, top))
      == map[log[top - 1].id := Row(log[top - 1].height, true)] + PageRows(Newest(log, bottom, top - 1))
  {
    assert Newest(log, bottom, top)[1..] == Newest(log, bottom, top - 1);
  }

  lemma OneMoreRank(log: seq<LogEvent>, rows: map<EventId, Row>, bottom: nat, top: nat)
    requires DistinctIds(log) && bottom < top <= |log| && RankRows(log, rows, bottom, top - 1)
    ensures RankRows(log, map[log[top - 1].id := Row(log[top - 1].height, true)] + rows, bottom, top)
  {
    OneRank(log, top - 1);
    hide RankRows;
    RowsJoin(log, rows, map[log[top - 1].id := Row(log[top - 1].height, true)], bottom, top - 1, top);
  }

  lemma {:induction false} PageRowsAreRankRows(log: seq<LogEvent>, bottom: nat, top: nat)
    requires DistinctIds(log) && bottom <= top <= |log|
    ensures RankRows(log, PageRows(Newest(log, bottom, top)), bottom, top)
    decreases top - bottom
  {
    if bottom == top {
      NothingScanned(log, map[], top);
    } else {
      hide RankRows, DistinctIds, Newest, PageRows;
      PageRowsAreRankRows(log, bottom, top - 1);
      OneMoreRank(log, PageRows(Newest(log, bottom, top - 1)), bottom, top);
      PageRowsSplit(log, bottom, top);
    }
  }

  /** Each unknown event of a page adds one row. */
  lemma {:induction false} UnknownIdsAddUp(known: set<EventId>, page: seq<LogEvent>)
    requires forall j, k :: 0 <= j < k < |page| ==> page[j].id != page[k].id
    ensures |known + IdsOf(page)| == |known| + CountUnknown(known, page)
    decreases |page|
  {
    if |page| == 0 {
      assert known + IdsOf(page) == known;
    } else {
      var next := known + {page[0].id};
      UnknownIdsAddUp(next, page[1..]);
      CountUnknownIgnores(known, next, page[1..]);
      IdsOfFirst(page);
      assert next + IdsOf(page[1..]) == known + IdsOf(page);
    }
  }

  lemma IdsOfFirst(page: seq<LogEvent>)
    requires |page| > 0
    ensures IdsOf(page) == {page[0].id} + IdsOf(page[1..])
  {
    forall id | id in IdsOf(page[1..]) ensures id in IdsOf(page) {
      var k :| 0 <= k < |page[1..]| && page[1..][k].id == id;
      assert page[k + 1].id == id;
    }
    forall id | id in IdsOf(page) ensures id in {page[0].id} + IdsOf(page[1..]) {
      var k :| 0 <= k < |page| && page[k].id == id;
      assert k > 0 ==> page[1..][k - 1].id == id;
    }
  }

  lemma {:induction false} CountUnknownIgnores(a: set<EventId>, b: set<EventId>, page: seq<LogEvent>)
    requires forall k :: 0 <= k < |page| ==> (page[k].id in a <==> page[k].id in b)
    ensures CountUnknown(a, page) == CountUnknown(b, page)
    decreases |page|
  {
    if |page| > 0 {
      CountUnknownIgnores(a, b, page[1..]);
    }
  }

  lemma {:induction false} PageRowsKeys(page: seq<LogEvent>)
    ensures PageRows(page).Keys == IdsOf(page)
    decreases |page|
  {
    if |page| > 0 {
      PageRowsKeys(page[1..]);
      IdsOfFirst(page);
    }
  }

  lemma PutPageSize(log: seq<LogEvent>, events: map<EventId, Row>, page: seq<LogEvent>, bottom: nat, top: nat)
    requires DistinctIds(log) && bottom <= top <= |log| && page == Newest(log, bottom, top)
    ensures |events + PageRows(page)| == |events| + CountUnknown(events.Keys, page)
  {
    UnknownIdsAddUp(events.Keys, page);
    PageRowsKeys(page);
    var all := events + PageRows(page);
    assert all.Keys == events.Keys + IdsOf(page);
    assert |all| == |all.Keys| && |events| == |events.Keys|;
  }

  // How the backfill invariant moves ------------------------------------------------------------

  lemma NothingAboveTheHead(log: seq<LogEvent>, events: map<EventId, Row>)
    ensures HoleFree(log, events, |log|, |log|)
    ensures RankRows(log, map[], |log|, |log|)
  {
  }

  lemma NothingScanned(log: seq<LogEvent>, events: map<EventId, Row>, p: nat)
    requires p <= |log|
    ensures RankRows(log, map[], p, p) && events + map[] == events
  {
  }

  lemma GrowthKeepsHoleFree(log: seq<LogEvent>, longer: seq<LogEvent>, events: map<EventId, Row>, p: nat, head: nat)
    requires log <= longer && HoleFree(log, events, p, head)
    requires forall i :: |log| <= i < |longer| ==> !Known(longer, events, i)
    ensures HoleFree(longer, events, p, head)
  {
    assert forall i :: 0 <= i < |log| ==> Known(longer, events, i) == Known(log, events, i);
  }

  lemma RanksInOrder(log: seq<LogEvent>, rows: map<EventId, Row>, p: nat, head: nat)
    requires RankRows(log, rows, p, head)
    ensures p <= head <= |log| && NamesRanks(log, rows.Keys, p, head)
  {
  }

  lemma GrowthKeepsCovers(log: seq<LogEvent>, longer: seq<LogEvent>, events: map<EventId, Row>, p: nat, head: nat)
    requires log <= longer && head <= |log|
    ensures Covers(longer, events, p, head) <==> Covers(log, events, p, head)
  {
    assert forall i :: 0 <= i < |log| ==> Known(longer, events, i) == Known(log, events, i);
  }

  lemma SameKeysSameHoles(log: seq<LogEvent>, a: map<EventId, Row>, b: map<EventId, Row>, p: nat, head: nat)
    requires a.Keys == b.Keys && head <= |log|
    ensures HoleFree(log, a, p, head) <==> HoleFree(log, b, p, head)
    ensures Covers(log, a, p, head) <==> Covers(log, b, p, head)
  {
    assert forall i :: 0 <= i < |log| ==> Known(log, a, i) == Known(log, b, i);
  }

  /** What a complete store says about an incremental pass that read the whole log. */
  lemma CompleteIsCovered(log: seq<LogEvent>, before: map<EventId, Row>, events: map<EventId, Row>, head: nat)
    requires HoleFree(log, events, 0, head)
    ensures head <= |log| && Covers(log, events, 0, head) && Covers(log, before, 0, 0)
    ensures forall limit :: ReadDownTo(log, before, 0, limit, head)
  {
  }

  lemma GrowthKeepsRanks(log: seq<LogEvent>, longer: seq<LogEvent>, events: map<EventId, Row>,
                         before: map<EventId, Row>, rows: map<EventId, Row>, p: nat, head: nat)
    requires log <= longer && events == before + rows && RankRows(log, rows, p, head)
    requires forall i :: |log| <= i < |longer| ==> !Known(longer, events, i)
    ensures RankRows(longer, rows, p, head)
    ensures forall i :: |log| <= i < |longer| ==> !Known(longer, before, i)
    ensures forall b :: 0 <= b <= p ==> Newest(longer, b, p) == Newest(log, b, p)
    ensures HeightsAscend(longer) ==> HeightsAscend(log)
  {
    forall i | |log| <= i < |longer| ensures !Known(longer, before, i) && !Known(longer, rows, i) {
      assert !Known(longer, events, i);
    }
    forall id | id in rows ensures InLog(longer, id) {
      var i :| 0 <= i < |log| && log[i].id == id;
      assert longer[i].id == id;
    }
    forall i | 0 <= i < |longer| ensures longer[i].id in rows.Keys <==> p <= i < head {
      if i < |log| { assert longer[i] == log[i]; } else { assert !Known(longer, rows, i); }
    }
    forall i | p <= i < head ensures rows[longer[i].id] == Row(longer[i].height, true) {
      assert longer[i] == log[i];
    }
    if HeightsAscend(longer) {
      forall i, j | 0 <= i < j < |log| ensures log[i].height <= log[j].height {
        assert longer[i].height <= longer[j].height;
      }
    }
  }

  lemma CommitKeepsHoleFree(log: seq<LogEvent>, events: map<EventId, Row>, rows: map<EventId, Row>,
                            bottom: nat, p: nat, head: nat)
    requires HoleFree(log, events, p, head) && RankRows(log, rows, bottom, p)
    ensures HoleFree(log, events + rows, bottom, head)
  {
    assert forall i :: 0 <= i < |log| ==>
      (Known(log, events + rows, i) <==> Known(log, events, i) || bottom <= i < p);
  }

  /** Rows of adjoining rank ranges, added one after the other. */
  lemma CommitRows(log: seq<LogEvent>, before: map<EventId, Row>, rows: map<EventId, Row>, added: map<EventId, Row>,
                   names: set<EventId>, bottom: nat, p: nat, head: nat)
    requires RankRows(log, rows, p, head) && RankRows(log, added, bottom, p) && NamesRanks(log, names, bottom, head)
    ensures RankRows(log, rows + added, bottom, head)
    ensures (before + rows) + added == before + (rows + added)
    ensures names == (rows + added).Keys
  {
    RowsJoin(log, added, rows, bottom, p, head);
    SameNames(log, names, (rows + added).Keys, bottom, head);
  }

  /** One known event just below the scanned ranks, and the store before the pass closed the rest. */
  lemma OverlapClosesTheGap(log: seq<LogEvent>, before: map<EventId, Row>, rows: map<EventId, Row>,
                            p: nat, passHead: nat, head: nat)
    requires RankRows(log, rows, p, passHead) && ClosedFrom(log, before, 0) && HoleFree(log, before + rows, p, head)
    requires 0 < p && Known(log, before + rows, p - 1)
    ensures HoleFree(log, before + rows, 0, head)
  {
    assert forall i :: 0 <= i < |log| ==>
      (Known(log, before + rows, i) <==> Known(log, before, i) || p <= i < passHead);
  }

  predicate InTimeOrder(passes: seq<(Vocabulary, int, nat)>) {
    forall j, k :: 0 <= j < k < |passes| ==> passes[j].2 <= passes[k].2
  }

  /** The clock of a write to `v` is behind the other vocabulary's checkpoint. */
  predicate Behind(streams: map<Vocabulary, Checkpoint>, v: Vocabulary, observedAt: nat) {
    Other(v) in streams && observedAt < streams[Other(v)].updatedAt
  }

  /** A write voids the other vocabulary's checkpoint exactly when its clock is not behind that one. */
  lemma WriteVoidsTheOtherExactlyWhen(streams: map<Vocabulary, Checkpoint>, v: Vocabulary, cursor: Option<nat>,
                                      observedAt: nat)
    requires Other(v) in streams
    ensures var after := streams[v := Checkpoint(cursor, observedAt)];
      && (UsableCheckpoint(after, Other(v)).None? <==> !Behind(streams, v, observedAt))
      && (UsableCheckpoint(after, v).Some? <==> observedAt > streams[Other(v)].updatedAt)
  {
    assert Other(Other(v)) == v;
  }

  /** What is claimed after `v` wrote its cursor: the strictly later of the two checkpoints, and neither on a tie. */
  ghost predicate ClaimHolds(log: seq<LogEvent>, events: map<EventId, Row>, streams: map<Vocabulary, Checkpoint>,
                             v: Vocabulary, cursor: Option<nat>, observedAt: nat, scanHead: nat, covered: nat) {
    if Behind(streams, v, observedAt) then HoleFree(log, events, Position(streams[Other(v)].cursor), scanHead)
    else if Other(v) in streams && observedAt == streams[Other(v)].updatedAt then true
    else HoleFree(log, events, Position(cursor), covered)
  }

  /** For every clock: the backfill invariant after a write is exactly the claim of the later checkpoint. */
  lemma LatestStreamDecides(log: seq<LogEvent>, events: map<EventId, Row>, streams: map<Vocabulary, Checkpoint>,
                            v: Vocabulary, cursor: Option<nat>, observedAt: nat, scanHead: nat, covered: nat)
    ensures Backfilled(log, events, streams[v := Checkpoint(cursor, observedAt)],
                       if Behind(streams, v, observedAt) then scanHead else covered)
      <==> ClaimHolds(log, events, streams, v, cursor, observedAt, scanHead, covered)
  {
    var after, w := streams[v := Checkpoint(cursor, observedAt)], Other(v);
    assert Other(w) == v && v != w;
    if w in streams {
      WriteVoidsTheOtherExactlyWhen(streams, v, cursor, observedAt);
    } else {
      assert UsableCheckpoint(after, v).Some? && UsableCheckpoint(after, w).None?;
    }
    forall u | UsableCheckpoint(after, u).Some? ensures u == v || u == w {
    }
  }

  /** Storing the ranks `p..head` keeps an earlier claim exactly when nothing from its cursor to them was missing. */
  lemma ClaimSurvivesExactlyWhen(log: seq<LogEvent>, events: map<EventId, Row>, rows: map<EventId, Row>,
                                 p: nat, head: nat, q: nat, scanHead: nat)
    requires RankRows(log, rows, p, head) && p < head && HoleFree(log, events, q, scanHead)
    ensures HoleFree(log, events + rows, q, scanHead) <==> Covers(log, events, q, p)
  {
    assert forall i :: 0 <= i < |log| ==> (Known(log, events + rows, i) <==> Known(log, events, i) || p <= i < head);
    assert Known(log, events + rows, p);
  }

  /**
   The early stop at a known page `bottom..p`, whatever happened to the log before: the store is then
   complete up to the head of the scan exactly when it held everything below that page already.
   */
  lemma EarlyStopIsCompleteExactlyWhen(log: seq<LogEvent>, before: map<EventId, Row>, rows: map<EventId, Row>,
                                       bottom: nat, p: nat, head: nat)
    requires RankRows(log, rows, p, head) && bottom <= p
    requires forall i :: bottom <= i < p ==> Known(log, before, i)
    ensures Covers(log, before + rows, 0, head) <==> Covers(log, before, 0, bottom)
  {
    assert forall i :: 0 <= i < |log| ==> (Known(log, before + rows, i) <==> Known(log, before, i) || p <= i < head);
  }

  /** The boundary a page contributes is the height of its oldest rank. */
  lemma PageBoundary(log: seq<LogEvent>, heights: seq<nat>, bottom: nat, top: nat)
    requires HeightsAscend(log) && bottom < top <= |log| && |heights| == top - bottom
    requires forall k :: 0 <= k < |heights| ==> heights[k] == log[top - 1 - k].height
    ensures MinHeight(heights) == log[bottom].height
  {
    assert heights[top - 1 - bottom] == log[bottom].height;
  }

  /** The boundary of a page that is already stored, when the stored heights agree with the log. */
  lemma StoredPageBoundary(log: seq<LogEvent>, before: map<EventId, Row>, rows: map<EventId, Row>,
                           page: seq<LogEvent>, bottom: nat, p: nat, head: nat)
    requires RankRows(log, rows, p, head) && bottom < p <= |log| && page == Newest(log, bottom, p)
    requires forall k :: 0 <= k < |page| ==> page[k].id in before + rows
    ensures HeightsAscend(log) && HeightsAgree(log, before) ==>
      MinHeight(StoredHeights(before + rows, page)) == log[bottom].height
  {
    if HeightsAscend(log) && HeightsAgree(log, before) {
      var heights := StoredHeights(before + rows, page);
      forall k | 0 <= k < |page| ensures heights[k] == log[p - 1 - k].height {
        assert page[k] == log[p - 1 - k];
        assert Known(log, before, p - 1 - k);
      }
      PageBoundary(log, heights, bottom, p);
    }
  }

  /** The boundary after one more stored page. */
  function WidenBoundary(boundary: Option<nat>, page: seq<LogEvent>): nat
    requires |page| > 0
  {
    var pageBoundary := MinHeight(LogHeights(page));
    if boundary.None? || pageBoundary <= boundary.value then pageBoundary else boundary.value
  }

  lemma BoundaryFollowsThePages(log: seq<LogEvent>, boundary: Option<nat>, page: seq<LogEvent>, bottom: nat, top: nat)
    requires bottom < top <= |log| && page == Newest(log, bottom, top)
    requires boundary.Some? ==> top < |log| && (HeightsAscend(log) ==> boundary.value == log[top].height)
    ensures HeightsAscend(log) ==> WidenBoundary(boundary, page) == log[bottom].height
  {
    if HeightsAscend(log) {
      PageBoundary(log, LogHeights(page), bottom, top);
      if boundary.Some? { assert log[bottom].height <= log[top].height; }
    }
  }

  /** What an incremental pass notes about a page it stores. */
  function TrackWindow(c: Scan, page: LogPage, limit: nat): (t: Scan)
    ensures t == c.(scannedIds := t.scannedIds, boundary := t.boundary, boundaryComplete := t.boundaryComplete)
  {
    if |page.results| == 0 then c
    else c.(scannedIds := c.scannedIds + IdsOf(page.results),
            boundary := Some(WidenBoundary(c.boundary, page.results)),
            boundaryComplete := |page.results| < limit || page.prevCursor.None?)
  }

  /** The reconciliation window of an incremental pass that has scanned the ranks `p..head`. */
  ghost predicate Window(log: seq<LogEvent>, boundary: Option<nat>, complete: bool, p: nat, head: nat) {
    && p <= head <= |log|
    && (boundary.Some? <==> p < head)
    && complete == (p == 0 && p < head)
    && (boundary.Some? && HeightsAscend(log) ==> boundary.value == log[p].height)
  }

  lemma WindowFollowsThePages(log: seq<LogEvent>, c: Scan, page: LogPage, limit: nat,
                              p: nat, head: nat, names: set<EventId>)
    requires DistinctIds(log) && 1 <= limit && p <= |log| && NamesRanks(log, names, p, head)
    requires page == PageBelow(log, p, limit)
    ensures NamesRanks(log, names + IdsOf(page.results), Bottom(p, limit), head)
    ensures c.scannedIds == names ==> TrackWindow(c, page, limit).scannedIds == names + IdsOf(page.results)
    ensures Window(log, c.boundary, c.boundaryComplete, p, head) && (p < head ==> 0 < p) ==>
      var after := TrackWindow(c, page, limit);
      Window(log, after.boundary, after.boundaryComplete, Bottom(p, limit), head)
  {
    var bottom := Bottom(p, limit);
    PageNamesRanks(log, bottom, p);
    NamesJoin(log, IdsOf(page.results), names, bottom, p, head);
    if bottom == p {
      assert names + IdsOf(page.results) == names;
    } else if Window(log, c.boundary, c.boundaryComplete, p, head) {
      BoundaryFollowsThePages(log, c.boundary, page.results, bottom, p);
    }
  }

  /** The reconciling step of a pass over an unchanging, height-ordered log. */
  lemma RepairIsExact(log: seq<LogEvent>, before: map<EventId, Row>, rows: map<EventId, Row>,
                      present: set<EventId>, p: nat, from: nat)
    requires HeightsAscend(log) && HeightsAgree(log, before) && RankRows(log, rows, p, |log|)
    requires from <= p && from < |log| && NamesRanks(log, present, from, |log|)
    ensures RepairedAbove(log, before, MarkMissing(before + rows, log[from].height, from == 0, present), from)
  {
    var events := before + rows;
    var after := MarkMissing(events, log[from].height, from == 0, present);
    forall i | 0 <= i < |log| && Known(log, after, i) && (Known(log, before, i) ==> before[log[i].id].canonical)
      ensures after[log[i].id].canonical
    {
      assert Known(log, events, i);
      if i < from { assert log[i].height <= log[from].height; }
    }
    forall id | id in before && !InLog(log, id) ensures id in events && events[id] == before[id] && id !in present {
    }
  }

  /** An empty log gives no boundary, and then nothing is marked. */
  lemma NothingToRepair(log: seq<LogEvent>, before: map<EventId, Row>, rows: map<EventId, Row>, p: nat)
    requires RankRows(log, rows, p, |log|)
    ensures |log| == 0 ==> RepairedAbove(log, before, before + rows, |log|)
  {
  }

  /**
   The reconciling step marks no event of the log if and only if every event that was not scanned
   and is stored as canonical has a stored height the boundary leaves out.
   */
  lemma RepairSparesTheLogExactlyWhen(log: seq<LogEvent>, events: map<EventId, Row>, from: nat,
                                      boundary: nat, includeBoundary: bool, present: set<EventId>)
    requires NamesRanks(log, present, from, |log|)
    ensures (forall i :: 0 <= i < |log| && Known(log, events, i) ==>
               MarkMissing(events, boundary, includeBoundary, present)[log[i].id] == events[log[i].id])
       <==> (forall i :: 0 <= i < from && Known(log, events, i) && events[log[i].id].canonical ==>
               !Above(events[log[i].id].height, boundary, includeBoundary))
  {
    var marked := MarkMissing(events, boundary, includeBoundary, present);
    if forall i :: 0 <= i < |log| && Known(log, events, i) ==> marked[log[i].id] == events[log[i].id] {
      forall i | 0 <= i < from && Known(log, events, i) && events[log[i].id].canonical
        ensures !Above(events[log[i].id].height, boundary, includeBoundary)
      {
        assert marked[log[i].id] == events[log[i].id];
      }
    }
  }

  /**
   An incremental pass that began at rank `head` may leave ranks unread only below a full page that
   was wholly known before the pass.
   */
  ghost predicate ReadDownTo(log: seq<LogEvent>, before: map<EventId, Row>, from: nat, limit: nat, head: nat) {
    && from <= head <= |log| && (0 < head ==> from < head)
    && (0 < from ==> from + limit <= head && forall i :: from <= i < from + limit ==> Known(log, before, i))
  }

  /** A known page below what a pass has stored was known before the pass. */
  lemma OverlapWasKnown(log: seq<LogEvent>, before: map<EventId, Row>, rows: map<EventId, Row>,
                        page: seq<LogEvent>, bottom: nat, p: nat, head: nat)
    requires RankRows(log, rows, p, head) && bottom <= p && page == Newest(log, bottom, p)
    requires forall k :: 0 <= k < |page| ==> page[k].id in before + rows
    ensures forall i :: bottom <= i < p ==> Known(log, before, i)
  {
    forall i | bottom <= i < p ensures Known(log, before, i) {
      assert page[p - 1 - i] == log[i];
    }
  }

  lemma OverlapPageWasKnown(log: seq<LogEvent>, before: map<EventId, Row>, rows: map<EventId, Row>,
                            page: seq<LogEvent>, limit: nat, p: nat, head: nat)
    requires RankRows(log, rows, p, head) && 0 < p && 1 <= limit && page == Newest(log, Bottom(p, limit), p)
    requires forall k :: 0 <= k < |page| ==> page[k].id in before + rows
    ensures ReadDownTo(log, before, Bottom(p, limit), limit, head)
  {
    OverlapWasKnown(log, before, rows, page, Bottom(p, limit), p, head);
  }

  // ---------------------------------------------------------------------------------------------
  // The pass
  // ---------------------------------------------------------------------------------------------

  class ManagerEventSync {
    var log: seq<LogEvent>                    // the chain's contract log; newer events are appended
    var events: map<EventId, Row>             // chain_events
    var streams: map<Vocabulary, Checkpoint>  // chain_cursors
    ghost var scanHead: nat                   // log length when the latest committed scan began
    ghost var cuts: nat                       // how often a pass was cut off

    ghost predicate WellFormed()
      reads this
    {
      && DistinctIds(log)
      && forall v :: v in streams && streams[v].cursor.Some? ==> 0 < streams[v].cursor.value <= |log|
    }

    ghost predicate Closed()
      reads this
    {
      Backfilled(log, events, streams, scanHead)
    }

    ghost predicate ClockAhead(observedAt: nat)
      reads this
    {
      forall w :: w in streams ==> streams[w].updatedAt <= observedAt
    }

    constructor (initial: seq<LogEvent>)
      requires DistinctIds(initial)
      ensures WellFormed() && Closed() && log == initial && events == map[] && streams == map[]
    {
      log, events, streams, scanHead, cuts := initial, map[], map[], 0, 0;
    }

    /** Anything may happen at an await: new blocks append events, and the pass may be cut off. */
    method Await() returns (aborted: bool)
      requires WellFormed()
      modifies this`log, this`cuts
      ensures unchanged(this`events) && unchanged(this`streams) && unchanged(this`scanHead)
      ensures WellFormed() && old(log) <= log && cuts == old(cuts) + (if aborted then 1 else 0)
      ensures forall i :: |old(log)| <= i < |log| ==> !Known(log, events, i)
      ensures old(Closed()) ==> Closed()
    {
      aborted := *;
      cuts := cuts + (if aborted then 1 else 0);
      var appended: seq<LogEvent> := *;
      if DistinctIds(log + appended) && forall k :: 0 <= k < |appended| ==> appended[k].id !in events {
        log := log + appended;
        assert forall i :: 0 <= i < |old(log)| ==> Known(log, events, i) == Known(old(log), events, i);
      }
    }

    /** The cursor row of a page transaction, under any clock. The later stream alone decides what is claimed. */
    method PutCursor(v: Vocabulary, cursor: Option<nat>, observedAt: nat, ghost covered: nat)
      requires WellFormed()
      requires cursor.Some? ==> 0 < cursor.value <= |log|
      modifies this`streams, this`scanHead
      ensures unchanged(this`log) && unchanged(this`events) && unchanged(this`cuts)
      ensures WellFormed() && (old(ClockAhead(observedAt)) ==> ClockAhead(observedAt))
      ensures streams == old(streams)[v := Checkpoint(cursor, observedAt)]
      ensures Behind(streams, v, observedAt) == Behind(old(streams), v, observedAt)
      ensures scanHead == if Behind(old(streams), v, observedAt) then old(scanHead) else covered
      ensures Closed() <==> ClaimHolds(log, events, old(streams), v, cursor, observedAt, old(scanHead), covered)
    {
      LatestStreamDecides(log, events, streams, v, cursor, observedAt, scanHead, covered);
      scanHead := if Behind(streams, v, observedAt) then scanHead else covered;
      streams := streams[v := Checkpoint(cursor, observedAt)];
    }

    /** The rows of a page, and how many of its events the store does not know yet. */
    method RowsOf(page: seq<LogEvent>, ghost bottom: nat, ghost p: nat) returns (added: map<EventId, Row>, unknown: nat)
      requires WellFormed() && bottom <= p <= |log| && page == Newest(log, bottom, p)
      ensures RankRows(log, added, bottom, p)
      ensures |events + added| == |events| + unknown && unknown <= |page|
    {
      added := PageRows(page);
      unknown := CountUnknown(events.Keys, page);
      PageRowsAreRankRows(log, bottom, p);
      PutPageSize(log, events, page, bottom, p);
    }

    /** `putChainEventPage`: the rows and the cursor change in one store transaction. */
    method PutPage(v: Vocabulary, added: map<EventId, Row>, cursor: Option<nat>, observedAt: nat,
                   ghost before: map<EventId, Row>, ghost rows: map<EventId, Row>,
                   ghost names: set<EventId>, ghost p: nat, ghost head: nat, ghost covered: nat)
      requires WellFormed()
      requires events == before + rows && RankRows(log, rows, p, head) && RankRows(log, added, Position(cursor), p)
      requires cursor.Some? ==> 0 < cursor.value
      requires NamesRanks(log, names, Position(cursor), head)
      modifies this`events, this`streams, this`scanHead
      ensures unchanged(this`log) && unchanged(this`cuts)
      ensures WellFormed() && (old(ClockAhead(observedAt)) ==> ClockAhead(observedAt))
      ensures events == old(events) + added == before + (rows + added)
      ensures RankRows(log, rows + added, Position(cursor), head) && names == (rows + added).Keys
      ensures streams == old(streams)[v := Checkpoint(cursor, observedAt)]
      ensures Behind(streams, v, observedAt) == Behind(old(streams), v, observedAt)
      ensures scanHead == if Behind(old(streams), v, observedAt) then old(scanHead) else covered
      ensures HoleFree(log, old(events), p, covered) ==> HoleFree(log, events, Position(cursor), covered)
      ensures HoleFree(log, old(events), p, covered) && !Behind(old(streams), v, observedAt) ==> Closed()
      // a clock that went back leaves the other claim standing: rightly exactly when nothing was missing
      ensures Behind(old(streams), v, observedAt) && Position(cursor) < p
              && HoleFree(log, old(events), Position(old(streams)[Other(v)].cursor), old(scanHead)) ==>
        (Closed() <==> Covers(log, old(events), Position(old(streams)[Other(v)].cursor), Position(cursor)))
    {
      hide HoleFree, NamesRanks, RankRows, Backfilled, UsableCheckpoint, DistinctIds;
      RanksInOrder(log, rows, p, head);
      RanksInOrder(log, added, Position(cursor), p);
      CommitRows(log, before, rows, added, names, Position(cursor), p, head);
      if HoleFree(log, events, p, covered) {
        CommitKeepsHoleFree(log, events, added, Position(cursor), p, covered);
      }
      if Behind(streams, v, observedAt) && Position(cursor) < p
         && HoleFree(log, events, Position(streams[Other(v)].cursor), scanHead) {
        ClaimSurvivesExactlyWhen(log, events, added, Position(cursor), p, Position(streams[Other(v)].cursor), scanHead);
      }
      events := events + added;
      PutCursor(v, cursor, observedAt, covered);
    }

    /** The early stop: only the cursor is written; returns the page's reconciliation boundary. */
    method StopAtOverlap(v: Vocabulary, page: seq<LogEvent>, observedAt: nat,
                         ghost before: map<EventId, Row>, ghost rows: map<EventId, Row>,
                         ghost bottom: nat, ghost p: nat, ghost head: nat, ghost covered: nat)
      returns (boundary: nat)
      requires WellFormed()
      requires events == before + rows && RankRows(log, rows, p, head)
      requires bottom < p <= |log| && page == Newest(log, bottom, p)
      requires forall k :: 0 <= k < |page| ==> page[k].id in events
      modifies this`streams, this`scanHead
      ensures unchanged(this`log) && unchanged(this`events) && unchanged(this`cuts)
      ensures WellFormed() && (old(ClockAhead(observedAt)) ==> ClockAhead(observedAt))
      ensures streams == old(streams)[v := Checkpoint(None, observedAt)]
      ensures Behind(streams, v, observedAt) == Behind(old(streams), v, observedAt)
      ensures scanHead == if Behind(old(streams), v, observedAt) then old(scanHead) else covered
      ensures forall i :: bottom <= i < p ==> Known(log, before, i)
      ensures Covers(log, events, 0, head) <==> Covers(log, before, 0, bottom)
      ensures HoleFree(log, events, p, covered) && ClosedFrom(log, before, 0) ==> HoleFree(log, events, 0, covered)
      ensures HoleFree(log, events, p, covered) && ClosedFrom(log, before, 0) ==>
        !Behind(old(streams), v, observedAt) ==> Closed()
      ensures HeightsAscend(log) && HeightsAgree(log, before) ==> boundary == log[bottom].height
    {
      boundary := MinHeight(StoredHeights(events, page));
      StoredPageBoundary(log, before, rows, page, bottom, p, head);
      OverlapWasKnown(log, before, rows, page, bottom, p, head);
      EarlyStopIsCompleteExactlyWhen(log, before, rows, bottom, p, head);
      if HoleFree(log, events, p, covered) && ClosedFrom(log, before, 0) {
        assert page[0] == log[p - 1];
        OverlapClosesTheGap(log, before, rows, p, head, covered);
      }
      PutCursor(v, None, observedAt, covered);
    }

    /** `markMissingCanonicalContractEvents`, after the whole window has been observed. */
    method Reconcile(boundary: nat, includeBoundary: bool, present: set<EventId>)
      requires WellFormed()
      modifies this`events
      ensures unchanged(this`log) && unchanged(this`streams) && unchanged(this`scanHead) && unchanged(this`cuts)
      ensures WellFormed() && events == MarkMissing(old(events), boundary, includeBoundary, present)
      ensures |events| == |old(events)|
      ensures events.Keys == old(events).Keys
      ensures old(Closed()) ==> Closed()
    {
      events := MarkMissing(events, boundary, includeBoundary, present);
      assert events.Keys == old(events).Keys;
      assert |events.Keys| == |events| && |old(events).Keys| == |old(events)|;
      assert forall i :: 0 <= i < |log| ==> Known(log, events, i) == Known(log, old(events), i);
    }

    /** What no step of a pass loses. A pass whose clock is behind leaves the other claim and its head standing. */
    ghost predicate Kept(o: PassOptions, g: Pass, c: Scan)
      reads this
    {
      && WellFormed() && g.startLog <= log && (g.ahead ==> ClockAhead(o.observedAt))
      && g.behind == Behind(streams, o.v, o.observedAt) && (g.behind ==> scanHead == g.startHead)
      && (g.closed && !g.behind ==> Closed())
      && events == g.before + g.rows && RankRows(log, g.rows, g.p, g.head) && g.p <= g.head <= |log|
      && c.processed == c.added + c.replayed
    }

    /** What a pass that is cut off leaves behind. */
    ghost predicate Interruptible(o: PassOptions, g: Pass)
      reads this
    {
      && WellFormed() && g.startLog <= log && (g.ahead ==> ClockAhead(o.observedAt))
      && (g.closed && !g.behind ==> Closed())
    }

    /** Holds between two pages of a pass. */
    ghost predicate InPass(o: PassOptions, g: Pass, c: Scan)
      reads this
    {
      && Kept(o, g, c)
      && (c.cursor.None? ==> c.pages == 0 && !o.resumed && c.requestedCursors == {})
      && (c.cursor.Some? ==> 0 < c.cursor.value == g.p && (o.resumed || c.pages > 0))
      && (forall r :: r in c.requestedCursors ==> r.None? || (c.cursor.Some? && c.cursor.value < r.value))
      && (c.pages == 0 ==> g.rows == map[])
      && (if o.resumed || c.pages == 0 then scanHead == g.startHead
          else |g.startLog| <= g.head && (!g.behind ==> scanHead == g.head))
      && ((g.closed || !o.resumed) && c.cursor.Some? ==>
            HoleFree(log, events, g.p, if o.resumed then g.startHead else g.head))
      && (g.closed && o.incremental ==> ClosedFrom(log, g.before, 0))
      && (o.incremental ==>
            && !o.resumed && c.scannedIds == g.rows.Keys && (c.pages > 0 <==> g.p < g.head)
            && Window(log, c.boundary, c.boundaryComplete, g.p, g.head))
    }

    /** Holds once the page loop has ended; `from` is the oldest rank it looked at. */
    ghost predicate AfterPass(o: PassOptions, g: Pass, c: Scan, from: nat)
      reads this
    {
      && Kept(o, g, c)
      && (if o.resumed then scanHead == g.startHead else |g.startLog| <= g.head && (!g.behind ==> scanHead == g.head))
      && (g.closed || !(o.resumed || o.incremental) ==>
            HoleFree(log, events, 0, if o.resumed then g.startHead else g.head))
      && o.v in streams && streams[o.v] == Checkpoint(None, o.observedAt)
      && (o.incremental ==>
            && !o.resumed && from <= g.p && NamesRanks(log, c.scannedIds, from, g.head)
            && ReadDownTo(log, g.before, from, o.pageLimit, g.head)
            && (Covers(log, events, 0, g.head) <==> Covers(log, g.before, 0, from))
            && (c.boundary.Some? <==> from < g.head)
            && (c.boundary.Some? && HeightsAscend(log) && HeightsAgree(log, g.before) ==>
                  c.boundary.value == log[from].height && c.boundaryComplete == (from == 0)))
    }

    /** Holds when the page below rank `g.p` is the next to read and nothing of it is stored by this pass. */
    ghost predicate Ready(o: PassOptions, g: Pass, c: Scan, covered: nat)
      reads this
    {
      && Kept(o, g, c)
      && (g.closed || !o.resumed ==> HoleFree(log, events, g.p, covered))
      && (g.closed && o.incremental ==> ClosedFrom(log, g.before, 0))
      && (if o.resumed then covered == g.startHead == scanHead else covered == g.head && |g.startLog| <= g.head)
      && (o.incremental ==>
            && !o.resumed && c.scannedIds == g.rows.Keys && (g.p < g.head ==> 0 < g.p)
            && Window(log, c.boundary, c.boundaryComplete, g.p, g.head))
    }

    /** Holds when the pass has just stored the page that ends at rank `g.p`. */
    ghost predicate Stored(o: PassOptions, g: Pass, c: Scan, covered: nat)
      reads this
    {
      && Kept(o, g, c) && c.pages > 0 && (0 < g.p ==> g.p < g.head)
      && (g.closed || !o.resumed ==> HoleFree(log, events, g.p, covered))
      && (g.closed && o.incremental ==> ClosedFrom(log, g.before, 0))
      && (if o.resumed then covered == g.startHead == scanHead
          else covered == g.head && |g.startLog| <= g.head && (!g.behind ==> scanHead == g.head))
      && (o.incremental ==>
            && !o.resumed && c.scannedIds == g.rows.Keys && Window(log, c.boundary, c.boundaryComplete, g.p, g.head))
    }

    /** A stored page leads to the next page, or, when it is the last one, ends the loop. */
    lemma StoredLeadsOn(o: PassOptions, g: Pass, c: Scan, covered: nat, cursor: Option<nat>)
      requires Stored(o, g, c, covered) && Position(cursor) == g.p && (cursor.Some? ==> 0 < g.p)
      requires cursor.Some? ==> forall r :: r in c.requestedCursors ==> r.None? || g.p < r.value
      requires cursor.None? ==> o.v in streams && streams[o.v] == Checkpoint(None, o.observedAt)
      ensures if cursor.Some? then InPass(o, g, c.(cursor := cursor)) else AfterPass(o, g, c, 0)
    {
      if cursor.None? && o.incremental {
        CompleteIsCovered(log, g.before, events, covered);
      }
    }

    ghost predicate AtPage(o: PassOptions, g: Pass, c: Scan, page: LogPage, covered: nat)
      reads this
    {
      && Ready(o, g, c, covered) && page == PageBelow(log, g.p, o.pageLimit)
    }

    /** One page request and the awaits that follow it: the log may grow meanwhile. */
    method FetchPage(o: PassOptions, c: Scan, ghost g: Pass, ghost covered: nat) returns (page: LogPage, aborted: bool)
      requires Ready(o, g, c, covered)
      requires g.p == if c.cursor.Some? then c.cursor.value else |log|
      modifies this`log, this`cuts
      ensures unchanged(this`events) && unchanged(this`streams) && unchanged(this`scanHead)
      ensures AtPage(o, g, c, page, covered) && Interruptible(o, g)
      ensures cuts == old(cuts) + (if aborted then 1 else 0)
    {
      page := GetLogs(log, c.cursor, o.pageLimit);
      ghost var before := log;
      aborted := Await();
      GrowthKeepsRanks(before, log, events, g.before, g.rows, g.p, g.head);
      if g.closed || !o.resumed { GrowthKeepsHoleFree(before, log, events, g.p, covered); }
      if g.closed && o.incremental { GrowthKeepsHoleFree(before, log, g.before, 0, 0); }
    }

    /** A wholly known page ends an incremental pass. */
    method TakeOverlap(o: PassOptions, c: Scan, page: LogPage, ghost g: Pass, ghost covered: nat)
      returns (next: Scan, ghost from: nat)
      requires 1 <= o.pageLimit && AtPage(o, g, c, page, covered) && o.incremental && WhollyKnown(page, events)
      modifies this`streams, this`scanHead
      ensures unchanged(this`log) && unchanged(this`events) && unchanged(this`cuts)
      ensures AfterPass(o, g, next, from) && next.added == c.added && next.cursor == c.cursor
      ensures from == Bottom(g.p, o.pageLimit) && streams == old(streams)[o.v := Checkpoint(None, o.observedAt)]
    {
      from := Bottom(g.p, o.pageLimit);
      var pageBoundary := StopAtOverlap(o.v, page.results, o.observedAt, g.before, g.rows, from, g.p, g.head, covered);
      PageNamesRanks(log, from, g.p);
      NamesJoin(log, IdsOf(page.results), g.rows.Keys, from, g.p, g.head);
      OverlapPageWasKnown(log, g.before, g.rows, page.results, o.pageLimit, g.p, g.head);
      next := c.(
        pages := c.pages + 1,
        processed := c.processed + |page.results|,
        replayed := c.replayed + |page.results|,
        stoppedAtOverlap := true,
        scannedIds := c.scannedIds + IdsOf(page.results),
        boundary := Some(pageBoundary),
        boundaryComplete := |page.results| < o.pageLimit || page.prevCursor.None?);
    }

    /** Any other page is stored together with the cursor to the page below it. */
    method TakePage(o: PassOptions, c: Scan, page: LogPage, ghost g: Pass, ghost covered: nat)
      returns (next: Scan, ghost g': Pass)
      requires 1 <= o.pageLimit && AtPage(o, g, c, page, covered)
      modifies this`events, this`streams, this`scanHead
      ensures unchanged(this`log) && unchanged(this`cuts)
      ensures g' == g.(p := Bottom(g.p, o.pageLimit), rows := g'.rows) && Stored(o, g', next, covered)
      ensures streams == old(streams)[o.v := Checkpoint(page.prevCursor, o.observedAt)]
      ensures |events| - next.added == |old(events)| - c.added
      ensures next.cursor == c.cursor && next.requestedCursors == c.requestedCursors
    {
      hide RankRows, NamesRanks, HoleFree, ClosedFrom, Covers, DistinctIds, HeightsAscend, HeightsAgree, Backfilled,
           Known, PageRows, CountUnknown, Behind, UsableCheckpoint, WidenBoundary, IdsOf, Newest, ClockAhead,
           Closed, Window, TrackWindow;
      ghost var bottom := Bottom(g.p, o.pageLimit);
      var tracked := if o.incremental then TrackWindow(c, page, o.pageLimit) else c;
      ghost var names := g.rows.Keys + IdsOf(page.results);
      RanksInOrder(log, g.rows, g.p, g.head);
      WindowFollowsThePages(log, c, page, o.pageLimit, g.p, g.head, g.rows.Keys);
      var added, unknown := RowsOf(page.results, bottom, g.p);
      next := tracked.(
        pages := c.pages + 1,
        processed := c.processed + |page.results|,
        added := c.added + unknown,
        replayed := c.replayed + (|page.results| - unknown));
      PutPage(o.v, added, page.prevCursor, o.observedAt, g.before, g.rows, names, g.p, g.head, covered);
      g' := g.(p := bottom, rows := g.rows + added);
      assert Kept(o, g', next);
      hide Kept, WellFormed;
    }

    /** The step from one page to the next request, or from the start of a pass to its first. */
    lemma InPassIsReady(o: PassOptions, c: Scan, g: Pass)
      requires InPass(o, g, c)
      ensures var next := c.(requestedCursors := c.requestedCursors + {c.cursor});
        if c.cursor.Some? then Ready(o, g, next, if o.resumed then g.startHead else g.head) && g.p == c.cursor.value
        else Ready(o, g.(head := |log|, p := |log|), next, |log|) && next.requestedCursors == {None}
      ensures c.cursor !in c.requestedCursors
      ensures c.cursor.Some? ==> forall r :: r in c.requestedCursors + {c.cursor} ==> r.None? || g.p <= r.value
    {
      NothingAboveTheHead(log, events);
    }

    /** Stops at a wholly known page of an incremental pass; stores any other page. */
    method UsePage(o: PassOptions, c: Scan, page: LogPage, ghost g: Pass, ghost covered: nat)
      returns (next: Scan, progress: Progress, ghost g': Pass, ghost from: nat)
      requires 1 <= o.pageLimit && AtPage(o, g, c, page, covered)
      requires forall r :: r in c.requestedCursors ==> r.None? || g.p <= r.value
      modifies this`events, this`streams, this`scanHead
      ensures unchanged(this`log) && unchanged(this`cuts) && !progress.Aborted?
      ensures g' == g.(p := g'.p, rows := g'.rows)
      ensures progress.More? ==> InPass(o, g', next) && next.cursor.Some? && next.cursor.value < g.p
      ensures progress.Done? ==> AfterPass(o, g', next, from) && next.cursor == c.cursor
                                 && streams == old(streams)[o.v := Checkpoint(None, o.observedAt)]
      ensures |events| - next.added == |old(events)| - c.added
      ensures o.incremental && WhollyKnown(page, old(events)) ==>
        progress.Done? && events == old(events) && from == Bottom(g.p, o.pageLimit)
    {
      hide Kept, Stored, InPass, AfterPass, Backfilled, HoleFree, ClosedFrom, Covers, RankRows, NamesRanks,
           HeightsAscend, HeightsAgree, ReadDownTo, Behind, UsableCheckpoint, DistinctIds;
      if o.incremental && WhollyKnown(page, events) {
        g' := g;
        next, from := TakeOverlap(o, c, page, g, covered);
        progress := Done;
      } else {
        next, g' := TakePage(o, c, page, g, covered);
        from := 0;
        StoredLeadsOn(o, g', next, covered, page.prevCursor);
        if page.prevCursor.None? {
          progress := Done;
        } else {
          next := next.(cursor := page.prevCursor);
          progress := More;
        }
      }
    }

    /** One turn of the page loop. */
    method ScanPage(o: PassOptions, c: Scan, ghost g: Pass)
      returns (next: Scan, progress: Progress, ghost g': Pass, ghost from: nat)
      requires 1 <= o.pageLimit && InPass(o, g, c)
      modifies this
      ensures g' == g.(p := g'.p, head := g'.head, rows := g'.rows)
      ensures progress.More? ==> InPass(o, g', next) && next.cursor.Some?
                                 && (c.cursor.Some? ==> next.cursor.value < c.cursor.value)
      ensures progress.Done? ==> AfterPass(o, g', next, from)
      ensures progress.Aborted? ==> Interruptible(o, g)
      ensures !progress.More? ==> next.cursor == c.cursor
      ensures cuts == old(cuts) + (if progress.Aborted? then 1 else 0)
      ensures |events| - next.added == |old(events)| - c.added
    {
      hide InPass, AfterPass, Ready, AtPage, HoleFree, ClosedFrom, Covers, RankRows, Behind, UsableCheckpoint,
           Backfilled, DistinctIds, HeightsAscend, HeightsAgree, GetLogs;
      InPassIsReady(o, c, g);
      if c.cursor in c.requestedCursors {
        assert false;  // an honest log never repeats a cursor
      }
      next := c.(requestedCursors := c.requestedCursors + {c.cursor});
      ghost var covered := if c.cursor.None? then |log| else if o.resumed then g.startHead else g.head;
      g', from := if c.cursor.None? then g.(head := |log|, p := |log|) else g, 0;
      var page, aborted := FetchPage(o, next, g', covered);
      if aborted {
        progress := Aborted;
      } else {
        next, progress, g', from := UsePage(o, next, page, g', covered);
      }
    }

    /** The page loop. */
    method ScanLog(o: PassOptions, start: Scan, ghost begun: Pass)
      returns (c: Scan, progress: Progress, ghost g: Pass, ghost from: nat)
      requires 1 <= o.pageLimit && InPass(o, begun, start)
      modifies this
      ensures g == begun.(p := g.p, head := g.head, rows := g.rows)
      ensures progress.Done? ==> AfterPass(o, g, c, from)
      ensures progress.Aborted? ==> Interruptible(o, g)
      ensures cuts == old(cuts) + (if progress.Aborted? then 1 else 0)
      ensures !progress.More? && |events| - c.added == |old(events)| - start.added
    {
      hide InPass, AfterPass, Behind, UsableCheckpoint, Backfilled, DistinctIds;
      c, progress, g, from := start, More, begun, 0;
      while progress == More
        invariant progress.More? ==> InPass(o, g, c)
        invariant progress.Done? ==> AfterPass(o, g, c, from)
        invariant progress.Aborted? ==> Interruptible(o, g)
        invariant cuts == old(cuts) + (if progress.Aborted? then 1 else 0)
        invariant g == begun.(p := g.p, head := g.head, rows := g.rows)
        invariant |events| - c.added == |old(events)| - start.added
        decreases if c.cursor.None? then 1 else 0, Position(c.cursor), if progress.More? then 1 else 0
      {
        c, progress, g, from := ScanPage(o, c, g);
      }
    }

    /** The store after the marking step. */
    ghost function Marked(c: Scan): map<EventId, Row>
      reads this
    {
      if c.boundary.None? then events else MarkMissing(events, c.boundary.value, c.boundaryComplete, c.scannedIds)
    }

    /** What the marking does when the log stays as it was read. */
    lemma MarkingRepairs(o: PassOptions, c: Scan, g: Pass, from: nat)
      requires AfterPass(o, g, c, from)
      ensures o.incremental && g.head == |log| && HeightsAscend(log) && HeightsAgree(log, g.before) ==>
        && ReadDownTo(log, g.before, from, o.pageLimit, |log|)
        && RepairedAbove(log, g.before, Marked(c), from)
    {
      if o.incremental && g.head == |log| && HeightsAscend(log) && HeightsAgree(log, g.before) {
        hide MarkMissing, RepairedAbove, RankRows, Covers, HoleFree, Backfilled, NamesRanks;
        if c.boundary.Some? {
          RepairIsExact(log, g.before, g.rows, c.scannedIds, g.p, from);
        } else {
          NothingToRepair(log, g.before, g.rows, g.p);
        }
      }
    }

    /** Reconciles only after the whole incremental window has been observed. */
    method ReconcileWindow(o: PassOptions, c: Scan, ghost g: Pass, ghost from: nat) returns (aborted: bool)
      requires AfterPass(o, g, c, from)
      modifies this`log, this`events, this`cuts
      ensures unchanged(this`streams) && unchanged(this`scanHead)
      ensures cuts == old(cuts) + (if aborted then 1 else 0)
      ensures Interruptible(o, g)
      ensures g.closed || !(o.resumed || o.incremental) ==>
        HoleFree(log, events, 0, if o.resumed then g.startHead else g.head)
      ensures o.incremental ==> g.head <= |log| && from <= g.head
                                && (Covers(log, events, 0, g.head) <==> Covers(log, g.before, 0, from))
      ensures |events| == |old(events)|
      ensures !aborted && o.incremental && log == g.startLog && HeightsAscend(log) && HeightsAgree(log, g.before)
              ==> ReadDownTo(log, g.before, from, o.pageLimit, |log|) && RepairedAbove(log, g.before, events, from)
    {
      hide HoleFree, ClosedFrom, Covers, RankRows, NamesRanks, Behind, UsableCheckpoint, MarkMissing, RepairedAbove,
           ReadDownTo, Known, HeightsAscend, HeightsAgree, DistinctIds, Backfilled;
      aborted := false;
      MarkingRepairs(o, c, g, from);
      if o.incremental && c.boundary.Some? {
        ghost var before := log;
        aborted := Await();
        if g.closed { GrowthKeepsHoleFree(before, log, events, 0, g.head); }
        GrowthKeepsCovers(before, log, events, 0, g.head);
        GrowthKeepsCovers(before, log, g.before, 0, from);
        if aborted { return; }
        assert log == g.startLog ==> before == log;
        ghost var unmarked := events;
        Reconcile(c.boundary.value, c.boundaryComplete, c.scannedIds);
        SameKeysSameHoles(log, events, unmarked, 0, g.head);
      }
    }

    /** The state a pass starts from. */
    ghost function Begin(o: PassOptions, cursor: Option<nat>): (g: Pass)
      ensures g.closed == Closed() && g.ahead == ClockAhead(o.observedAt)
        && g.behind == Behind(streams, o.v, o.observedAt)
      ensures g.before == events && g.startLog == log && g.startHead == scanHead
      reads this
    {
      Pass(Closed(), ClockAhead(o.observedAt), Behind(streams, o.v, o.observedAt), events, log, scanHead,
           Position(cursor), Position(cursor), map[])
    }

    lemma PassBegins(o: PassOptions, c: Scan, g: Pass)
      requires WellFormed() && g == Begin(o, c.cursor)
      requires c == Scan(c.cursor, {}, 0, 0, 0, 0, false, {}, None, false)
      requires c.cursor == if UsableCheckpoint(streams, o.v).Some? then streams[o.v].cursor else None
      requires o.resumed == c.cursor.Some? && o.incremental == (UsableCheckpoint(streams, o.v).Some? && c.cursor.None?)
      ensures InPass(o, g, c)
    {
      NothingScanned(log, events, g.p);
      assert g.closed && UsableCheckpoint(streams, o.v).Some? ==> HoleFree(log, events, g.p, scanHead);
    }

    /**
     `syncManagerEvents`, from any well-formed state and under any clock. The pass may be cut off at
     every await; it scanned down from rank `head`, and `from` is the oldest rank that an incremental
     pass looked at.
     */
    method Sync(v: Vocabulary, pageLimit: int, observedAt: nat)
      returns (r: SyncOutcome, ghost from: nat, ghost head: nat)
      requires WellFormed()
      modifies this
      ensures WellFormed() && old(log) <= log && (old(ClockAhead(observedAt)) ==> ClockAhead(observedAt))
      ensures r.InvalidPageLimit? <==> !(1 <= pageLimit <= 100)
      ensures r.InvalidPageLimit? ==> unchanged(this)
      ensures r.Interrupted? <==> cuts > old(cuts)
      // crash-safe backfill
      ensures old(Closed()) && !old(Behind(streams, v, observedAt)) ==> Closed()
      ensures r.Finished? ==> v in streams && streams[v] == Checkpoint(None, observedAt)
      ensures r.Finished? && (old(Closed()) || !(r.result.resumed || r.result.incremental)) ==>
        HoleFree(log, events, 0, head)
      ensures r.Finished? ==> if r.result.resumed then head == old(scanHead) else |old(log)| <= head <= |log|
      ensures r.Finished? ==> scanHead == if old(Behind(streams, v, observedAt)) then old(scanHead) else head
      ensures r.Finished? ==> r.result.resumed == (UsableCheckpoint(old(streams), v).Some?
                                                   && old(streams)[v].cursor.Some?)
      ensures r.Finished? ==> r.result.incremental == (UsableCheckpoint(old(streams), v).Some?
                                                       && old(streams)[v].cursor.None?)
      // the early stop, whatever the earlier passes and the chain have done
      ensures r.Finished? && r.result.incremental ==>
        from <= head && (Covers(log, events, 0, head) <==> Covers(log, old(events), 0, from))
      // reorg repair
      ensures r.Finished? && r.result.incremental && log == old(log)
              && HeightsAscend(log) && HeightsAgree(log, old(events))
              ==> ReadDownTo(log, old(events), from, pageLimit, |log|) && RepairedAbove(log, old(events), events, from)
      // conservation
      ensures r.Finished? ==>
        && r.result.eventsProcessed == r.result.newEvents + r.result.replayedEvents
        && |events| == |old(events)| + r.result.newEvents
    {
      from, head := 0, scanHead;
      if !(1 <= pageLimit <= 100) {
        return InvalidPageLimit, from, head;
      }
      var checkpoint := UsableCheckpoint(streams, v);
      var cursor := if checkpoint.Some? then checkpoint.value.cursor else None;
      var o := PassOptions(v, pageLimit, observedAt, cursor.Some?, checkpoint.Some? && cursor.None?);
      var c := Scan(cursor, {}, 0, 0, 0, 0, false, {}, None, false);
      ghost var g := Begin(o, cursor);
      PassBegins(o, c, g);
      hide InPass, RankRows, NamesRanks, ClosedFrom, Covers, HeightsAscend, HeightsAgree, RepairedAbove, ReadDownTo,
           Known, DistinctIds, Begin, HoleFree, Window;
      var progress;
      c, progress, g, from := ScanLog(o, c, g);
      if progress == Aborted {
        return Interrupted, from, head;
      }
      head := if o.resumed then g.startHead else g.head;
      var aborted := ReconcileWindow(o, c, g, from);
      if aborted {
        return Interrupted, from, head;
      }
      r := Finished(SyncResult(o.resumed, o.incremental, c.pages, c.processed, c.added, c.replayed,
                               c.stoppedAtOverlap));
    }

    /**
     Any number of passes, under either vocabulary and each cut off anywhere, keep the invariant as
     long as no pass had a clock behind the other vocabulary's checkpoint. Passes in time order never do.
     */
    method RunPasses(passes: seq<(Vocabulary, int, nat)>) returns (ghost wentBack: bool)
      requires WellFormed()
      modifies this
      ensures WellFormed() && old(log) <= log
      ensures InTimeOrder(passes) && (forall k :: 0 <= k < |passes| ==> old(ClockAhead(passes[k].2))) ==> !wentBack
      ensures old(Closed()) && !wentBack ==> Closed()
      ensures old(Closed()) && !wentBack ==>
        forall v :: UsableCheckpoint(streams, v).Some? && streams[v].cursor.None? ==> HoleFree(log, events, 0, scanHead)
    {
      wentBack := false;
      ghost var ordered := InTimeOrder(passes) && forall k :: 0 <= k < |passes| ==> ClockAhead(passes[k].2);
      for n := 0 to |passes|
        invariant WellFormed() && old(log) <= log
        invariant ordered ==> !wentBack && forall k :: n <= k < |passes| ==> ClockAhead(passes[k].2)
        invariant old(Closed()) && !wentBack ==> Closed()
      {
        wentBack := wentBack || Behind(streams, passes[n].0, passes[n].2);
        ghost var from, head;
        var r;
        r, from, head := Sync(passes[n].0, passes[n].1, passes[n].2);
        if ordered {
          forall k | n + 1 <= k < |passes| ensures ClockAhead(passes[k].2) {
            assert passes[n].2 <= passes[k].2;
          }
        }
      }
      if Closed() {
        assert forall v :: UsableCheckpoint(streams, v).Some? && streams[v].cursor.None? ==>
          HoleFree(log, events, 0, scanHead);
      }
    }
  }

  // ---------------------------------------------------------------------------------------------
  // Where the assumptions are needed
  // ---------------------------------------------------------------------------------------------

  /** A stored height that no longer agrees with the log costs an event of the log its flag. */
  lemma StaleHeightIsMarkedMissing()
    ensures exists log: seq<LogEvent>, events: map<EventId, Row> ::
      && DistinctIds(log) && HeightsAscend(log) && |log| == 2 && Known(log, events, 0)
      && events[log[0].id].canonical
      && !MarkMissing(events, log[1].height, false, IdsOf(Newest(log, 1, 2)))[log[0].id].canonical
  {
    var e, f := EventId("e", 0), EventId("f", 0);
    assert e.txId[0] == 'e' && f.txId[0] == 'f';
    var log := [LogEvent(e, 90), LogEvent(f, 95)];
    var events := map[e := Row(100, true), f := Row(95, true)];
    assert Newest(log, 1, 2)[0] == log[1];
    assert Known(log, events, 0);
  }

  const A := EventId("a", 0)
  const B := EventId("b", 0)
  const C := EventId("c", 0)
  const X := EventId("x", 0)

  lemma FourIds()
    ensures A != B && A != C && A != X && B != C && B != X && C != X
  {
    assert A.txId[0] == 'a' && B.txId[0] == 'b' && C.txId[0] == 'c' && X.txId[0] == 'x';
  }

  lemma AddedRanks(log: seq<LogEvent>, before: map<EventId, Row>, rows: map<EventId, Row>, p: nat, head: nat)
    requires RankRows(log, rows, p, head)
    ensures forall i :: p <= i < head ==> log[i].id in before + rows
    ensures forall i :: 0 <= i < p ==> (log[i].id in before + rows <==> log[i].id in before)
    ensures forall id :: id in before + rows && id !in before ==> InLog(log, id)
  {
  }

  /** The first page of a pass, `limit` events from the head, is stored under `v`. */
  method StoreFirstPage(s: ManagerEventSync, v: Vocabulary, limit: nat, observedAt: nat)
    requires s.WellFormed() && 1 <= limit
    modifies s
    ensures s.WellFormed() && s.log == old(s.log)
    ensures s.streams == old(s.streams)[v := Checkpoint(PageBelow(s.log, |s.log|, limit).prevCursor, observedAt)]
    ensures forall i :: Bottom(|s.log|, limit) <= i < |s.log| ==> s.log[i].id in s.events
    ensures forall i :: 0 <= i < Bottom(|s.log|, limit) ==> (s.log[i].id in s.events <==> s.log[i].id in old(s.events))
    ensures forall id :: id in old(s.events) ==> id in s.events
    ensures forall id :: id in s.events && id !in old(s.events) ==> InLog(s.log, id)
    ensures !Behind(old(s.streams), v, observedAt) ==> s.Closed()
  {
    hide HoleFree, NamesRanks, RankRows, Backfilled, UsableCheckpoint, DistinctIds, PageRows, Newest;
    var page := GetLogs(s.log, None, limit);
    ghost var bottom := Bottom(|s.log|, limit);
    PageRowsAreRankRows(s.log, bottom, |s.log|);
    NothingAboveTheHead(s.log, s.events);
    RanksInOrder(s.log, PageRows(page.results), bottom, |s.log|);
    AddedRanks(s.log, s.events, PageRows(page.results), bottom, |s.log|);
    assert s.events == s.events + map[];
    s.PutPage(v, PageRows(page.results), page.prevCursor, observedAt, s.events, map[], PageRows(page.results).Keys,
              |s.log|, |s.log|, |s.log|);
  }

  /** The first page of an incremental pass, when the store knows all of it. */
  method MeetKnownPage(s: ManagerEventSync, v: Vocabulary, limit: nat, observedAt: nat) returns (progress: Progress)
    requires s.WellFormed() && 1 <= limit && WhollyKnown(PageBelow(s.log, |s.log|, limit), s.events)
    modifies s
    ensures progress.Done? && s.log == old(s.log) && s.events == old(s.events)
    ensures s.streams == old(s.streams)[v := Checkpoint(None, observedAt)]
  {
    var o := PassOptions(v, limit, observedAt, false, true);
    var c := Scan(None, {}, 0, 0, 0, 0, false, {}, None, false);
    ghost var g := s.Begin(o, None).(closed := false, p := |s.log|, head := |s.log|);
    NothingAboveTheHead(s.log, s.events);
    hide HoleFree, NamesRanks, RankRows, Backfilled, UsableCheckpoint, DistinctIds, HeightsAscend, HeightsAgree,
         ReadDownTo, Covers;
    var page := GetLogs(s.log, None, limit);
    ghost var from;
    c, progress, g, from := s.UsePage(o, c, page, g, |s.log|);
  }

  /**
   A reorganization puts `x` back below two stored events. The next incremental pass finds its first
   page wholly known and ends there, with a usable null cursor and without `x`.
   */
  method EarlyStopHidesAReinsertedEvent()
    returns (s: ManagerEventSync, progress: Progress, ghost earlier: seq<LogEvent>)
    ensures earlier == [LogEvent(A, 1), LogEvent(B, 2), LogEvent(C, 3)]
    ensures HoleFree(earlier, s.events, 0, 3)
    ensures s.log == [LogEvent(A, 1), LogEvent(X, 2), LogEvent(B, 3), LogEvent(C, 4)] && DistinctIds(s.log)
    ensures progress.Done? && UsableCheckpoint(s.streams, GenericV1) == Some(Checkpoint(None, 8))
    ensures A in s.events && B in s.events && C in s.events && X !in s.events
  {
    hide Backfilled;
    FourIds();
    var first := [LogEvent(A, 1), LogEvent(B, 2), LogEvent(C, 3)];
    earlier := first;
    s := new ManagerEventSync(first);
    StoreFirstPage(s, GenericV1, 100, 7);
    assert s.Closed() && forall i :: 0 <= i < 3 ==> s.log[i].id in s.events;
    assert s.log[0].id == A && s.log[1].id == B && s.log[2].id == C && !InLog(s.log, X);
    s.log := [LogEvent(A, 1), LogEvent(X, 2), LogEvent(B, 3), LogEvent(C, 4)];
    var page := PageBelow(s.log, 4, 2);
    assert page.results == [s.log[3], s.log[2]];
    progress := MeetKnownPage(s, GenericV1, 2, 8);
  }

  /**
   The whole log is stored under one vocabulary; the log grows; then a pass under the other one, whose
   clock is behind, is cut off after its first page. The old null cursor is still trusted, above a hole.
   */
  method ClockGoingBackKeepsAStaleClaim() returns (s: ManagerEventSync)
    ensures s.log == [LogEvent(A, 1), LogEvent(B, 2), LogEvent(C, 3)] && DistinctIds(s.log)
    ensures UsableCheckpoint(s.streams, GenericV1) == Some(Checkpoint(None, 5))
    ensures A in s.events && C in s.events && B !in s.events && !s.Closed()
  {
    FourIds();
    s := new ManagerEventSync([LogEvent(A, 1)]);
    StoreFirstPage(s, GenericV1, 1, 5);
    assert s.Closed() && s.log[0].id in s.events && !InLog(s.log, B);
    s.log := [LogEvent(A, 1), LogEvent(B, 2), LogEvent(C, 3)];
    StoreFirstPage(s, ReferenceManagerV1, 1, 4);
    assert s.log[2].id in s.events && s.log[1].id !in s.events;
    assert Known(s.log, s.events, 2) && !Known(s.log, s.events, 1) && !ClosedFrom(s.log, s.events, 0);
  }
}
