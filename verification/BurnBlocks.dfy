/**
 The display window over recent Bitcoin blocks: a full read of the newest 200 rows, and the
 30-row refresh that splices onto the cached window between hourly full reads.
 */
module BurnBlocks {
  import opened Sequences
  import opened Wrappers

  const WINDOW := 200
  const RECENT := 30
  const PAGE := 30
  const RECONCILE_INTERVAL_MS := 60 * 60_000

  datatype Block = Block(height: nat, time: nat)
  datatype Page = Page(limit: nat, offset: nat, total: nat, results: seq<Block>)
  datatype ReadError =
    | InvalidLimit | Unavailable | MismatchedPagination | TooManyRows
    | TotalChanged | RepeatedBlock | EndedEarly | NotOrdered

  /** What the server answers to request number `n` for `(offset, limit)`; None is a failed fetch. */
  type Server = (nat, nat, nat) -> Option<Page>

  function Min(a: nat, b: nat): nat {
    if a < b then a else b
  }

  ghost predicate Descending(s: seq<Block>) {
    forall i, j :: 0 <= i < j < |s| ==> s[i].height > s[j].height
  }

  ghost predicate DistinctHeights(s: seq<Block>) {
    forall i, j :: 0 <= i < j < |s| ==> s[i].height != s[j].height
  }

  // ---------------------------------------------------------------------------------------------
  // The paged read
  // ---------------------------------------------------------------------------------------------

  /** The page a server holding `chain`, newest first, gives. */
  function HonestPage(chain: seq<Block>, offset: nat, limit: nat): Page {
    Page(limit, offset, |chain|, if offset >= |chain| then [] else Take(chain[offset..], limit))
  }

  ghost predicate HonestOrDown(serve: Server, chain: seq<Block>) {
    forall n, offset, limit ::
      serve(n, offset, limit).None? || serve(n, offset, limit) == Some(HonestPage(chain, offset, limit))
  }

  ghost predicate NeverDown(serve: Server) {
    forall n, offset, limit :: serve(n, offset, limit).Some?
  }

  function FullRead(chain: seq<Block>, limit: nat): Page {
    Page(limit, 0, |chain|, Take(chain, limit))
  }

  function PageLimit(limit: nat, offset: nat): nat {
    if offset <= limit then Min(PAGE, limit - offset) else 0
  }

  /** The row at position i is the one the server put there, on a page that echoed its request. */
  ghost predicate ServedRow(serve: Server, start: nat, limit: nat, total: nat, i: nat, row: Block) {
    var offset := PAGE * (i / PAGE);
    var answer := serve(start + i / PAGE, offset, PageLimit(limit, offset));
    && answer.Some?
    && answer.value.offset == offset
    && answer.value.limit == PageLimit(limit, offset)
    && answer.value.total == total
    && i % PAGE < |answer.value.results| <= answer.value.limit
    && answer.value.results[i % PAGE] == row
  }

  function Heights(s: seq<Block>): set<nat> {
    set i | 0 <= i < |s| :: s[i].height
  }

  method AppendRows(results: seq<Block>, seen: set<nat>, rows: seq<Block>)
    returns (repeated: bool, all: seq<Block>, heights: set<nat>)
    requires DistinctHeights(results) && seen == Heights(results)
    ensures repeated <==> !DistinctHeights(results + rows)
    ensures !repeated ==> all == results + rows && heights == Heights(all)
  {
    all, heights := results, seen;
    for k := 0 to |rows|
      invariant all == results + rows[..k] && heights == Heights(all) && DistinctHeights(all)
    {
      var block := rows[k];
      if block.height in heights {
        var i :| 0 <= i < |all| && all[i].height == block.height;
        assert (results + rows)[i] == all[i] && (results + rows)[|all|] == block;
        return true, all, heights;
      }
      ghost var before := all;
      all := all + [block];
      heights := heights + {block.height};
      assert Heights(all) == heights by {
        assert forall i :: 0 <= i < |before| ==> all[i] == before[i];
        assert all[|before|] == block;
      }
    }
    assert rows[..|rows|] == rows;
    repeated := false;
  }

  /** One request with the checks its answer must pass. */
  method FetchPage(serve: Server, n: nat, offset: nat, pageLimit: nat, expectedTotal: Option<nat>,
                   ghost chain: seq<Block>)
    returns (r: Result<Page, ReadError>)
    ensures r.Ok? ==>
      && serve(n, offset, pageLimit) == Some(r.value)
      && r.value.limit == pageLimit && r.value.offset == offset && |r.value.results| <= pageLimit
      && (expectedTotal.Some? ==> r.value.total == expectedTotal.value)
    ensures HonestOrDown(serve, chain) && r.Ok? ==> r.value == HonestPage(chain, offset, pageLimit)
    ensures HonestOrDown(serve, chain) && NeverDown(serve) ==>
      (expectedTotal.Some? ==> expectedTotal.value == |chain|) ==> r.Ok?
    ensures r != Err(InvalidLimit) && r != Err(NotOrdered)
  {
    var answer := serve(n, offset, pageLimit);
    if answer.None? {
      return Err(Unavailable);
    }
    var page := answer.value;
    if page.limit != pageLimit || page.offset != offset {
      return Err(MismatchedPagination);
    }
    if |page.results| > pageLimit {
      return Err(TooManyRows);
    }
    if expectedTotal.Some? && page.total != expectedTotal.value {
      return Err(TotalChanged);
    }
    r := Ok(page);
  }

  ghost predicate AllServed(serve: Server, start: nat, limit: nat, total: nat, rows: seq<Block>) {
    forall i :: 0 <= i < |rows| ==> ServedRow(serve, start, limit, total, i, rows[i])
  }

  lemma ServedPageExtends(serve: Server, start: nat, limit: nat, total: nat, rows: seq<Block>, k: nat, page: Page)
    requires AllServed(serve, start, limit, total, rows) && |rows| == PAGE * k < limit
    requires serve(start + k, |rows|, PageLimit(limit, |rows|)) == Some(page)
    requires page.offset == |rows| && page.limit == PageLimit(limit, |rows|) && page.total == total
    requires |page.results| <= page.limit
    ensures AllServed(serve, start, limit, total, rows + page.results)
  {
    forall i | |rows| <= i < |rows| + |page.results|
      ensures ServedRow(serve, start, limit, total, i, (rows + page.results)[i])
    {
      assert i / PAGE == k && i % PAGE == i - |rows|;
    }
  }

  lemma HonestPageExtends(chain: seq<Block>, offset: nat, pageLimit: nat)
    requires offset <= |chain|
    ensures Take(chain, offset) + HonestPage(chain, offset, pageLimit).results
         == Take(chain, offset + |HonestPage(chain, offset, pageLimit).results|)
  {
  }

  /** What the rows read so far say about the answers given so far, and about an honest chain. */
  ghost predicate ReadSoFar(serve: Server, start: nat, limit: nat, chain: seq<Block>, results: seq<Block>,
                            total: Option<nat>)
  {
    && DistinctHeights(results)
    && (total.None? ==> results == [])
    && (total.Some? ==> AllServed(serve, start, limit, total.value, results))
    && (HonestOrDown(serve, chain) ==>
          results == Take(chain, |results|) && |results| <= |chain| && (total.Some? ==> total.value == |chain|))
  }

  lemma StartsEmpty(serve: Server, start: nat, limit: nat, chain: seq<Block>)
    ensures Heights([]) == {}
    ensures ReadSoFar(serve, start, limit, chain, [], None)
    ensures forall total :: AllServed(serve, start, limit, total, [])
  {
  }

  lemma HonestReadingGoesOn(chain: seq<Block>, results: seq<Block>, page: Page)
    requires results == Take(chain, |results|) && |results| <= |chain|
      && page == HonestPage(chain, |results|, page.limit)
    ensures var next := results + page.results;
      && next == Take(chain, |next|) && |next| <= |chain| && page.total == |chain|
      && (Descending(chain) ==> DistinctHeights(next))
      && (|page.results| < page.limit || |next| >= page.total ==> |next| == Min(|results| + page.limit, |chain|))
  {
    HonestPageExtends(chain, |results|, page.limit);
  }

  lemma ReadingGoesOn(serve: Server, start: nat, limit: nat, chain: seq<Block>, results: seq<Block>, total: Option<nat>,
                      k: nat, page: Page)
    requires ReadSoFar(serve, start, limit, chain, results, total) && |results| == PAGE * k < limit
    requires serve(start + k, |results|, PageLimit(limit, |results|)) == Some(page)
    requires page.offset == |results| && page.limit == PageLimit(limit, |results|) && |page.results| <= page.limit
    requires total.Some? ==> total.value == page.total
    requires HonestOrDown(serve, chain) ==> page == HonestPage(chain, |results|, page.limit)
    ensures var next := results + page.results;
      && (DistinctHeights(next) ==> ReadSoFar(serve, start, limit, chain, next, Some(page.total)))
      && (HonestOrDown(serve, chain) ==>
            && (Descending(chain) ==> DistinctHeights(next))
            && (|page.results| < page.limit || |next| >= page.total ==> |next| == Min(|results| + page.limit, |chain|)))
  {
    StartsEmpty(serve, start, limit, chain);
    hide HonestOrDown, AllServed, DistinctHeights, Descending, HonestPage, Heights, Take;
    ServedPageExtends(serve, start, limit, page.total, results, k, page);
    if HonestOrDown(serve, chain) {
      HonestReadingGoesOn(chain, results, page);
    }
  }

  /**
   `getBurnBlocks` against any server: what it accepts has no gap, repeat or mixed total, and an
   honest server is read exactly.
   */
  method GetBurnBlocks(serve: Server, start: nat, limit: int, ghost chain: seq<Block>)
    returns (r: Result<Page, ReadError>, next: nat)
    ensures start <= next <= start + (WINDOW + PAGE - 1) / PAGE
    ensures r == Err(InvalidLimit) <==> !(2 <= limit <= WINDOW)
    ensures r.Ok? ==>
      && r.value.limit == limit && r.value.offset == 0
      && |r.value.results| == Min(limit, r.value.total)
      && DistinctHeights(r.value.results)
      && AllServed(serve, start, limit, r.value.total, r.value.results)
    ensures HonestOrDown(serve, chain) && r.Ok? ==> r.value == FullRead(chain, limit)
    ensures HonestOrDown(serve, chain) && NeverDown(serve) && Descending(chain) && 2 <= limit <= WINDOW ==> r.Ok?
    ensures r != Err(NotOrdered)
  {
    hide AllServed, DistinctHeights, Heights, HonestOrDown;
    next := start;
    if !(2 <= limit <= WINDOW) {
      return Err(InvalidLimit), next;
    }
    StartsEmpty(serve, start, limit, chain);
    var results: seq<Block> := [];
    var seen: set<nat> := {};
    var expectedTotal: Option<nat> := None;
    var ended := false;
    while |results| < limit && !ended
      invariant |results| <= limit && seen == Heights(results)
      invariant !ended ==> |results| == Min(limit, PAGE * (next - start))
      invariant next >= start && PAGE * (next - start) < limit + PAGE
      invariant expectedTotal.None? ==> !ended && next == start
      invariant ReadSoFar(serve, start, limit, chain, results, expectedTotal)
      invariant HonestOrDown(serve, chain) && ended ==> |results| == Min(limit, |chain|)
      decreases limit + PAGE - PAGE * (next - start), !ended
    {
      var offset := |results|;
      var pageLimit := Min(PAGE, limit - offset);
      var answer := FetchPage(serve, next, offset, pageLimit, expectedTotal, chain);
      next := next + 1;
      if answer.Err? {
        return answer, next;
      }
      var page := answer.value;
      ghost var total := expectedTotal;
      expectedTotal := Some(page.total);
      var repeated, all, heights := AppendRows(results, seen, page.results);
      ReadingGoesOn(serve, start, limit, chain, results, total, next - 1 - start, page);
      if repeated {
        return Err(RepeatedBlock), next;
      }
      results, seen := all, heights;
      ended := |page.results| < pageLimit || |results| >= page.total;
    }
    var total := if expectedTotal.Some? then expectedTotal.value else 0;
    if |results| != Min(limit, total) {
      return Err(EndedEarly), next;
    }
    r := Ok(Page(limit, 0, total, results));
  }

  // ---------------------------------------------------------------------------------------------
  // The splice
  // ---------------------------------------------------------------------------------------------

  /** `ordered`: each row is below its predecessor. */
  predicate Ordered(s: seq<Block>) {
    forall i :: 0 < i < |s| ==> s[i].height < s[i - 1].height
  }

  lemma {:induction false} OrderedIsDescending(s: seq<Block>)
    ensures Ordered(s) <==> Descending(s)
  {
    if Ordered(s) && |s| > 0 {
      OrderedIsDescending(s[..|s| - 1]);
      var last := |s| - 1;
      forall i | 0 <= i < last ensures s[i].height > s[last].height {
        assert s[..last][i].height >= s[..last][last - 1].height;
      }
      forall i, j | 0 <= i < j < |s| ensures s[i].height > s[j].height {
        assert j < last ==> s[..last][i].height > s[..last][j].height;
      }
    }
  }

  /** `new Map` over the cached rows. */
  function TimeByHeight(s: seq<Block>): map<nat, nat> {
    if |s| == 0 then map[] else TimeByHeight(s[..|s| - 1])[s[|s| - 1].height := s[|s| - 1].time]
  }

  function Overlap(rows: seq<Block>, known: map<nat, nat>): seq<Block> {
    if |rows| == 0 then [] else (if rows[0].height in known then [rows[0]] else []) + Overlap(rows[1..], known)
  }

  function AtLeast(s: seq<Block>, height: nat): seq<Block> {
    if |s| == 0 then [] else (if s[0].height >= height then [s[0]] else []) + AtLeast(s[1..], height)
  }

  function Below(s: seq<Block>, height: nat): seq<Block> {
    if |s| == 0 then [] else (if s[0].height < height then [s[0]] else []) + Below(s[1..], height)
  }

  predicate Agrees(overlap: seq<Block>, known: map<nat, nat>) {
    forall i :: 0 <= i < |overlap| ==> overlap[i].height in known && known[overlap[i].height] == overlap[i].time
  }

  /** The refreshed window, or None when the recent rows do not extend the cached ones. */
  function Splice(previous: Page, recent: Page): Option<Page> {
    if |recent.results| == 0 then None
    else
      var known := TimeByHeight(previous.results);
      var overlap := Overlap(recent.results, known);
      var oldest := recent.results[|recent.results| - 1].height;
      var expected := AtLeast(previous.results, oldest);
      var results := Take(recent.results + Below(previous.results, oldest), WINDOW);
      if && Ordered(recent.results)
         && |overlap| > 0
         && Agrees(overlap, known)
         && |overlap| == |expected|
         && recent.total >= previous.total
         && recent.results[0].height >= (if |previous.results| > 0 then previous.results[0].height else 0)
         && |results| == Min(WINDOW, recent.total)
      then Some(Page(WINDOW, 0, recent.total, results))
      else None
  }

  lemma {:induction false} TimeByHeightIsExact(s: seq<Block>)
    requires DistinctHeights(s)
    ensures forall h, t :: h in TimeByHeight(s) && TimeByHeight(s)[h] == t <==> Block(h, t) in s
  {
    if |s| > 0 {
      var init, last := s[..|s| - 1], s[|s| - 1];
      TimeByHeightIsExact(init);
      assert s == init + [last];
      forall b | b in init ensures b.height != last.height {
        var i :| 0 <= i < |init| && init[i] == b;
        assert s[i] == b;
      }
    }
  }

  lemma {:induction false} OverlapFacts(rows: seq<Block>, known: map<nat, nat>)
    requires DistinctHeights(rows)
    ensures DistinctHeights(Overlap(rows, known))
    ensures forall b :: b in Overlap(rows, known) <==> b in rows && b.height in known
  {
    if |rows| > 0 {
      var tail := rows[1..];
      OverlapFacts(tail, known);
      var rest := Overlap(tail, known);
      assert rows == [rows[0]] + tail;
      forall i | 0 <= i < |rest| ensures rest[i].height != rows[0].height {
        assert rest[i] in tail;
        var j :| 0 <= j < |tail| && tail[j] == rest[i];
        assert rows[j + 1] == rest[i];
      }
    }
  }

  lemma {:induction false} DividesAt(s: seq<Block>, height: nat, k: nat)
    requires k <= |s|
    requires forall i :: 0 <= i < |s| ==> (s[i].height >= height <==> i < k)
    ensures AtLeast(s, height) == s[..k] && Below(s, height) == s[k..]
  {
    if |s| > 0 {
      var tail := s[1..];
      DividesAt(tail, height, if k > 0 then k - 1 else 0);
      assert k > 0 ==> s[..k] == [s[0]] + tail[..k - 1];
      assert k == 0 ==> s == [s[0]] + tail;
    }
  }

  /** A descending list divides at a height into a prefix and the rest. */
  lemma DividesAtHeight(s: seq<Block>, height: nat)
    requires Descending(s)
    ensures var k := |AtLeast(s, height)|;
      && k <= |s| && AtLeast(s, height) == s[..k] && Below(s, height) == s[k..]
      && forall i :: 0 <= i < |s| ==> (s[i].height >= height <==> i < k)
  {
    var k := 0;
    while k < |s| && s[k].height >= height
      invariant k <= |s| && forall i :: 0 <= i < k ==> s[i].height >= height
    {
      k := k + 1;
    }
    DividesAt(s, height, k);
  }

  lemma {:induction false} HeightsCount(s: seq<Block>)
    requires DistinctHeights(s)
    ensures |Heights(s)| == |s|
  {
    if |s| > 0 {
      var init, last := s[..|s| - 1], s[|s| - 1];
      HeightsCount(init);
      assert Heights(s) == Heights(init) + {last.height} by {
        assert forall i :: 0 <= i < |init| ==> s[i] == init[i];
      }
    } else {
      assert Heights(s) == {};
    }
  }

  /** Counting: a list with as many rows as one it is drawn from holds them all. */
  lemma SubsetBySize(drawn: seq<Block>, rows: seq<Block>)
    requires DistinctHeights(drawn) && DistinctHeights(rows) && |drawn| == |rows|
    requires forall b :: b in drawn ==> b in rows
    ensures forall b :: b in rows ==> b in drawn
  {
    HeightsCount(drawn);
    HeightsCount(rows);
    var a, all := Heights(drawn), Heights(rows);
    forall h | h in a ensures h in all {
      var i :| 0 <= i < |drawn| && drawn[i].height == h;
      assert drawn[i] in drawn;
      var j :| 0 <= j < |rows| && rows[j] == drawn[i];
    }
    assert all == a + (all - a) && |all| == |a| + |all - a|;
    forall b | b in rows ensures b in drawn {
      var j :| 0 <= j < |rows| && rows[j] == b;
      assert b.height in all && b.height in a;
      var i :| 0 <= i < |drawn| && drawn[i].height == b.height;
      assert drawn[i] in drawn;
      var k :| 0 <= k < |rows| && rows[k] == drawn[i];
      assert k == j;
    }
  }

  /**
   Recent rows that agree with the cached window wherever both have a height, in the number
   expected, contain every cached row from their oldest height up.
   */
  lemma CountingOverlap(previous: seq<Block>, recent: seq<Block>, oldest: nat)
    requires Descending(previous) && Descending(recent)
    requires forall i :: 0 <= i < |recent| ==> recent[i].height >= oldest
    requires var known := TimeByHeight(previous); var overlap := Overlap(recent, known);
      && Agrees(overlap, known)
      && |overlap| == |AtLeast(previous, oldest)|
    ensures forall b :: b in AtLeast(previous, oldest) ==> b in recent
  {
    var overlap, expected := Overlap(recent, TimeByHeight(previous)), AtLeast(previous, oldest);
    TimeByHeightIsExact(previous);
    OverlapFacts(recent, TimeByHeight(previous));
    DividesAtHeight(previous, oldest);
    forall b | b in overlap ensures b in expected {
      var i :| 0 <= i < |overlap| && overlap[i] == b;
      assert Block(b.height, b.time) in previous;
      var j :| 0 <= j < |previous| && previous[j] == b;
      assert expected[j] == b;
    }
    SubsetBySize(overlap, expected);
  }

  /** A cached row survives unless the new window is full and starts above it. */
  ghost predicate KeptUnlessPushedOut(b: Block, results: seq<Block>) {
    b in results || (|results| == WINDOW && b.height < results[WINDOW - 1].height)
  }

  /**
   Whatever the server answered, an accepted splice is strictly descending, as long as the total
   allows, starts no lower than before and keeps every cached row that still fits.
   */
  lemma SpliceKeepsTheWindow(previous: Page, recent: Page)
    requires Descending(previous.results)
    requires Splice(previous, recent).Some?
    ensures var next := Splice(previous, recent).value;
      && Descending(next.results)
      && |next.results| == Min(WINDOW, recent.total)
      && next.total == recent.total >= previous.total
      && (|previous.results| > 0 ==> next.results[0].height >= previous.results[0].height)
      && (forall b :: b in previous.results ==> KeptUnlessPushedOut(b, next.results))
      && (forall b :: b in next.results ==> b in recent.results || b in previous.results)
  {
    var oldest := recent.results[|recent.results| - 1].height;
    var below := Below(previous.results, oldest);
    OrderedIsDescending(recent.results);
    JoinAtHeight(previous.results, recent.results);
    CountingOverlap(previous.results, recent.results, oldest);
    TruncationKeepsTheTop(previous.results, recent.results + below);
  }

  lemma RestIsBelow(s: seq<Block>, height: nat)
    requires Descending(s)
    ensures s == AtLeast(s, height) + Below(s, height) && Descending(Below(s, height))
    ensures forall j :: 0 <= j < |Below(s, height)| ==> Below(s, height)[j].height < height
  {
    DividesAtHeight(s, height);
    hide AtLeast, Below, Descending;
    var k := |AtLeast(s, height)|;
    SuffixDescends(s, k);
    assert s == s[..k] + s[k..];
  }

  lemma SuffixDescends(s: seq<Block>, k: nat)
    requires Descending(s) && k <= |s|
    ensures Descending(s[k..])
  {
  }

  /** Rows down to a height, continued by the older rows below it. */
  lemma JoinAtHeight(previous: seq<Block>, recent: seq<Block>)
    requires Descending(previous) && Descending(recent) && |recent| > 0
    ensures var oldest := recent[|recent| - 1].height; var below := Below(previous, oldest);
      && Descending(recent + below)
      && previous == AtLeast(previous, oldest) + below
  {
    var oldest := recent[|recent| - 1].height;
    hide AtLeast, Below, Descending;
    RestIsBelow(previous, oldest);
    JoinDescends(recent, Below(previous, oldest));
  }

  lemma JoinDescends(upper: seq<Block>, lower: seq<Block>)
    requires Descending(upper) && Descending(lower) && |upper| > 0
    requires forall j :: 0 <= j < |lower| ==> lower[j].height < upper[|upper| - 1].height
    ensures Descending(upper + lower)
  {
    var whole := upper + lower;
    forall i, j | 0 <= i < j < |whole| ensures whole[i].height > whole[j].height {
      assert i < |upper| ==> whole[i].height >= upper[|upper| - 1].height;
      assert j >= |upper| ==> whole[j] == lower[j - |upper|];
    }
  }

  lemma TruncationKeepsTheTop(rows: seq<Block>, whole: seq<Block>)
    requires Descending(whole) && forall b :: b in rows ==> b in whole
    ensures forall b :: b in rows ==> KeptUnlessPushedOut(b, Take(whole, WINDOW))
  {
    forall b | b in rows ensures KeptUnlessPushedOut(b, Take(whole, WINDOW)) {
      var i :| 0 <= i < |whole| && whole[i] == b;
      assert i < |Take(whole, WINDOW)| ==> Take(whole, WINDOW)[i] == b;
    }
  }

  // Against an unchanging history that only gains higher blocks ---------------------------------

  /** The cached window is the newest part of what the chain was when it had `total` rows. */
  ghost predicate WindowOf(cached: Page, chain: seq<Block>) {
    && cached.limit == WINDOW && cached.offset == 0
    && cached.total <= |chain|
    && cached.results == Take(chain[|chain| - cached.total..], WINDOW)
  }

  lemma SliceBelow(chain: seq<Block>, from: nat, to: nat, cut: nat)
    requires Descending(chain) && from <= to <= |chain| && 0 < cut <= |chain| && from < cut
    ensures Below(chain[from..to], chain[cut - 1].height) == if cut <= to then chain[cut..to] else []
  {
    var s, h := chain[from..to], chain[cut - 1].height;
    DividesAtHeight(s, h);
    var k := |AtLeast(s, h)|;
    assert k < |s| ==> s[k].height < h && chain[from + k].height < h;
    assert k > 0 ==> s[k - 1].height >= h && chain[from + k - 1].height >= h;
    assert k == Min(cut, to) - from;
  }

  lemma OneRowPerHeight(chain: seq<Block>, i: nat, j: nat)
    requires Descending(chain) && i < |chain| && j < |chain| && chain[i].height == chain[j].height
    ensures i == j
  {
  }

  lemma PartsAreDescending(chain: seq<Block>, recent: seq<Block>, window: seq<Block>, from: nat)
    requires Descending(chain) && recent <= chain && from + |window| <= |chain|
      && window == chain[from..from + |window|]
    ensures Descending(recent) && DistinctHeights(recent) && DistinctHeights(window)
  {
  }

  /** Two stretches of one chain that share a height meet. */
  lemma SharedHeightMeets(chain: seq<Block>, window: seq<Block>, from: nat, recent: seq<Block>)
    requires Descending(chain) && recent <= chain && from + |window| <= |chain|
      && window == chain[from..from + |window|]
    requires |Overlap(recent, TimeByHeight(window))| > 0
    ensures from < |recent|
  {
    var known := TimeByHeight(window);
    var b := Overlap(recent, known)[0];
    PartsAreDescending(chain, recent, window, from);
    hide TimeByHeight, Descending, DistinctHeights, Overlap;
    assert b in Overlap(recent, known);
    OverlapFacts(recent, known);
    TimeByHeightIsExact(window);
    assert Block(b.height, known[b.height]) in window;
    var i :| 0 <= i < |window| && window[i] == Block(b.height, known[b.height]);
    var j :| 0 <= j < |recent| && recent[j] == b;
    OneRowPerHeight(chain, from + i, j);
  }

  lemma TakeOfJoin(chain: seq<Block>, cut: nat, to: nat)
    requires cut <= to <= |chain| && (to == |chain| || WINDOW <= to)
    ensures Take(chain[..cut] + chain[cut..to], WINDOW) == Take(chain, WINDOW)
  {
    assert chain[..cut] + chain[cut..to] == chain[..to];
  }

  /** Splicing the newest rows onto a window of an earlier state is reading the window in full. */
  lemma SpliceIsFullRead(previous: Page, recent: Page, chain: seq<Block>)
    requires Descending(chain) && WindowOf(previous, chain)
    requires recent == FullRead(chain, RECENT)
    requires Splice(previous, recent).Some?
    ensures Splice(previous, recent).value == FullRead(chain, WINDOW)
  {
    var from, cut := |chain| - previous.total, |recent.results|;
    var to := from + |previous.results|;
    AreStretches(previous, recent, chain);
    SpliceGives(previous, recent);
    hide Descending, Overlap, TimeByHeight, Below, WindowOf, FullRead, Splice, Take;
    SharedHeightMeets(chain, previous.results, from, recent.results);
    SpliceOfStretch(previous.results, recent.results, chain, from, to, cut);
  }

  lemma AreStretches(previous: Page, recent: Page, chain: seq<Block>)
    requires WindowOf(previous, chain) && recent == FullRead(chain, RECENT)
    ensures var from, cut := |chain| - previous.total, |recent.results|; var to := from + |previous.results|;
      && 0 <= from && cut <= to <= |chain| && (to == |chain| || WINDOW <= to)
      && previous.results == chain[from..to] && recent.results == chain[..cut] && recent.results <= chain
      && recent.total == |chain| && FullRead(chain, WINDOW) == Page(WINDOW, 0, |chain|, Take(chain, WINDOW))
  {
  }

  lemma SpliceGives(previous: Page, recent: Page)
    requires Splice(previous, recent).Some?
    ensures |recent.results| > 0 && |Overlap(recent.results, TimeByHeight(previous.results))| > 0
    ensures Splice(previous, recent).value == Page(WINDOW, 0, recent.total,
      Take(recent.results + Below(previous.results, recent.results[|recent.results| - 1].height), WINDOW))
  {
  }

  lemma SpliceOfStretch(window: seq<Block>, recent: seq<Block>, chain: seq<Block>, from: nat, to: nat, cut: nat)
    requires Descending(chain) && from < cut <= to <= |chain| && (to == |chain| || WINDOW <= to)
    requires window == chain[from..to] && recent == chain[..cut]
    ensures Take(recent + Below(window, recent[cut - 1].height), WINDOW) == Take(chain, WINDOW)
  {
    SliceBelow(chain, from, to, cut);
    TakeOfJoin(chain, cut, to);
  }

  lemma KnownInStretch(chain: seq<Block>, from: nat, to: nat, a: nat)
    requires Descending(chain) && from <= to <= |chain| && a < to
    ensures var known := TimeByHeight(chain[from..to]);
      && (chain[a].height in known <==> from <= a)
      && (from <= a ==> known[chain[a].height] == chain[a].time)
  {
    var window := chain[from..to];
    var known := TimeByHeight(window);
    TimeByHeightIsExact(window);
    assert from <= a ==> window[a - from] == Block(chain[a].height, chain[a].time);
    forall t | Block(chain[a].height, t) in window ensures from <= a {
      var i :| 0 <= i < |window| && window[i] == Block(chain[a].height, t);
      assert chain[from + i].height == chain[a].height;
    }
    assert chain[a].height in known ==> Block(chain[a].height, known[chain[a].height]) in window;
  }

  lemma {:induction false} OverlapOfStretch(chain: seq<Block>, from: nat, to: nat, a: nat, cut: nat)
    requires Descending(chain) && from <= to <= |chain| && a <= cut <= to
    ensures Overlap(chain[a..cut], TimeByHeight(chain[from..to]))
      == if a < from then chain[Min(from, cut)..cut] else chain[a..cut]
    decreases cut - a
  {
    if a < cut {
      OverlapOfStretch(chain, from, to, a + 1, cut);
      assert chain[a..cut][1..] == chain[a + 1..cut];
      KnownInStretch(chain, from, to, a);
    }
  }

  lemma StretchAgrees(chain: seq<Block>, from: nat, to: nat, cut: nat)
    requires Descending(chain) && from <= cut <= to <= |chain|
    ensures Agrees(chain[from..cut], TimeByHeight(chain[from..to]))
  {
    var overlap, known := chain[from..cut], TimeByHeight(chain[from..to]);
    forall i | 0 <= i < |overlap| ensures overlap[i].height in known && known[overlap[i].height] == overlap[i].time {
      KnownInStretch(chain, from, to, from + i);
    }
  }

  lemma StretchAtLeast(chain: seq<Block>, from: nat, to: nat, cut: nat)
    requires Descending(chain) && from < cut <= to <= |chain|
    ensures |AtLeast(chain[from..to], chain[cut - 1].height)| == cut - from
  {
    DividesAtHeight(chain[from..to], chain[cut - 1].height);
    SliceBelow(chain, from, to, cut);
  }

  lemma OverlapFound(window: seq<Block>, recent: seq<Block>, chain: seq<Block>, from: nat, to: nat, cut: nat)
    requires Descending(chain) && from < cut <= to <= |chain|
    requires window == chain[from..to] && recent == chain[..cut]
    ensures var overlap := Overlap(recent, TimeByHeight(window));
      && Agrees(overlap, TimeByHeight(window))
      && |overlap| == |AtLeast(window, recent[cut - 1].height)| == cut - from
  {
    assert recent == chain[0..cut];
    OverlapOfStretch(chain, from, to, 0, cut);
    StretchAgrees(chain, from, to, cut);
    StretchAtLeast(chain, from, to, cut);
  }

  lemma AcceptedWhenClose(previous: Page, chain: seq<Block>)
    requires Descending(chain) && WindowOf(previous, chain) && |chain| - previous.total < Min(RECENT, |chain|)
    ensures Splice(previous, FullRead(chain, RECENT)).Some?
  {
    var recent := FullRead(chain, RECENT).results;
    var from, cut := |chain| - previous.total, |recent|;
    var to := from + |previous.results|;
    AreStretches(previous, FullRead(chain, RECENT), chain);
    PartsAreDescending(chain, recent, previous.results, from);
    OrderedIsDescending(recent);
    hide TimeByHeight, Overlap, AtLeast, Below, Agrees, Descending, DistinctHeights, WindowOf, Ordered;
    NewestFirst(chain, from);
    OverlapFound(previous.results, recent, chain, from, to, cut);
    SpliceOfStretch(previous.results, recent, chain, from, to, cut);
  }

  /** On a history that only grew, the short refresh is refused exactly when 30 or more rows arrived. */
  lemma SpliceAcceptedExactlyWhen(previous: Page, chain: seq<Block>)
    requires Descending(chain) && WindowOf(previous, chain)
    ensures Splice(previous, FullRead(chain, RECENT)).Some? <==> |chain| - previous.total < Min(RECENT, |chain|)
  {
    hide TimeByHeight, Overlap, AtLeast, Below, Agrees, Descending, Ordered;
    AreStretches(previous, FullRead(chain, RECENT), chain);
    if |chain| - previous.total < Min(RECENT, |chain|) {
      AcceptedWhenClose(previous, chain);
    } else {
      RefusedWhenApart(previous, FullRead(chain, RECENT).results, chain, |chain| - previous.total);
    }
  }

  lemma NewestFirst(chain: seq<Block>, i: nat)
    requires Descending(chain) && i < |chain|
    ensures chain[0].height >= chain[i].height
  {
  }

  lemma RefusedWhenApart(previous: Page, recent: seq<Block>, chain: seq<Block>, from: nat)
    requires Descending(chain) && recent <= chain && |recent| <= from && from + |previous.results| <= |chain|
    requires previous.results == chain[from..from + |previous.results|]
    ensures Overlap(recent, TimeByHeight(previous.results)) == []
  {
    if |Overlap(recent, TimeByHeight(previous.results))| > 0 {
      SharedHeightMeets(chain, previous.results, from, recent);
      assert false;
    }
  }

  // ---------------------------------------------------------------------------------------------
  // The cache
  // ---------------------------------------------------------------------------------------------

  class BurnBlockHistory {
    var cached: Option<Page>
    var reconciledAt: int

    ghost predicate Valid()
      reads this
    {
      cached.Some? ==>
        && Descending(cached.value.results)
        && |cached.value.results| == Min(WINDOW, cached.value.total)
    }

    constructor ()
      ensures Valid() && cached.None?
    {
      cached, reconciledAt := None, 0;
    }

    /**
     One refresh at `now`. A failure changes nothing. A success becomes the cached window, rests on a
     full read less than an hour old, and equals the full read of any honest history the cache came from.
     */
    method Refresh(serve: Server, now: int, ghost chain: seq<Block>) returns (r: Result<Page, ReadError>, spliced: bool)
      requires Valid()
      modifies this
      ensures Valid()
      ensures r.Err? ==> unchanged(this)
      ensures r.Ok? ==> cached == Some(r.value) && 0 <= now - reconciledAt < RECONCILE_INTERVAL_MS
      ensures !spliced && r.Ok? ==> reconciledAt == now
      ensures spliced ==>
        && r.Ok? && unchanged(this`reconciledAt) && old(cached).Some?
        && r.value.total >= old(cached).value.total
        && (forall b :: b in old(cached).value.results ==> KeptUnlessPushedOut(b, r.value.results))
      ensures HonestOrDown(serve, chain) && Descending(chain) && r.Ok? ==>
        old(cached).None? || WindowOf(old(cached).value, chain) ==> r.value == FullRead(chain, WINDOW)
      ensures HonestOrDown(serve, chain) && NeverDown(serve) && Descending(chain) ==> r.Ok?
      ensures HonestOrDown(serve, chain) && NeverDown(serve) && Descending(chain) && old(cached).Some? ==>
        WindowOf(old(cached).value, chain) && 0 <= now - old(reconciledAt) < RECONCILE_INTERVAL_MS ==>
        (spliced <==> |chain| - old(cached).value.total < Min(RECENT, |chain|))
    {
      var next := 0;
      spliced := false;
      if cached.Some? && now >= reconciledAt && now - reconciledAt < RECONCILE_INTERVAL_MS {
        var recent;
        recent, next := GetBurnBlocks(serve, 0, RECENT, chain);
        if recent.Err? {
          return recent, false;
        }
        var splice := Splice(cached.value, recent.value);
        if HonestOrDown(serve, chain) && Descending(chain) && WindowOf(cached.value, chain) {
          SpliceAcceptedExactlyWhen(cached.value, chain);
        }
        if splice.Some? {
          SpliceKeepsTheWindow(cached.value, recent.value);
          if HonestOrDown(serve, chain) && Descending(chain) && WindowOf(cached.value, chain) {
            SpliceIsFullRead(cached.value, recent.value, chain);
          }
          cached := splice;
          return Ok(splice.value), true;
        }
      }
      var full, _ := GetBurnBlocks(serve, next, WINDOW, chain);
      if full.Err? {
        return full, false;
      }
      OrderedIsDescending(full.value.results);
      if !Ordered(full.value.results) {
        return Err(NotOrdered), false;
      }
      cached, reconciledAt := Some(full.value), now;
      r := full;
    }
  }

  // ---------------------------------------------------------------------------------------------
  // Runs
  // ---------------------------------------------------------------------------------------------

  /** A refresh at some moment, against what the server answers then. */
  datatype Moment = Moment(serve: Server, now: int)

  /** The later chain is the earlier one with rows added on top. */
  ghost predicate Gained(before: seq<Block>, after: seq<Block>) {
    |before| <= |after| && after[|after| - |before|..] == before
  }

  lemma GainedKeepsTheWindow(before: seq<Block>, after: seq<Block>)
    requires Gained(before, after)
    ensures WindowOf(FullRead(before, WINDOW), after)
  {
  }

  /** Over a whole run, failed fetches and clock jumps included, every answer is the full read of its moment. */
  method FollowChain(history: BurnBlockHistory, moments: seq<Moment>, ghost chains: seq<seq<Block>>)
    returns (answers: seq<Result<Page, ReadError>>)
    requires history.Valid() && history.cached.None?
    requires |chains| == |moments|
    requires forall i :: 0 <= i < |moments| ==> Descending(chains[i]) && HonestOrDown(moments[i].serve, chains[i])
    requires forall i, j :: 0 <= i < j < |moments| ==> Gained(chains[i], chains[j])
    modifies history
    ensures |answers| == |moments|
    ensures forall i :: 0 <= i < |moments| ==>
      && (answers[i].Ok? ==> answers[i].value == FullRead(chains[i], WINDOW))
      && (NeverDown(moments[i].serve) ==> answers[i].Ok?)
  {
    hide HonestOrDown, NeverDown, Descending, Gained, WindowOf, FullRead;
    answers := [];
    for k := 0 to |moments|
      invariant history.Valid() && |answers| == k
      invariant forall i :: 0 <= i < k ==>
        && (answers[i].Ok? ==> answers[i].value == FullRead(chains[i], WINDOW))
        && (NeverDown(moments[i].serve) ==> answers[i].Ok?)
      invariant history.cached.None? || exists i :: 0 <= i < k && history.cached == Some(FullRead(chains[i], WINDOW))
    {
      var m := moments[k];
      if history.cached.Some? {
        ghost var i :| 0 <= i < k && history.cached == Some(FullRead(chains[i], WINDOW));
        GainedKeepsTheWindow(chains[i], chains[k]);
      }
      var answer, spliced := history.Refresh(m.serve, m.now, chains[k]);
      answers := answers + [answer];
    }
  }
}
