/**
 Decisions about which blocks are canonical, made from separate reads of a node whose tip may move
 between any two of them, against ancestry in the block tree.
 */
module Canonicality {
  import opened Anchors
  import opened BlockTree
  import NakamotoBlock
  import opened Wire
  import opened Wrappers

  const MAX_HEADER_PROOF_DEPTH := 2_100
  const MAX_FUTURE_BLOCK_DISTANCE := 12
  const MAX_ATTEMPTS := 3

  function Last(h: seq<Moment>): Tree
    requires |h| > 0
  {
    h[|h| - 1].tree
  }

  /** On the branch of `tip`, the block of this height is `id`. */
  ghost predicate Canonical(tree: Tree, tip: BlockId, height: int, id: BlockId) {
    AncestorAt(tree, tip, height) == Some(id)
  }

  // ---------------------------------------------------------------------------------------------
  // Observer deliveries
  // ---------------------------------------------------------------------------------------------

  datatype EndpointKind = NewBlock | NewBurnBlock | Attachment
  datatype Claim = Claim(kind: EndpointKind, height: Option<nat>, hash: Option<BlockId>, indexHash: Option<BlockId>,
                         burnHeight: Option<nat>, burnHash: Option<BlockId>)
  datatype FinalState = NodeVerified | Quarantined | Expired
  datatype Reason =
    | MissingClaim | UnreasonablyAhead | OutsideProofWindow | NotKnownToNode | NotCanonicalAtHeight | Proved
    | TipIdUnavailable | TipSourcesDisagree | HeightNotReached | TipChanged | BurnTriggerConsumed | AttachmentUnused
  datatype Verdict = Finish(state: FinalState, reason: Reason) | Retry(reason: Reason) | Threw

  datatype StacksReads = StacksReads(
    beforeInfo: Read<NodeInfo>, beforeTenure: Read<TenureInfo>,
    byId: Read<Bytes>, atHeight: Read<Bytes>,
    afterInfo: Read<NodeInfo>, afterTenure: Read<TenureInfo>)

  predicate SameCanonicalTip(li: NodeInfo, lt: TenureInfo, ri: NodeInfo, rt: TenureInfo) {
    && li.stacksTip.Some? && li.stacksTip == ri.stacksTip && li.stacksTipHeight == ri.stacksTipHeight
    && lt.tipHeight == rt.tipHeight && lt.tipBlockId == rt.tipBlockId
  }

  function VerifyStacksBlock(claim: Claim, r: StacksReads): Verdict {
    if claim.height.None? || claim.hash.None? || claim.indexHash.None? then Finish(Quarantined, MissingClaim)
    else if !r.beforeInfo.Got? || !r.beforeTenure.Got? then Threw
    else
      var info, tenure, height := r.beforeInfo.value, r.beforeTenure.value, claim.height.value;
      if info.stacksTip.None? then Retry(TipIdUnavailable)
      else if info.stacksTipHeight != tenure.tipHeight then Retry(TipSourcesDisagree)
      else if height > tenure.tipHeight + MAX_FUTURE_BLOCK_DISTANCE then Finish(Quarantined, UnreasonablyAhead)
      else if height > tenure.tipHeight then Retry(HeightNotReached)
      else if tenure.tipHeight - height >= MAX_HEADER_PROOF_DEPTH then Finish(Expired, OutsideProofWindow)
      else if r.byId.NotFound? then Finish(Quarantined, NotKnownToNode)
      else if !r.byId.Got? || !r.atHeight.Got? || !r.afterInfo.Got? || !r.afterTenure.Got? then Threw
      else if !SameCanonicalTip(info, tenure, r.afterInfo.value, r.afterTenure.value) then Retry(TipChanged)
      else if r.byId.value != r.atHeight.value then Finish(Quarantined, NotCanonicalAtHeight)
      else Finish(NodeVerified, Proved)
  }

  function VerifyBurnBlock(claim: Claim, info: Read<NodeInfo>): Verdict {
    if claim.burnHeight.None? || claim.burnHash.None? then Finish(Quarantined, MissingClaim)
    else if !info.Got? then Threw
    else if info.value.burnBlockHeight < claim.burnHeight.value then Retry(HeightNotReached)
    else Finish(Expired, BurnTriggerConsumed)
  }

  function VerifyDelivery(claim: Claim, r: StacksReads): Verdict {
    match claim.kind
    case NewBlock => VerifyStacksBlock(claim, r)
    case NewBurnBlock => VerifyBurnBlock(claim, r.beforeInfo)
    case Attachment => Finish(Expired, AttachmentUnused)
  }

  /** The six reads happened in this order at these moments; the two of a pair in either order. */
  datatype Times = Times(beforeInfo: nat, beforeTenure: nat, byId: nat, atHeight: nat, afterInfo: nat, afterTenure: nat)

  ghost predicate ReadInOrder(h: seq<Moment>, t: Times) {
    && t.beforeInfo <= t.byId && t.beforeTenure <= t.byId <= t.atHeight
    && t.atHeight <= t.afterInfo < |h| && t.atHeight <= t.afterTenure < |h|
  }

  ghost predicate Served(h: seq<Moment>, t: Times, claim: Claim, r: StacksReads) {
    && IsHistory(h) && ReadInOrder(h, t)
    && ServesInfo(h[t.beforeInfo], r.beforeInfo) && ServesTenure(h[t.beforeTenure], r.beforeTenure)
    && (claim.indexHash.Some? ==> ServesById(h[t.byId], claim.indexHash.value, r.byId))
    && (claim.height.Some? && r.beforeTenure.Got? ==>
          ServesAtHeight(h[t.atHeight], claim.height.value, r.beforeTenure.value.tipBlockId, r.atHeight))
    && ServesInfo(h[t.afterInfo], r.afterInfo) && ServesTenure(h[t.afterTenure], r.afterTenure)
  }

  /** Everything was answered and the node's tip, as reported, did not move. */
  ghost predicate StableAndServed(claim: Claim, r: StacksReads) {
    && claim.height.Some? && claim.hash.Some? && claim.indexHash.Some?
    && r.beforeInfo.Got? && r.beforeTenure.Got? && r.byId.Got? && r.atHeight.Got? && r.afterInfo.Got?
    && r.afterTenure.Got?
    && r.beforeInfo.value.stacksTipHeight == r.beforeTenure.value.tipHeight
    && SameCanonicalTip(r.beforeInfo.value, r.beforeTenure.value, r.afterInfo.value, r.afterTenure.value)
  }

  /** A block read by id and the block read at a height under a tip agree exactly when the id is canonical there. */
  lemma BytesAgreeExactlyWhenCanonical(h: seq<Moment>, i: nat, id: BlockId, byId: Read<Bytes>,
                                       j: nat, height: int, tip: BlockId, atHeight: Read<Bytes>)
    requires IsHistory(h) && i < |h| && j < |h| && tip in h[j].tree
    requires ServesById(h[i], id, byId) && ServesAtHeight(h[j], height, tip, atHeight)
    requires byId.Got? && atHeight.Got?
    ensures byId.value != [] && atHeight.value != []
    ensures byId.value == atHeight.value <==> Canonical(Last(h), tip, height, id)
  {
    var found := AncestorAt(h[j].tree, tip, height);
    BytesIdentify(h, i, id, j, found.value);
    AncestryIsStable(h[j].tree, Last(h), tip, height);
  }

  /** A 404 by id is itself proof that the id is on no branch of an earlier tip. */
  lemma UnknownIsNotCanonical(h: seq<Moment>, i: nat, tip: BlockId, j: nat, id: BlockId, height: int)
    requires IsHistory(h) && i <= j < |h| && tip in h[i].tree && id !in h[j].tree
    ensures !Canonical(Last(h), tip, height, id)
  {
    AncestryIsStable(h[i].tree, Last(h), tip, height);
    AncestorAtHasHeight(h[i].tree, tip, height);
  }

  /** The verdict's cases, given what the comparison of the two blocks means. */
  lemma VerdictFollowsComparison(claim: Claim, r: StacksReads, canonical: bool)
    requires r.byId.Got? && r.atHeight.Got? ==> (r.byId.value == r.atHeight.value <==> canonical)
    requires r.byId.NotFound? ==> !canonical
    ensures var v := VerifyStacksBlock(claim, r);
      && (v == Finish(NodeVerified, Proved) || v == Finish(Quarantined, NotCanonicalAtHeight) ==>
            StableAndServed(claim, r) && (v.state.NodeVerified? <==> canonical))
      && (v == Finish(Quarantined, NotKnownToNode) ==> claim.indexHash.Some? && r.beforeTenure.Got? && r.byId.NotFound?)
      && (v.Finish? && v.state.NodeVerified? ==> v.reason == Proved)
      && (StableAndServed(claim, r)
          && 0 <= r.beforeTenure.value.tipHeight - claim.height.value < MAX_HEADER_PROOF_DEPTH ==>
            (v == Finish(NodeVerified, Proved) <==> canonical))
  {
  }

  /** What comparing the two blocks means for a claim served from a history. */
  lemma ComparisonIsAncestry(h: seq<Moment>, t: Times, claim: Claim, r: StacksReads)
    requires Served(h, t, claim, r)
    requires claim.height.Some? && claim.indexHash.Some? && r.beforeTenure.Got?
    ensures var canonical := Canonical(Last(h), r.beforeTenure.value.tipBlockId, claim.height.value,
                                       claim.indexHash.value);
      && (r.byId.Got? && r.atHeight.Got? ==> (r.byId.value == r.atHeight.value <==> canonical))
      && (r.byId.NotFound? ==> !canonical)
  {
    var tip := r.beforeTenure.value.tipBlockId;
    assert Grown(h[t.beforeTenure].tree, h[t.atHeight].tree);
    if r.byId.Got? && r.atHeight.Got? {
      BytesAgreeExactlyWhenCanonical(h, t.byId, claim.indexHash.value, r.byId,
                                     t.atHeight, claim.height.value, tip, r.atHeight);
    }
    if r.byId.NotFound? {
      UnknownIsNotCanonical(h, t.beforeTenure, tip, t.byId, claim.indexHash.value, claim.height.value);
    }
  }

  /**
   Verified and mismatch verdicts are right about the branch of the tip the node reported both
   before and after, however the tip moved in between; with a stable tip and every read answered
   the verdict is decided by ancestry alone.
   */
  lemma VerdictIsAboutTheBranch(h: seq<Moment>, t: Times, claim: Claim, r: StacksReads)
    requires Served(h, t, claim, r)
    ensures var v := VerifyStacksBlock(claim, r);
      && (v == Finish(NodeVerified, Proved) || v == Finish(Quarantined, NotCanonicalAtHeight) ==>
            var tip := r.beforeTenure.value.tipBlockId;
            && h[t.beforeTenure].tip == tip == h[t.afterTenure].tip
            && (v.state.NodeVerified? <==> Canonical(Last(h), tip, claim.height.value, claim.indexHash.value)))
      && (v == Finish(Quarantined, NotKnownToNode) ==>
            !Canonical(Last(h), h[t.beforeTenure].tip, claim.height.value, claim.indexHash.value))
      && (v.Finish? && v.state.NodeVerified? ==> v.reason == Proved)
      && (StableAndServed(claim, r)
          && 0 <= r.beforeTenure.value.tipHeight - claim.height.value < MAX_HEADER_PROOF_DEPTH ==>
            (v == Finish(NodeVerified, Proved) <==>
              Canonical(Last(h), r.beforeTenure.value.tipBlockId, claim.height.value, claim.indexHash.value)))
  {
    if claim.height.Some? && claim.indexHash.Some? && r.beforeTenure.Got? {
      ComparisonIsAncestry(h, t, claim, r);
      VerdictFollowsComparison(claim, r,
        Canonical(Last(h), r.beforeTenure.value.tipBlockId, claim.height.value, claim.indexHash.value));
    }
  }

  /**
   A claim above the reported tip is given up only beyond the twelve-block distance, and one below it
   expires exactly at the header-proof depth; in between nothing is final without both block reads.
   */
  lemma HeightDecidesEarlyVerdicts(claim: Claim, r: StacksReads)
    requires claim.height.Some? && claim.hash.Some? && claim.indexHash.Some?
    requires r.beforeInfo.Got? && r.beforeTenure.Got? && r.beforeInfo.value.stacksTip.Some?
    requires r.beforeInfo.value.stacksTipHeight == r.beforeTenure.value.tipHeight
    ensures var v := VerifyStacksBlock(claim, r); var ahead := claim.height.value - r.beforeTenure.value.tipHeight;
      && (ahead > 0 ==> (v.Finish? <==> ahead > MAX_FUTURE_BLOCK_DISTANCE))
      && (ahead > 0 ==> (v.Finish? ==> v.state.Quarantined?) && !v.Threw?)
      && (v.Finish? && v.state.Expired? <==> ahead <= -MAX_HEADER_PROOF_DEPTH)
      && (ahead <= 0 && v.Finish? && !v.state.Expired? ==> r.byId.NotFound? || (r.byId.Got? && r.atHeight.Got?))
  {
  }

  /** Only a Stacks block on the reported branch is ever accepted as verified. */
  lemma OnlyCanonicalBlocksVerify(h: seq<Moment>, t: Times, claim: Claim, r: StacksReads)
    requires Served(h, t, claim, r)
    requires VerifyDelivery(claim, r).Finish? && VerifyDelivery(claim, r).state.NodeVerified?
    ensures claim.kind.NewBlock? && claim.indexHash.Some? && claim.indexHash.value in Last(h)
    ensures Last(h)[claim.indexHash.value].height == claim.height.value
    ensures IsAncestor(Last(h), claim.indexHash.value, h[t.afterTenure].tip)
  {
    VerdictIsAboutTheBranch(h, t, claim, r);
    AncestorAtHasHeight(Last(h), h[t.afterTenure].tip, claim.height.value);
  }

  // ---------------------------------------------------------------------------------------------
  // An older anchor beneath a newer tip
  // ---------------------------------------------------------------------------------------------

  datatype Proof = ProvedCanonical | ProvedNonCanonical | Unavailable

  /** `bytesEqual`, an index loop; empty input never matches. */
  method BytesEqual(left: Bytes, right: Bytes) returns (equal: bool)
    ensures equal <==> left == right && left != []
  {
    if |left| != |right| || |left| == 0 {
      return false;
    }
    for k := 0 to |left|
      invariant left[..k] == right[..k]
    {
      if left[k] != right[k] {
        return false;
      }
    }
    equal := true;
  }

  function ReadAnchorProof(anchor: ChainAnchor, live: ChainAnchor, byId: Read<Bytes>, atHeight: Read<Bytes>): Proof {
    if anchor == live then ProvedCanonical
    else if anchor.stacksBlockHeight > live.stacksBlockHeight then ProvedNonCanonical
    else if !byId.Got? || !atHeight.Got? then Unavailable
    else if |byId.value| == 0 || |atHeight.value| == 0 then Unavailable
    else if byId.value == atHeight.value then ProvedCanonical
    else ProvedNonCanonical
  }

  /** The anchor names a block the node held at moment `i`, with its height. */
  ghost predicate AnchoredAt(h: seq<Moment>, i: nat, a: ChainAnchor) {
    i < |h| && a.indexBlockHash in h[i].tree && h[i].tree[a.indexBlockHash].height == a.stacksBlockHeight
  }

  ghost predicate ProofServed(h: seq<Moment>, i: nat, j: nat, anchor: ChainAnchor, live: ChainAnchor,
                              byId: Read<Bytes>, atHeight: Read<Bytes>) {
    && IsHistory(h) && i < |h| && j < |h|
    && ServesById(h[i], anchor.indexBlockHash, byId)
    && ServesAtHeight(h[j], anchor.stacksBlockHeight, live.indexBlockHash, atHeight)
  }

  /** The proof answers by ancestry, and gives no answer only when a needed read was not served. */
  lemma AnchorProofIsAncestry(h: seq<Moment>, i: nat, j: nat, anchor: ChainAnchor, live: ChainAnchor,
                              byId: Read<Bytes>, atHeight: Read<Bytes>)
    requires ProofServed(h, i, j, anchor, live, byId, atHeight)
    requires AnchoredAt(h, j, live)
    ensures match ReadAnchorProof(anchor, live, byId, atHeight)
      case ProvedCanonical => Canonical(Last(h), live.indexBlockHash, anchor.stacksBlockHeight, anchor.indexBlockHash)
      case ProvedNonCanonical => !Canonical(Last(h), live.indexBlockHash, anchor.stacksBlockHeight,
                                            anchor.indexBlockHash)
      case Unavailable => !byId.Got? || !atHeight.Got?
  {
    assert Grown(h[j].tree, Last(h));
    if byId.Got? && atHeight.Got? {
      BytesAgreeExactlyWhenCanonical(h, i, anchor.indexBlockHash, byId,
                                     j, anchor.stacksBlockHeight, live.indexBlockHash, atHeight);
    }
  }

  // ---------------------------------------------------------------------------------------------
  // The canonical bytes of an indexed block
  // ---------------------------------------------------------------------------------------------

  datatype CanonicalBytes = CanonicalBlock(bytes: Bytes) | Reorged | ReadThrew

  function CanonicalBlockBytes(height: nat, before: Read<TenureInfo>, byId: Read<Bytes>,
                               atHeight: Read<Bytes>): CanonicalBytes
  {
    if !before.Got? || height > before.value.tipHeight then ReadThrew
    else if !byId.Got? || !atHeight.Got? then ReadThrew
    else if byId.value == atHeight.value then CanonicalBlock(byId.value)
    else Reorged
  }

  /** Bytes are returned only for the block on the captured tip's branch, and Reorged only for one off it. */
  lemma CanonicalBytesAreOnTheBranch(h: seq<Moment>, i: nat, j: nat, k: nat, height: nat, id: BlockId,
                                     before: Read<TenureInfo>, byId: Read<Bytes>, atHeight: Read<Bytes>)
    requires IsHistory(h) && i <= k < |h| && j < |h|
    requires ServesTenure(h[i], before) && ServesById(h[j], id, byId)
    requires before.Got? ==> ServesAtHeight(h[k], height, before.value.tipBlockId, atHeight)
    ensures var r := CanonicalBlockBytes(height, before, byId, atHeight);
      && (r.CanonicalBlock? ==>
            && Canonical(Last(h), before.value.tipBlockId, height, id)
            && id in Last(h) && r.bytes == Last(h)[id].bytes)
      && (r.Reorged? ==> !Canonical(Last(h), before.value.tipBlockId, height, id))
      && (r.ReadThrew? <==> !(before.Got? && height <= before.value.tipHeight && byId.Got? && atHeight.Got?))
  {
    if before.Got? && byId.Got? && atHeight.Got? {
      assert Grown(h[i].tree, h[k].tree) && Grown(h[j].tree, Last(h));
      BytesAgreeExactlyWhenCanonical(h, j, id, byId, k, height, before.value.tipBlockId, atHeight);
    }
  }

  datatype TransactionProof<+T> = Included(tx: T) | Absent | BlockReorged | CheckThrew

  /** `checkTransactionInCanonicalBlock`. */
  method CheckTransaction<T, I(==)>(height: nat, before: Read<TenureInfo>, byId: Read<Bytes>, atHeight: Read<Bytes>,
                                    decode: NakamotoBlock.Decoder<T>, idOf: T -> I, txid: I)
    returns (r: TransactionProof<T>)
    ensures r == TransactionProofOf(CanonicalBlockBytes(height, before, byId, atHeight), decode, idOf, txid)
  {
    var block := CanonicalBlockBytes(height, before, byId, atHeight);
    if block.ReadThrew? {
      return CheckThrew;
    }
    if block.Reorged? {
      return BlockReorged;
    }
    var found := NakamotoBlock.FindTransaction(decode, block.bytes, idOf, txid);
    if found.Err? {
      return CheckThrew;
    }
    r := if found.value.Some? then Included(found.value.value) else Absent;
  }

  function TransactionProofOf<T, I(==)>(block: CanonicalBytes, decode: NakamotoBlock.Decoder<T>, idOf: T -> I,
                                        txid: I): TransactionProof<T>
  {
    match block
    case ReadThrew => CheckThrew
    case Reorged => BlockReorged
    case CanonicalBlock(bytes) =>
      var txs := NakamotoBlock.ReadBlock(decode, bytes);
      if txs.Err? then CheckThrew
      else
        var found := NakamotoBlock.LastMatch(txs.value, idOf, txid);
        if found.Some? then Included(found.value) else Absent
  }

  /**
   Over any history: included, absent and reorged are each claimed only when the block is on the
   captured tip's branch and holds the transaction, is on it and does not, or is off it; and with the
   reads served one of the three is always claimed.
   */
  lemma TransactionProofIsRight<T(!new), I>(
    h: seq<Moment>, i: nat, j: nat, k: nat, height: nat, id: BlockId,
    before: Read<TenureInfo>, byId: Read<Bytes>, atHeight: Read<Bytes>,
    decode: NakamotoBlock.Decoder<T>, encode: T -> Bytes, idOf: T -> I, txid: I,
    header: NakamotoBlock.Header, txs: seq<T>)
    requires IsHistory(h) && i <= k < |h| && j < |h|
    requires ServesTenure(h[i], before) && ServesById(h[j], id, byId)
    requires before.Got? ==> ServesAtHeight(h[k], height, before.value.tipBlockId, atHeight)
    requires NakamotoBlock.Inverts(decode, encode)
    requires NakamotoBlock.ValidHeader(header) && |txs| < U32_LIMIT
    requires id in Last(h) ==> Last(h)[id].bytes == NakamotoBlock.Serialize(header, encode, txs)
    ensures var r := TransactionProofOf(CanonicalBlockBytes(height, before, byId, atHeight), decode, idOf, txid);
      var holds := exists n :: 0 <= n < |txs| && idOf(txs[n]) == txid;
      && (r.Included? ==> holds && r.tx in txs && idOf(r.tx) == txid)
      && (r.Absent? ==> !holds)
      && (r.Included? || r.Absent? ==> Canonical(Last(h), before.value.tipBlockId, height, id))
      && (r.BlockReorged? ==> !Canonical(Last(h), before.value.tipBlockId, height, id))
      && (r.CheckThrew? ==> !(before.Got? && height <= before.value.tipHeight && byId.Got? && atHeight.Got?))
  {
    hide NakamotoBlock.Inverts, NakamotoBlock.ValidHeader, NakamotoBlock.ReadBlock, NakamotoBlock.Serialize,
      NakamotoBlock.LastMatch;
    CanonicalBytesAreOnTheBranch(h, i, j, k, height, id, before, byId, atHeight);
    NakamotoBlock.BlockRoundTrip(decode, encode, header, txs);
    NakamotoBlock.FoundExactlyWhenContained(txs, idOf, txid);
  }

  // ---------------------------------------------------------------------------------------------
  // The operator snapshot
  // ---------------------------------------------------------------------------------------------

  datatype CaptureReads = CaptureReads(
    beforeInfo: Read<NodeInfo>, beforeTenure: Read<TenureInfo>, pox: Read<PoxInfo>,
    afterInfo: Read<NodeInfo>, afterTenure: Read<TenureInfo>)

  predicate SameNodeTip(li: NodeInfo, lt: TenureInfo, ri: NodeInfo, rt: TenureInfo) {
    && li.stacksTipHeight == ri.stacksTipHeight && li.burnBlockHeight == ri.burnBlockHeight
    && lt.tipHeight == rt.tipHeight && lt.tipBlockId == rt.tipBlockId && lt.rewardCycle == rt.rewardCycle
  }

  /** One attempt of `captureNodeChainAnchor`. */
  function CaptureNodeAnchor(r: CaptureReads): Result<ChainAnchor, AnchorError> {
    if !r.beforeInfo.Got? || !r.beforeTenure.Got? || !r.pox.Got? || !r.afterInfo.Got? || !r.afterTenure.Got?
       || r.pox.value.rewardCycleLength == 0 then Err(Unreachable)
    else if !SameNodeTip(r.beforeInfo.value, r.beforeTenure.value, r.afterInfo.value, r.afterTenure.value)
      then Err(TipMoved)
    else CreateNodeChainAnchor(r.beforeInfo.value, r.beforeTenure.value, r.pox.value)
  }

  /**
   The retry loops: at most three attempts, repeated only after retryable errors. What comes back is
   the first attempt that is not a retryable error, or the third.
   */
  method RetryAnchor<T>(attempt: nat -> Result<T, AnchorError>) returns (r: Result<T, AnchorError>, tries: nat)
    ensures 1 <= tries <= MAX_ATTEMPTS && r == attempt(tries - 1)
    ensures forall k :: 0 <= k < tries - 1 ==> attempt(k).Err? && Retryable(attempt(k).error)
    ensures r.Err? && Retryable(r.error) ==> tries == MAX_ATTEMPTS
  {
    tries := 0;
    while true
      invariant tries < MAX_ATTEMPTS
      invariant forall k :: 0 <= k < tries ==> attempt(k).Err? && Retryable(attempt(k).error)
      decreases MAX_ATTEMPTS - tries
    {
      r := attempt(tries);
      tries := tries + 1;
      if r.Ok? || !Retryable(r.error) || tries == MAX_ATTEMPTS {
        return;
      }
    }
  }

  datatype Preflight = Preflight(stacksTipHeight: nat, burnBlockHeight: nat, currentCycle: nat,
                                 pox5Contract: Option<nat>)
  datatype Manager<M> = Manager(attachAllowed: bool, report: M)
  datatype Snapshot<M, R, T> = Snapshot(
    anchor: ChainAnchor, preflight: Preflight, manager: Manager<M>, registration: Option<R>, readiness: T)

  /** What the contracts say in the state after a block; the block's id fixes that state. */
  datatype ChainState<!M, !R, !T> = ChainState(
    manager: BlockId -> Manager<M>,
    registration: (nat, BlockId) -> R,
    readiness: (Preflight, Manager<M>, Option<R>, BlockId) -> T)

  /** How the node answers the manager, registration and readiness requests, each at its own moment. */
  datatype PinnedReads<!M, !R, !T> = PinnedReads(
    manager: BlockId -> Read<Manager<M>>,
    registration: (nat, BlockId) -> Read<R>,
    readiness: (Preflight, Manager<M>, Option<R>, BlockId) -> Read<T>)

  datatype SnapshotReads<!M, !R, !T> = SnapshotReads(
    before: Result<ChainAnchor, AnchorError>, preflight: Read<Preflight>, pinned: PinnedReads<M, R, T>,
    after: Result<ChainAnchor, AnchorError>, byId: Read<Bytes>, atHeight: Read<Bytes>)

  ghost predicate ServesManager<M, R, T>(m: Moment, s: ChainState<M, R, T>, pinned: PinnedReads<M, R, T>) {
    forall tip :: pinned.manager(tip).Got? ==> tip in m.tree && pinned.manager(tip).value == s.manager(tip)
  }

  ghost predicate ServesRegistration<M, R, T>(m: Moment, s: ChainState<M, R, T>, pinned: PinnedReads<M, R, T>) {
    forall id, tip :: pinned.registration(id, tip).Got? ==>
      tip in m.tree && pinned.registration(id, tip).value == s.registration(id, tip)
  }

  ghost predicate ServesReadiness<M(!new), R(!new), T>(m: Moment, s: ChainState<M, R, T>, pinned: PinnedReads<M, R, T>)
  {
    forall p, manager, registration, tip :: pinned.readiness(p, manager, registration, tip).Got? ==>
      && tip in m.tree
      && pinned.readiness(p, manager, registration, tip).value == s.readiness(p, manager, registration, tip)
  }

  predicate AdvancedWithinWindow(before: ChainAnchor, after: ChainAnchor) {
    && after.stacksBlockHeight >= before.stacksBlockHeight
    && after.burnBlockHeight >= before.burnBlockHeight
    && after.cyclePosition >= before.cyclePosition
    && before.rewardCycle == after.rewardCycle
    && before.rewardCycleLength == after.rewardCycleLength
    && before.prepareCycleLength == after.prepareCycleLength
    && before.phase == after.phase
    && before.checkpoint == after.checkpoint
  }

  predicate PreflightMatches(p: Preflight, anchor: ChainAnchor) {
    && p.stacksTipHeight >= anchor.stacksBlockHeight
    && p.burnBlockHeight >= anchor.burnBlockHeight
    && p.currentCycle == anchor.rewardCycle
  }

  /** The anchor has not moved, or moved within its half-cycle and was proved canonical. */
  predicate StillCanonical(before: ChainAnchor, after: ChainAnchor, byId: Read<Bytes>, atHeight: Read<Bytes>) {
    before == after || (AdvancedWithinWindow(before, after)
                        && ReadAnchorProof(before, after, byId, atHeight).ProvedCanonical?)
  }

  /** The registration is looked up only when the manager may attach and the node names the contract. */
  function RegistrationTarget<M>(preflight: Preflight, manager: Manager<M>): Option<nat> {
    if manager.attachAllowed then preflight.pox5Contract else None
  }

  /** One attempt of `readOperatorAnchorSnapshot`. */
  function SnapshotAttempt<M, R, T>(r: SnapshotReads<M, R, T>): Result<Snapshot<M, R, T>, AnchorError> {
    if r.before.Err? then Err(r.before.error)
    else
      var before := r.before.value;
      var manager := r.pinned.manager(before.indexBlockHash);
      if !r.preflight.Got? || !manager.Got? then Err(Unreachable)
      else
        var target := RegistrationTarget(r.preflight.value, manager.value);
        var looked := if target.Some? then r.pinned.registration(target.value, before.indexBlockHash) else Failed;
        if target.Some? && !looked.Got? then Err(Unreachable)
        else
          var registration := if target.Some? then Some(looked.value) else None;
          var readiness := r.pinned.readiness(r.preflight.value, manager.value, registration, before.indexBlockHash);
          if !readiness.Got? then Err(Unreachable)
          else if r.after.Err? then Err(r.after.error)
          else if !StillCanonical(before, r.after.value, r.byId, r.atHeight) then Err(Incoherent)
          else if !PreflightMatches(r.preflight.value, before) then Err(Incoherent)
          else Ok(Snapshot(before, r.preflight.value, manager.value, registration, readiness.value))
  }

  /** Every fact of the snapshot but the live preflight is that of the state after the anchor's block. */
  ghost predicate FactsAtAnchor<M, R, T>(s: ChainState<M, R, T>, snapshot: Snapshot<M, R, T>) {
    var tip, target := snapshot.anchor.indexBlockHash, RegistrationTarget(snapshot.preflight, snapshot.manager);
    && snapshot.manager == s.manager(tip)
    && snapshot.registration == (if target.Some? then Some(s.registration(target.value, tip)) else None)
    && snapshot.readiness == s.readiness(snapshot.preflight, snapshot.manager, snapshot.registration, tip)
  }

  /** The reads an attempt needs for a state `s`: those pinned at `tip`, and the preflight. */
  predicate ReadsGot<M, R, T>(r: SnapshotReads<M, R, T>, s: ChainState<M, R, T>, tip: BlockId) {
    && r.preflight.Got? && r.pinned.manager(tip).Got?
    && var target := RegistrationTarget(r.preflight.value, s.manager(tip));
       var registration := if target.Some? then Some(s.registration(target.value, tip)) else None;
       && (target.Some? ==> r.pinned.registration(target.value, tip).Got?)
       && r.pinned.readiness(r.preflight.value, s.manager(tip), registration, tip).Got?
  }

  ghost predicate CaptureServed(h: seq<Moment>, i: nat, r: CaptureReads) {
    IsHistory(h) && i < |h| && ServesTenure(h[i], r.beforeTenure)
  }

  /** A captured anchor is the node's tip at the moment its tenure was read. */
  lemma CapturedAnchorIsATip(h: seq<Moment>, i: nat, r: CaptureReads)
    requires CaptureServed(h, i, r)
    ensures CaptureNodeAnchor(r).Ok? ==>
      && InSchema(CaptureNodeAnchor(r).value)
      && CaptureNodeAnchor(r).value.indexBlockHash == h[i].tip
      && AnchoredAt(h, i, CaptureNodeAnchor(r).value)
  {
  }

  /** Whenever the three pinned reads were answered, their facts are those after the anchor's block. */
  lemma PinnedFactsAreCoherent<M(!new), R(!new), T>(s: ChainState<M, R, T>, r: SnapshotReads<M, R, T>,
                                                    manager: Moment, registration: Moment, readiness: Moment)
    requires ServesManager(manager, s, r.pinned)
    requires ServesRegistration(registration, s, r.pinned)
    requires ServesReadiness(readiness, s, r.pinned)
    ensures SnapshotAttempt(r).Ok? ==>
      && r.before.Ok? && ReadsGot(r, s, r.before.value.indexBlockHash)
      && SnapshotAttempt(r).value.anchor == r.before.value && FactsAtAnchor(s, SnapshotAttempt(r).value)
    ensures SnapshotAttempt(r).Ok? <==>
      && r.before.Ok? && ReadsGot(r, s, r.before.value.indexBlockHash) && r.after.Ok?
      && PreflightMatches(r.preflight.value, r.before.value)
      && StillCanonical(r.before.value, r.after.value, r.byId, r.atHeight)
  {
    hide StillCanonical;
  }

  /**
   A returned snapshot is anchored at an ancestor of, or the same block as, the anchor captured after
   all its reads, in the same half-cycle and phase, and though its manager, registration and readiness
   were read at three moments, all are facts of that one block; and when every read is served those
   are the only conditions for it.
   */
  lemma SnapshotIsAnchored<M(!new), R(!new), T>(
    h: seq<Moment>, first: CaptureReads, second: CaptureReads, i: nat, j: nat, k: nat, l: nat,
    s: ChainState<M, R, T>, manager: nat, registration: nat, readiness: nat, r: SnapshotReads<M, R, T>)
    requires CaptureServed(h, i, first) && CaptureServed(h, j, second) && i <= j <= k < |h| && j <= l < |h|
    requires r.before == CaptureNodeAnchor(first) && r.after == CaptureNodeAnchor(second)
    requires r.before.Ok? && r.after.Ok?
    requires i <= manager <= registration <= readiness <= j && ServesManager(h[manager], s, r.pinned)
    requires ServesRegistration(h[registration], s, r.pinned) && ServesReadiness(h[readiness], s, r.pinned)
    requires ProofServed(h, k, l, r.before.value, r.after.value, r.byId, r.atHeight)
    ensures var before, after := r.before.value, r.after.value;
      var good :=
        && IsAncestor(Last(h), before.indexBlockHash, after.indexBlockHash)
        && AdvancedWithinWindow(before, after)
        && ReadsGot(r, s, before.indexBlockHash)
        && PreflightMatches(r.preflight.value, before);
      && (SnapshotAttempt(r).Ok? ==>
            good && SnapshotAttempt(r).value.anchor == before && FactsAtAnchor(s, SnapshotAttempt(r).value))
      && (good && r.byId.Got? && r.atHeight.Got? ==> SnapshotAttempt(r).Ok?)
  {
    var before, after := r.before.value, r.after.value;
    PinnedFactsAreCoherent(s, r, h[manager], h[registration], h[readiness]);
    hide SnapshotAttempt, ReadsGot, FactsAtAnchor, ServesManager, ServesRegistration, ServesReadiness, ReadAnchorProof;
    CapturedAnchorIsATip(h, i, first);
    CapturedAnchorIsATip(h, j, second);
    assert Grown(h[j].tree, h[l].tree) && Grown(h[i].tree, Last(h));
    AnchorProofIsAncestry(h, k, l, before, after, r.byId, r.atHeight);
    assert IsAncestor(Last(h), before.indexBlockHash, after.indexBlockHash)
      <==> Canonical(Last(h), after.indexBlockHash, before.stacksBlockHeight, before.indexBlockHash);
  }
}
