/** Chain anchors: where a chain position falls in the reward cycles, and which distribution it makes due. */
module Anchors {
  import opened Wrappers

  const MAX_SAFE_INTEGER := 0x1F_FFFF_FFFF_FFFF

  /** Index block hashes are only ever compared for equality. */
  type BlockId = nat

  datatype Phase = Reward | Prepare
  datatype Checkpoint = FirstHalf | SecondHalf

  datatype ChainAnchor = ChainAnchor(
    stacksBlockHeight: int, indexBlockHash: BlockId, burnBlockHeight: int,
    rewardCycle: int, rewardCycleLength: int, prepareCycleLength: int, cyclePosition: int,
    phase: Phase, checkpoint: Checkpoint)

  function PhaseAt(position: int, length: int, prepare: int): Phase {
    if position >= length - prepare then Prepare else Reward
  }

  function CheckpointAt(position: int, length: int): Checkpoint {
    if position < length / 2 then FirstHalf else SecondHalf
  }

  /** `chainAnchorSchema`. */
  predicate InSchema(a: ChainAnchor) {
    && a.stacksBlockHeight >= 0 && a.burnBlockHeight >= 0 && a.rewardCycle >= 0
    && a.rewardCycleLength > 0 && 0 <= a.prepareCycleLength <= a.rewardCycleLength
    && 0 <= a.cyclePosition < a.rewardCycleLength
    && a.phase == PhaseAt(a.cyclePosition, a.rewardCycleLength, a.prepareCycleLength)
    && a.checkpoint == CheckpointAt(a.cyclePosition, a.rewardCycleLength)
  }

  // ---------------------------------------------------------------------------------------------
  // Creating an anchor
  // ---------------------------------------------------------------------------------------------

  datatype NodeInfo = NodeInfo(stacksTip: Option<BlockId>, stacksTipHeight: nat, burnBlockHeight: nat)
  datatype ApiTip = ApiTip(blockHeight: nat, indexBlockHash: BlockId, burnBlockHeight: nat)
  datatype NextCycle = NextCycle(id: int, rewardPhaseStart: int)
  datatype PoxInfo = PoxInfo(currentBurnHeight: nat, rewardCycleId: nat, rewardCycleLength: nat,
                             prepareCycleLength: nat, nextCycle: Option<NextCycle>)
  datatype TenureInfo = TenureInfo(tipBlockId: BlockId, tipHeight: nat, rewardCycle: nat)

  datatype AnchorError =
    TipsDisagree | NoNextCycleBoundary | CycleBoundaryInconsistent | SchemaViolation | TenureDisagrees | TipMoved |
    Incoherent | Unreachable

  predicate Retryable(e: AnchorError) {
    e == TipsDisagree || e == TenureDisagrees || e == TipMoved || e == Incoherent
  }

  function CreateChainAnchor(node: NodeInfo, api: ApiTip, pox: PoxInfo): Result<ChainAnchor, AnchorError>
    requires pox.rewardCycleLength > 0
  {
    if node.stacksTipHeight < api.blockHeight || node.burnBlockHeight - api.burnBlockHeight < 0
       || pox.currentBurnHeight != node.burnBlockHeight then Err(TipsDisagree)
    else if pox.nextCycle.None? || pox.nextCycle.value.id != pox.rewardCycleId + 1 then Err(NoNextCycleBoundary)
    else
      var length := pox.rewardCycleLength;
      var currentStart := pox.nextCycle.value.rewardPhaseStart - length;
      var offset := (api.burnBlockHeight - currentStart) / length;
      var cycle := pox.rewardCycleId + offset;
      var position := api.burnBlockHeight - (currentStart + offset * length);
      if cycle < 0 || cycle > MAX_SAFE_INTEGER || position < 0 || position >= length then Err(CycleBoundaryInconsistent)
      else
        var anchor := ChainAnchor(
          api.blockHeight, api.indexBlockHash, api.burnBlockHeight, cycle, length, pox.prepareCycleLength, position,
          PhaseAt(position, length, pox.prepareCycleLength), CheckpointAt(position, length));
        if InSchema(anchor) then Ok(anchor) else Err(SchemaViolation)
  }

  /** The burn height at which reward cycle zero began, or would have. */
  function CycleZeroStart(pox: PoxInfo): int
    requires pox.nextCycle.Some?
  {
    pox.nextCycle.value.rewardPhaseStart - pox.nextCycle.value.id * pox.rewardCycleLength
  }

  lemma {:induction false} Multiples(h: int, i: int, j: int)
    requires h > 0 && i < j
    ensures i * h + h <= j * h
    decreases j - i
  {
    assert (j - 1) * h + h == j * h;
    if i + 1 < j {
      Multiples(h, i, j - 1);
    }
  }

  lemma SplitUnique(length: int, c: int, p: int, d: int, q: int)
    requires length > 0 && 0 <= p < length && 0 <= q < length
    requires c * length + p == d * length + q
    ensures c == d && p == q
  {
    if c < d {
      Multiples(length, c, d);
    } else if d < c {
      Multiples(length, d, c);
    }
  }

  lemma DivisionMonotone(x: int, y: int, h: int)
    requires h > 0 && x <= y
    ensures x / h <= y / h
  {
    assert x == (x / h) * h + x % h && y == (y / h) * h + y % h;
    if y / h < x / h {
      Multiples(h, y / h, x / h);
    }
  }

  ghost predicate IsSplit(burn: int, start: int, length: int, cycle: int, position: int) {
    burn == start + cycle * length + position && 0 <= position < length
  }

  /**
   The anchor's cycle and position are the one Euclidean split of its burn height, whether the API
   is in the node's cycle or lags in an earlier one, and nothing but the listed facts refuses it.
   */
  lemma AnchorIsTheUniqueSplit(node: NodeInfo, api: ApiTip, pox: PoxInfo, cycle: int, position: int)
    requires pox.rewardCycleLength > 0
    requires pox.nextCycle.Some? ==> IsSplit(api.burnBlockHeight, CycleZeroStart(pox), pox.rewardCycleLength, cycle,
                                             position)
    ensures var r := CreateChainAnchor(node, api, pox);
      && (r.Ok? <==>
            && api.blockHeight <= node.stacksTipHeight
            && api.burnBlockHeight <= node.burnBlockHeight == pox.currentBurnHeight
            && pox.nextCycle.Some? && pox.nextCycle.value.id == pox.rewardCycleId + 1
            && 0 <= cycle <= MAX_SAFE_INTEGER
            && pox.prepareCycleLength <= pox.rewardCycleLength)
      && (r.Ok? ==> InSchema(r.value) && r.value.rewardCycle == cycle && r.value.cyclePosition == position)
      && (r == Err(CycleBoundaryInconsistent) ==> cycle < 0 || cycle > MAX_SAFE_INTEGER)
  {
    if pox.nextCycle.Some? && pox.nextCycle.value.id == pox.rewardCycleId + 1 {
      var length := pox.rewardCycleLength;
      var currentStart := pox.nextCycle.value.rewardPhaseStart - length;
      var distance := api.burnBlockHeight - currentStart;
      var offset := distance / length;
      var rest := distance - offset * length;
      assert 0 <= rest < length by {
        assert distance == length * offset + distance % length;
      }
      var zero := CycleZeroStart(pox);
      assert currentStart == zero + pox.rewardCycleId * length;
      assert (pox.rewardCycleId + offset) * length == pox.rewardCycleId * length + offset * length;
      SplitUnique(length, cycle, position, pox.rewardCycleId + offset, rest);
    }
  }

  /** `createNodeChainAnchor`: the node's own tip taken as the API tip, then held against its tenure. */
  function CreateNodeChainAnchor(node: NodeInfo, tenure: TenureInfo,
                                 pox: PoxInfo): (r: Result<ChainAnchor, AnchorError>)
    requires pox.rewardCycleLength > 0
    ensures r.Ok? ==>
      && InSchema(r.value)
      && r.value.indexBlockHash == tenure.tipBlockId
      && r.value.stacksBlockHeight == tenure.tipHeight == node.stacksTipHeight
      && r.value.burnBlockHeight == node.burnBlockHeight
      && r.value.rewardCycle == tenure.rewardCycle
  {
    if node.stacksTipHeight != tenure.tipHeight || node.burnBlockHeight != pox.currentBurnHeight then Err(TipsDisagree)
    else
      var anchor := CreateChainAnchor(node, ApiTip(tenure.tipHeight, tenure.tipBlockId, node.burnBlockHeight), pox);
      if anchor.Ok? && anchor.value.rewardCycle != tenure.rewardCycle then Err(TenureDisagrees) else anchor
  }

  // ---------------------------------------------------------------------------------------------
  // The reward calculation an anchor makes due
  // ---------------------------------------------------------------------------------------------

  datatype InvalidReason = OddRewardCycleLength | NoPreviousRewardCycle | InvalidCycleStart | BeforeFirstRewardCycle
  datatype Target =
    | Ready(rewardCycle: int, checkpoint: Checkpoint, expectedBurnHeight: int)
    | Invalid(reason: InvalidReason)

  function DeriveTarget(a: ChainAnchor, first: Option<int>): Target {
    if a.rewardCycleLength % 2 != 0 then Invalid(OddRewardCycleLength)
    else if first.Some? && !(0 <= first.value <= MAX_SAFE_INTEGER) then Invalid(BeforeFirstRewardCycle)
    else
      var cycleStart := a.burnBlockHeight - a.cyclePosition;
      if cycleStart < 0 || cycleStart > MAX_SAFE_INTEGER then Invalid(InvalidCycleStart)
      else if first.Some? && a.rewardCycle < first.value then Invalid(BeforeFirstRewardCycle)
      else if a.checkpoint == SecondHalf then Ready(a.rewardCycle, FirstHalf, cycleStart + a.rewardCycleLength / 2 - 1)
      else if first.Some? && a.rewardCycle == first.value then
        Ready(a.rewardCycle, FirstHalf, cycleStart + a.rewardCycleLength / 2 - 1)
      else if a.rewardCycle == 0 || cycleStart == 0 then Invalid(NoPreviousRewardCycle)
      else Ready(a.rewardCycle - 1, SecondHalf, cycleStart - 1)
  }

  /** Half-cycles counted from the start of reward cycle zero. */
  function HalfIndex(cycle: int, checkpoint: Checkpoint): int {
    2 * cycle + if checkpoint == SecondHalf then 1 else 0
  }

  function ZeroStart(a: ChainAnchor): int {
    a.burnBlockHeight - a.cyclePosition - a.rewardCycle * a.rewardCycleLength
  }

  function HalfOf(a: ChainAnchor): int {
    a.rewardCycleLength / 2
  }

  /** The half-cycle the anchor's burn height lies in. */
  function CurrentHalf(a: ChainAnchor): int
    requires HalfOf(a) > 0
  {
    (a.burnBlockHeight - ZeroStart(a)) / HalfOf(a)
  }

  function TargetHalf(a: ChainAnchor, first: Option<int>): int
    requires HalfOf(a) > 0
  {
    var previous := CurrentHalf(a) - 1;
    if first.Some? && previous < 2 * first.value then 2 * first.value else previous
  }

  lemma CurrentHalfIs(a: ChainAnchor)
    requires InSchema(a) && a.rewardCycleLength % 2 == 0
    ensures HalfOf(a) > 0 && a.rewardCycleLength == 2 * HalfOf(a)
    ensures CurrentHalf(a) == HalfIndex(a.rewardCycle, a.checkpoint)
    ensures ZeroStart(a) + HalfOf(a) * CurrentHalf(a) == a.burnBlockHeight - a.cyclePosition
      + (if a.checkpoint == SecondHalf then HalfOf(a) else 0)
  {
    var h := HalfOf(a);
    var late := if a.checkpoint == SecondHalf then 1 else 0;
    var k := HalfIndex(a.rewardCycle, a.checkpoint);
    var rest := a.cyclePosition - late * h;
    assert a.rewardCycle * a.rewardCycleLength == 2 * a.rewardCycle * h;
    assert a.burnBlockHeight - ZeroStart(a) == k * h + rest by {
      assert k * h == 2 * a.rewardCycle * h + late * h;
    }
    var d := a.burnBlockHeight - ZeroStart(a);
    assert d == h * (d / h) + d % h;
    SplitUnique(h, k, rest, d / h, d % h);
  }

  /**
   A ready target is the half-cycle before the current one, held at the first active cycle's first
   half while that one runs, and the expected height is that half-cycle's last block.
   */
  lemma TargetClosedForm(a: ChainAnchor, first: Option<int>)
    requires InSchema(a) && DeriveTarget(a, first).Ready?
    ensures var t := DeriveTarget(a, first);
      && HalfOf(a) > 0
      && HalfIndex(t.rewardCycle, t.checkpoint) == TargetHalf(a, first)
      && t.expectedBurnHeight == ZeroStart(a) + (TargetHalf(a, first) + 1) * HalfOf(a) - 1
      && (TargetHalf(a, first) < CurrentHalf(a) <==> t.expectedBurnHeight < a.burnBlockHeight)
      && (TargetHalf(a, first) == CurrentHalf(a) <==> first == Some(a.rewardCycle) && a.checkpoint == FirstHalf)
  {
    CurrentHalfIs(a);
    var h, k, t := HalfOf(a), CurrentHalf(a), TargetHalf(a, first);
    assert (t + 1) * h == k * h + (t + 1 - k) * h;
    assert h * k == k * h;
  }

  /** When there is no target, and why. */
  lemma TargetExactlyWhen(a: ChainAnchor, first: Option<int>)
    requires InSchema(a) && a.burnBlockHeight <= MAX_SAFE_INTEGER
    ensures DeriveTarget(a, first).Ready? <==>
      && a.rewardCycleLength % 2 == 0
      && a.cyclePosition <= a.burnBlockHeight
      && (first.Some? ==> 0 <= first.value <= MAX_SAFE_INTEGER && first.value <= a.rewardCycle)
      && TargetHalf(a, first) >= 0
      && (TargetHalf(a, first) < HalfIndex(a.rewardCycle, FirstHalf) ==> a.cyclePosition < a.burnBlockHeight)
  {
    if a.rewardCycleLength % 2 == 0 {
      CurrentHalfIs(a);
    }
  }

  /** Along one chain the target never moves back. */
  lemma TargetsAreMonotone(a: ChainAnchor, b: ChainAnchor, first: Option<int>)
    requires InSchema(a) && InSchema(b)
    requires a.rewardCycleLength == b.rewardCycleLength && ZeroStart(a) == ZeroStart(b)
    requires a.burnBlockHeight <= b.burnBlockHeight
    requires DeriveTarget(a, first).Ready? && DeriveTarget(b, first).Ready?
    ensures var s, t := DeriveTarget(a, first), DeriveTarget(b, first);
      && HalfIndex(s.rewardCycle, s.checkpoint) <= HalfIndex(t.rewardCycle, t.checkpoint)
      && s.expectedBurnHeight <= t.expectedBurnHeight
  {
    TargetClosedForm(a, first);
    TargetClosedForm(b, first);
    DivisionMonotone(a.burnBlockHeight - ZeroStart(a), b.burnBlockHeight - ZeroStart(b), HalfOf(a));
    var i, j := TargetHalf(a, first), TargetHalf(b, first);
    if i < j {
      Multiples(HalfOf(a), i + 1, j + 1);
    }
  }
}
