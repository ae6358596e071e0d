/** Background contract reads: a slot-passing limit of eight, and a cache per node and tip. */
module ContractReads {
  import opened Wrappers

  const MAX_ENTRIES := 512
  const MAX_AGE_MS := 5 * 60_000
  const MAX_CONCURRENT_READS := 8

  type Node = nat
  type Tip = nat

  /** A method with all its arguments; the encoding that keys the cache is taken as injective. */
  type Key = nat

  datatype Phase = Queued | Granted | Reading | Done(ok: bool)

  /** A limited read: what it was issued for, and how far it is. */
  datatype Read = Read(node: Node, tip: Tip, key: Key, phase: Phase)

  /** The map one generation of wrappers shares. */
  datatype Generation = Generation(node: Node, tip: Tip, createdAt: int, entries: map<Key, nat>)

  datatype Event =
    | Wraps(node: Node, tip: Tip, now: int)
    | Asks(generation: nat, key: Key, pinned: Option<Tip>)
    | Resumes(id: nat, cancelled: bool)
    | Settles(id: nat, ok: bool)
    | Evicts(generation: nat, id: nat)
    | Clears

  ghost predicate SameTargets(before: seq<Read>, after: seq<Read>) {
    |before| <= |after| && forall i :: 0 <= i < |before| ==> after[i].(phase := Queued) == before[i].(phase := Queued)
  }

  predicate HasSlot(r: Read) {
    r.phase == Granted || r.phase == Reading
  }

  function Slots(issued: seq<Read>): nat {
    if |issued| == 0 then 0 else Slots(issued[..|issued| - 1]) + if HasSlot(issued[|issued| - 1]) then 1 else 0
  }

  lemma {:induction false} SlotsAfterUpdate(issued: seq<Read>, i: nat, r: Read)
    requires i < |issued|
    ensures Slots(issued[i := r]) == Slots(issued) - (if HasSlot(issued[i]) then 1 else 0)
      + (if HasSlot(r) then 1 else 0)
  {
    var last := |issued| - 1;
    if i < last {
      SlotsAfterUpdate(issued[..last], i, r);
      assert issued[i := r][..last] == issued[..last][i := r];
    } else {
      assert issued[i := r][..last] == issued[..last];
    }
  }

  lemma SlotsAfterAppend(issued: seq<Read>, r: Read)
    ensures Slots(issued + [r]) == Slots(issued) + if HasSlot(r) then 1 else 0
  {
    assert (issued + [r])[..|issued|] == issued;
  }

  /** The queue holds exactly the queued reads, each once. */
  ghost predicate QueueFits(issued: seq<Read>, waiting: seq<nat>) {
    && (forall i :: 0 <= i < |waiting| ==> waiting[i] < |issued| && issued[waiting[i]].phase == Queued)
    && (forall i, j :: 0 <= i < j < |waiting| ==> waiting[i] != waiting[j])
    && (forall id :: 0 <= id < |issued| && issued[id].phase == Queued ==> id in waiting)
  }

  /** Nobody overtakes a waiting read: every read issued after it waits too, behind it. */
  ghost predicate InOrder(issued: seq<Read>, waiting: seq<nat>) {
    && (forall a, b :: 0 <= a < b < |issued| && issued[a].phase == Queued ==> issued[b].phase == Queued)
    && (forall i, j :: 0 <= i < j < |waiting| ==> waiting[i] < waiting[j])
  }

  /** The reads that were ever handed a slot: none of them waits, and every granted one is among them. */
  ghost predicate HandedFits(issued: seq<Read>, handedOver: seq<nat>) {
    && (forall i :: 0 <= i < |handedOver| ==> handedOver[i] < |issued| && issued[handedOver[i]].phase != Queued)
    && (forall id :: 0 <= id < |issued| && issued[id].phase == Granted ==> id in handedOver)
  }

  /** Every cached read was issued for its generation's node and tip and its own key. */
  ghost predicate CacheFits(issued: seq<Read>, generations: seq<Generation>) {
    forall g :: 0 <= g < |generations| ==>
      && |generations[g].entries| <= MAX_ENTRIES
      && forall k :: k in generations[g].entries ==>
           && generations[g].entries[k] < |issued|
           && IssuedFor(issued[generations[g].entries[k]], generations[g], k)
  }

  /** A generation still serves a node and tip for five minutes of a clock that has not gone back. */
  predicate Fits(g: Generation, node: Node, tip: Tip, now: int) {
    g.node == node && g.tip == tip && now >= g.createdAt && now - g.createdAt < MAX_AGE_MS
  }

  predicate IssuedFor(r: Read, g: Generation, key: Key) {
    r.node == g.node && r.tip == g.tip && r.key == key
  }

  lemma CacheOutlivesUpdate(issued: seq<Read>, generations: seq<Generation>, i: nat, phase: Phase)
    requires CacheFits(issued, generations) && i < |issued|
    ensures CacheFits(issued[i := issued[i].(phase := phase)], generations)
  {
  }

  class BackgroundContractReads {
    var issued: seq<Read>
    var generations: seq<Generation>
    /** The current generation, if not cleared. */
    var current: Option<nat>
    var active: nat
    var waiting: seq<nat>
    /** Every read that ever had to queue, in order of arrival, and those that were handed a slot. */
    ghost var queued: seq<nat>
    ghost var handedOver: seq<nat>

    ghost predicate Valid()
      reads this
    {
      && active == Slots(issued) <= MAX_CONCURRENT_READS
      && (waiting != [] ==> active == MAX_CONCURRENT_READS)
      && QueueFits(issued, waiting) && InOrder(issued, waiting) && HandedFits(issued, handedOver)
      && queued == handedOver + waiting
      && CacheFits(issued, generations)
      && (current.Some? ==> current.value < |generations|)
    }

    constructor ()
      ensures Valid() && issued == [] && generations == []
    {
      issued, generations, current, active, waiting := [], [], None, 0, [];
      queued, handedOver := [], [];
    }

    method Clear()
      requires Valid()
      modifies `current
      ensures Valid() && current.None?
    {
      current := None;
    }

    /** `at`: the generation a new wrapper shares; a fresh one unless node, tip and age all fit. */
    method At(node: Node, tip: Tip, now: int) returns (g: nat)
      requires Valid()
      modifies `generations, `current
      ensures Valid() && current == Some(g) && g < |generations|
      ensures generations[g].node == node && generations[g].tip == tip
        && 0 <= now - generations[g].createdAt < MAX_AGE_MS
      ensures if old(current).Some? && Fits(old(generations)[old(current).value], node, tip, now)
        then generations == old(generations) && current == old(current)
        else generations == old(generations) + [Generation(node, tip, now, map[])]
    {
      if current.Some? {
        if Fits(generations[current.value], node, tip, now) {
          return current.value;
        }
      }
      generations := generations + [Generation(node, tip, now, map[])];
      g := |generations| - 1;
      current := Some(g);
    }

    /**
     A wrapper's read. A read pinned to the wrapper's own tip goes through its generation's cache and
     the limit; any other is issued directly and touches neither (None).
     */
    method ReadThrough(g: nat, key: Key, tip: Option<Tip>) returns (id: Option<nat>)
      requires Valid() && g < |generations|
      modifies `issued, `generations, `active, `waiting, `queued
      ensures Valid() && SameTargets(old(issued), issued) && old(queued) <= queued
      ensures id.Some? <==> tip == Some(old(generations)[g].tip)
      ensures id.None? ==>
        issued == old(issued) && generations == old(generations) && active == old(active) && waiting == old(waiting)
      ensures id.Some? ==> id.value < |issued| && IssuedFor(issued[id.value], old(generations)[g], key)
      ensures id.Some? && key in old(generations)[g].entries ==>
        id.value == old(generations)[g].entries[key] && issued == old(issued) && generations == old(generations)
      ensures id.Some? && key !in old(generations)[g].entries ==> id.value == |old(issued)| == |issued| - 1
      ensures id.Some? && key !in old(generations)[g].entries ==>
        generations == if |old(generations)[g].entries| < MAX_ENTRIES
          then old(generations)[g := old(generations)[g].(entries := old(generations)[g].entries[key := id.value])]
          else old(generations)
    {
      hide CacheFits, QueueFits, Slots, InOrder, HandedFits;
      var shared := generations[g];
      if tip != Some(shared.tip) {
        return None;
      }
      if key in shared.entries {
        CachedRead(issued, generations, g, key);
        return Some(shared.entries[key]);
      }
      var entered := Enqueue(Read(shared.node, shared.tip, key, Queued));
      id := Some(entered);
      if |shared.entries| < MAX_ENTRIES {
        CacheGains(issued, generations, g, key, entered);
        generations := generations[g := shared.(entries := shared.entries[key := entered])];
      }
    }

    /** `run` up to its first await: a free slot is taken at once, otherwise the read queues. */
    method Enqueue(r: Read) returns (id: nat)
      requires Valid()
      modifies `issued, `active, `waiting, `queued
      ensures Valid() && old(queued) <= queued
      ensures id == |old(issued)|
      ensures issued == old(issued) + [r.(phase := if old(active) < MAX_CONCURRENT_READS then Reading else Queued)]
      ensures waiting == if old(active) < MAX_CONCURRENT_READS then old(waiting) else old(waiting) + [id]
      ensures active == if old(active) < MAX_CONCURRENT_READS then old(active) + 1 else old(active)
    {
      hide CacheFits, QueueFits, Slots, InOrder, HandedFits;
      id := |issued|;
      var entered := r.(phase := if active < MAX_CONCURRENT_READS then Reading else Queued);
      SlotsAfterAppend(issued, entered);
      CacheOutlivesAppend(issued, generations, entered);
      QueueAfterAppend(issued, waiting, entered);
      OrderAfterAppend(issued, waiting, entered);
      HandedAfterAppend(issued, handedOver, entered);
      if active < MAX_CONCURRENT_READS {
        active := active + 1;
      } else {
        waiting := waiting + [id];
        queued := queued + [id];
        assert queued == handedOver + waiting;
      }
      issued := issued + [entered];
    }

    /** A queued read resumes with the slot it was handed; a cancelled one gives it on unused. */
    method Resume(id: nat, cancelled: bool)
      requires Valid() && id < |issued| && issued[id].phase == Granted
      modifies `issued, `active, `waiting, `handedOver
      ensures Valid()
      ensures !cancelled ==>
        && issued == old(issued)[id := old(issued)[id].(phase := Reading)]
        && waiting == old(waiting) && active == old(active)
      ensures SameTargets(old(issued), issued) && old(handedOver) <= handedOver
      ensures |issued| == |old(issued)| && (cancelled ==> issued[id].phase == Done(false))
    {
      if cancelled {
        Finish(id, false);
        return;
      }
      hide CacheFits, QueueFits, Slots, InOrder, HandedFits;
      SlotsAfterUpdate(issued, id, issued[id].(phase := Reading));
      CacheOutlivesUpdate(issued, generations, id, Reading);
      QueueOutlivesUpdate(issued, waiting, id, Reading);
      OrderOutlivesUpdate(issued, waiting, handedOver, id, Reading);
      issued := issued[id := issued[id].(phase := Reading)];
    }

    /** A read settles: its slot goes to the longest-waiting read, or is given back. */
    method Finish(id: nat, ok: bool)
      requires Valid() && id < |issued| && HasSlot(issued[id])
      modifies `issued, `active, `waiting, `handedOver
      ensures Valid() && |issued| == |old(issued)| && SameTargets(old(issued), issued)
      ensures issued[id] == old(issued)[id].(phase := Done(ok))
      ensures old(waiting) == [] ==> active == old(active) - 1 && waiting == [] && handedOver == old(handedOver)
      ensures old(waiting) != [] ==>
        && active == old(active) && waiting == old(waiting)[1..]
        && handedOver == old(handedOver) + [old(waiting)[0]] && issued[old(waiting)[0]].phase == Granted
      ensures forall k :: 0 <= k < |issued| && k != id && (old(waiting) == [] || k != old(waiting)[0]) ==>
        issued[k] == old(issued)[k]
    {
      hide CacheFits, Slots, InOrder, HandedFits, QueueFits;
      SlotsAfterUpdate(issued, id, issued[id].(phase := Done(ok)));
      CacheOutlivesUpdate(issued, generations, id, Done(ok));
      QueueOutlivesUpdate(issued, waiting, id, Done(ok));
      OrderOutlivesUpdate(issued, waiting, handedOver, id, Done(ok));
      issued := issued[id := issued[id].(phase := Done(ok))];
      if waiting == [] {
        active := active - 1;
      } else {
        HandOver();
      }
    }

    /** The longest-waiting read takes over the slot that has just been given up. */
    method HandOver()
      requires waiting != [] && active == Slots(issued) + 1 == MAX_CONCURRENT_READS
      requires QueueFits(issued, waiting) && InOrder(issued, waiting) && HandedFits(issued, handedOver)
      requires CacheFits(issued, generations) && queued == handedOver + waiting
      requires current.Some? ==> current.value < |generations|
      modifies `issued, `waiting, `handedOver
      ensures Valid() && waiting == old(waiting)[1..] && handedOver == old(handedOver) + [old(waiting)[0]]
      ensures old(waiting)[0] < |old(issued)| && old(issued)[old(waiting)[0]].phase == Queued
      ensures issued == old(issued)[old(waiting)[0] := old(issued)[old(waiting)[0]].(phase := Granted)]
    {
      QueueHead(issued, waiting);
      hide CacheFits, Slots, InOrder, HandedFits, QueueFits;
      var next := waiting[0];
      SlotsAfterUpdate(issued, next, issued[next].(phase := Granted));
      CacheOutlivesUpdate(issued, generations, next, Granted);
      QueueAfterHandover(issued, waiting);
      OrderAfterHandover(issued, waiting, handedOver);
      QueueShifts(handedOver, waiting);
      issued := issued[next := issued[next].(phase := Granted)];
      handedOver := handedOver + [next];
      waiting := waiting[1..];
    }

    /** The rejection handler: a failed read leaves its generation's cache, if it is still the one there. */
    method Evict(g: nat, id: nat)
      requires Valid() && g < |generations| && id < |issued| && issued[id].phase == Done(false)
      modifies `generations
      ensures Valid()
      ensures var key := issued[id].key; var entries := old(generations)[g].entries;
        generations == if key in entries && entries[key] == id
          then old(generations)[g := old(generations)[g].(entries := entries - {key})] else old(generations)
    {
      hide QueueFits, Slots, InOrder, HandedFits;
      var key, entries := issued[id].key, generations[g].entries;
      if key in entries && entries[key] == id {
        assert |entries - {key}| <= |entries|;
        generations := generations[g := generations[g].(entries := entries - {key})];
      }
    }

    /**
     Any interleaving of wrappers, reads, resumptions, settlements, evictions and clears; nothing issued
     changes its target.
     */
    method RunEvents(events: seq<Event>)
      requires Valid()
      modifies this
      ensures Valid()
      ensures SameTargets(old(issued), issued) && old(queued) <= queued && old(handedOver) <= handedOver
      ensures forall a, b :: 0 <= a < b < |issued| && issued[a].phase == Queued ==>
        issued[b].phase == Queued && b !in handedOver
    {
      hide CacheFits, QueueFits, Slots, InOrder, HandedFits;
      for n := 0 to |events|
        invariant Valid()
        invariant SameTargets(old(issued), issued) && old(queued) <= queued && old(handedOver) <= handedOver
      {
        match events[n] {
          case Wraps(node, tip, now) => var _ := At(node, tip, now);
          case Asks(g, key, tip) =>
            if g < |generations| {
              var _ := ReadThrough(g, key, tip);
            }
          case Resumes(id, cancelled) =>
            if id < |issued| && issued[id].phase == Granted {
              Resume(id, cancelled);
            }
          case Settles(id, ok) =>
            if id < |issued| && issued[id].phase == Reading {
              Finish(id, ok);
            }
          case Evicts(g, id) =>
            if g < |generations| && id < |issued| && issued[id].phase == Done(false) {
              Evict(g, id);
            }
          case Clears => Clear();
        }
      }
      forall a, b | 0 <= a < b < |issued| && issued[a].phase == Queued
        ensures issued[b].phase == Queued && b !in handedOver
      {
        NobodyOvertakes(a, b);
      }
    }

    /** First in, first out: while a read waits, no read issued after it has, or has had, a slot. */
    lemma NobodyOvertakes(a: nat, b: nat)
      requires Valid() && a < b < |issued| && issued[a].phase == Queued
      ensures issued[b].phase == Queued && b !in handedOver && a in waiting && b in waiting
      ensures forall i, j :: 0 <= i < |waiting| && 0 <= j < |waiting| && waiting[i] == a && waiting[j] == b ==> i < j
    {
    }

    /** Slots never leak: once every read is settled none is taken and nobody waits. */
    lemma NoSlotLeaks()
      requires Valid() && forall id :: 0 <= id < |issued| ==> issued[id].phase.Done?
      ensures active == 0 && waiting == []
    {
      AllDoneNoSlots(issued);
    }
  }

  lemma {:induction false} AllDoneNoSlots(issued: seq<Read>)
    requires forall id :: 0 <= id < |issued| ==> issued[id].phase.Done?
    ensures Slots(issued) == 0
  {
    if |issued| > 0 {
      AllDoneNoSlots(issued[..|issued| - 1]);
    }
  }

  lemma CachedRead(issued: seq<Read>, generations: seq<Generation>, g: nat, key: Key)
    requires CacheFits(issued, generations) && g < |generations| && key in generations[g].entries
    ensures generations[g].entries[key] < |issued|
      && IssuedFor(issued[generations[g].entries[key]], generations[g], key)
  {
  }

  lemma CacheGains(issued: seq<Read>, generations: seq<Generation>, g: nat, key: Key, id: nat)
    requires CacheFits(issued, generations) && g < |generations| && id < |issued|
    requires IssuedFor(issued[id], generations[g], key) && key !in generations[g].entries
      && |generations[g].entries| < MAX_ENTRIES
    ensures CacheFits(issued, generations[g := generations[g].(entries := generations[g].entries[key := id])])
  {
    var entries := generations[g].entries;
    assert |entries[key := id]| == |entries| + 1;
  }

  lemma CacheOutlivesAppend(issued: seq<Read>, generations: seq<Generation>, r: Read)
    requires CacheFits(issued, generations)
    ensures CacheFits(issued + [r], generations)
  {
    forall g, k | 0 <= g < |generations| && k in generations[g].entries
      ensures IssuedFor((issued + [r])[generations[g].entries[k]], generations[g], k)
    {
      CachedRead(issued, generations, g, k);
    }
  }

  lemma QueueShifts(handedOver: seq<nat>, waiting: seq<nat>)
    requires waiting != []
    ensures (handedOver + [waiting[0]]) + waiting[1..] == handedOver + waiting
  {
  }

  lemma QueueHead(issued: seq<Read>, waiting: seq<nat>)
    requires QueueFits(issued, waiting)
    ensures waiting != [] ==> waiting[0] < |issued| && issued[waiting[0]].phase == Queued
  {
  }

  lemma QueueAfterAppend(issued: seq<Read>, waiting: seq<nat>, r: Read)
    requires QueueFits(issued, waiting)
    ensures QueueFits(issued + [r], if r.phase == Queued then waiting + [|issued|] else waiting)
  {
    var after := issued + [r];
    var queue := if r.phase == Queued then waiting + [|issued|] else waiting;
    forall id | 0 <= id < |after| && after[id].phase == Queued ensures id in queue {
      if id < |issued| {
        assert id in waiting;
      } else {
        assert queue[|queue| - 1] == id;
      }
    }
    forall i, j | 0 <= i < j < |queue| ensures queue[i] != queue[j] {
      assert i < |waiting| ==> queue[i] == waiting[i] < |issued|;
      assert j < |waiting| ==> queue[j] == waiting[j] < |issued|;
    }
  }

  lemma OrderAfterAppend(issued: seq<Read>, waiting: seq<nat>, r: Read)
    requires QueueFits(issued, waiting) && InOrder(issued, waiting) && (r.phase == Queued || waiting == [])
    ensures InOrder(issued + [r], if r.phase == Queued then waiting + [|issued|] else waiting)
  {
    forall a | 0 <= a < |issued| && r.phase != Queued ensures issued[a].phase != Queued {
      assert issued[a].phase == Queued ==> a in waiting;
    }
  }

  lemma HandedAfterAppend(issued: seq<Read>, handedOver: seq<nat>, r: Read)
    requires HandedFits(issued, handedOver) && r.phase != Granted
    ensures HandedFits(issued + [r], handedOver)
  {
  }

  lemma OrderOutlivesUpdate(issued: seq<Read>, waiting: seq<nat>, handedOver: seq<nat>, id: nat, phase: Phase)
    requires InOrder(issued, waiting) && HandedFits(issued, handedOver)
    requires id < |issued| && issued[id].phase != Queued && phase != Queued && phase != Granted
    ensures InOrder(issued[id := issued[id].(phase := phase)], waiting)
    ensures HandedFits(issued[id := issued[id].(phase := phase)], handedOver)
  {
  }

  lemma OrderAfterHandover(issued: seq<Read>, waiting: seq<nat>, handedOver: seq<nat>)
    requires QueueFits(issued, waiting) && InOrder(issued, waiting) && HandedFits(issued, handedOver) && waiting != []
    ensures var after := issued[waiting[0] := issued[waiting[0]].(phase := Granted)];
      InOrder(after, waiting[1..]) && HandedFits(after, handedOver + [waiting[0]])
  {
    var next := waiting[0];
    var after := issued[next := issued[next].(phase := Granted)];
    forall a, b | 0 <= a < b < |after| && after[a].phase == Queued ensures after[b].phase == Queued {
      assert issued[a].phase == Queued && a in waiting && a != next;
      var i :| 0 <= i < |waiting| && waiting[i] == a;
      assert next < a;
    }
    forall id | 0 <= id < |after| && after[id].phase == Granted ensures id in handedOver + [next] {
      assert id == next || issued[id].phase == Granted;
    }
  }

  lemma QueueOutlivesUpdate(issued: seq<Read>, waiting: seq<nat>, id: nat, phase: Phase)
    requires QueueFits(issued, waiting) && id < |issued| && issued[id].phase != Queued && phase != Queued
    ensures QueueFits(issued[id := issued[id].(phase := phase)], waiting)
  {
  }

  lemma QueueAfterHandover(issued: seq<Read>, waiting: seq<nat>)
    requires QueueFits(issued, waiting) && waiting != []
    ensures QueueFits(issued[waiting[0] := issued[waiting[0]].(phase := Granted)], waiting[1..])
  {
    var next, rest := waiting[0], waiting[1..];
    var after := issued[next := issued[next].(phase := Granted)];
    forall id | 0 <= id < |after| && after[id].phase == Queued ensures id in rest {
      assert id in waiting && id != next;
      var i :| 0 <= i < |waiting| && waiting[i] == id;
      assert rest[i - 1] == id;
    }
  }
}
