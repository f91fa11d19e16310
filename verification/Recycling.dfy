/** The reference-counted allocator of src/fmtbuffer.cpp over that of src/fbuffer.cpp, as interleaved steps: one thread
    allocates and recycles, and any thread adds and drops references. A reference dropped to zero is the atomic decrement
    followed, after any steps of other threads, by the locked append to the recycle chain; recycling is a check, one
    step for each slot freed, and the locked removal of the segment. */
module Recycling {
  import opened Sequences
  import opened Chains

  const SEGMENT := 100

  /** The state: free slots in the order of the free list, busy slots, reference counts, slots between the decrement to
      zero and the append, the segments of the chain, and how many slots the recycling under way has freed. */
  datatype Pool = Pool(free: seq<nat>, busy: set<nat>, refs: map<nat, nat>, retiring: set<nat>, segments: seq<seq<nat>>, recycled: int)
  {
    /** Retired slots that are not freed yet, in order. */
    ghost function Pending(): seq<nat>
      requires 0 <= recycled <= |Flat(segments)| || recycled == -1
    {
      if recycled < 0 then Flat(segments) else Flat(segments)[recycled..]
    }

    predicate Live(slot: nat) {
      slot in busy && slot in refs && refs[slot] > 0
    }
  }

  ghost predicate NoRepeats(s: seq<nat>) {
    forall j, k {:trigger s[j], s[k]} :: 0 <= j < k < |s| ==> s[j] != s[k]
  }

  /** A busy slot is exactly one of: live with a positive count, retiring, or pending in the chain. */
  ghost predicate BusyAt(p: Pool, pending: seq<nat>, slot: nat) {
    slot in p.busy ==>
      && slot in p.refs
      && (p.refs[slot] > 0 ==> slot !in p.retiring && slot !in pending)
      && (p.refs[slot] == 0 ==> (slot in p.retiring <==> slot !in pending))
  }

  ghost predicate RecycleShape(p: Pool) {
    p.recycled >= 0 ==> |p.segments| >= 2 && |p.segments[0]| == SEGMENT && p.recycled <= SEGMENT
  }

  /** What every step keeps. */
  ghost predicate Inv(p: Pool) {
    && -1 <= p.recycled <= |Flat(p.segments)| && Shaped(p.segments, SEGMENT) && RecycleShape(p)
    && NoRepeats(p.free) && NoRepeats(p.Pending())
         && (forall slot {:trigger slot in p.busy} :: slot in p.busy ==> slot !in p.free)
         && (forall slot {:trigger slot in p.retiring} :: slot in p.retiring ==> slot in p.busy && slot in p.refs && p.refs[slot] == 0)
         && (forall slot {:trigger slot in p.Pending()} :: slot in p.Pending() ==> slot in p.busy && slot in p.refs && p.refs[slot] == 0)
         && (forall slot: nat {:trigger BusyAt(p, p.Pending(), slot)} :: BusyAt(p, p.Pending(), slot))
  }

  datatype Step = Grow(slots: seq<nat>) | Alloc(slot: nat) | AddRef(slot: nat) | Decrement(slot: nat) | Append(slot: nat) | BeginRecycle | FreeNext | EndRecycle

  /** When a step can happen: the owner gets new slots when none is free, allocates the first free slot and does nothing else while it recycles; a thread
      adds or drops a reference only where there is one. */
  ghost predicate Enabled(p: Pool, step: Step) {
    match step
    case Grow(slots) => p.recycled < 0 && p.free == [] && NoRepeats(slots) && forall slot {:trigger slot in slots} :: slot in slots ==> slot !in p.busy
    case Alloc(slot) => p.recycled < 0 && p.free != [] && slot == p.free[0]
    case AddRef(slot) => p.Live(slot)
    case Decrement(slot) => p.Live(slot)
    case Append(slot) => slot in p.retiring
    case BeginRecycle => p.recycled < 0 && |Flat(p.segments)| > SEGMENT
    case FreeNext => 0 <= p.recycled < SEGMENT
    case EndRecycle => p.recycled == SEGMENT
  }

  /** The state after a step. */
  ghost function After(p: Pool, step: Step): Pool
    requires Inv(p) && Enabled(p, step)
  {
    match step
    case Grow(slots) => p.(free := slots)
    case Alloc(slot) => p.(free := p.free[1..], busy := p.busy + {slot}, refs := p.refs[slot := 1])
    case AddRef(slot) => p.(refs := p.refs[slot := p.refs[slot] + 1])
    case Decrement(slot) =>
      if p.refs[slot] == 1 then p.(refs := p.refs[slot := 0], retiring := p.retiring + {slot}) else p.(refs := p.refs[slot := p.refs[slot] - 1])
    case Append(slot) => p.(retiring := p.retiring - {slot}, segments := Extended(p.segments, slot, SEGMENT))
    case BeginRecycle => p.(recycled := 0)
    case FreeNext =>
      var slot := p.segments[0][p.recycled];
      p.(free := p.free + [slot], busy := p.busy - {slot}, recycled := p.recycled + 1)
    case EndRecycle => p.(segments := p.segments[1..], recycled := -1)
  }

  /** While a recycling is under way, the slots to free next are those of the first segment. */
  lemma PendingFirst(p: Pool)
    requires Inv(p) && 0 <= p.recycled < SEGMENT
    ensures p.Pending() != [] && p.Pending()[0] == p.segments[0][p.recycled]
  {
    FlatAt(p.segments, SEGMENT, 0, p.recycled);
  }

  /** What a step does to the pending slots: an append puts one at the end, a free takes the first, and the removal of
      the segment takes none. No slot is lost, and none is freed twice. */
  lemma PendingAfter(p: Pool, step: Step)
    requires Inv(p) && Enabled(p, step)
    ensures var q := After(p, step);
            && -1 <= q.recycled <= |Flat(q.segments)| && Shaped(q.segments, SEGMENT) && RecycleShape(q)
            && q.Pending() == match step { case Append(slot) => p.Pending() + [slot] case FreeNext => p.Pending()[1..] case _ => p.Pending() }
  {
    match step
    case Append(slot) =>
      PendingAppended(p, slot);
    case BeginRecycle =>
      FlatLength(p.segments, SEGMENT);
    case FreeNext =>
      PendingFirst(p);
    case EndRecycle =>
      PendingRemoved(p);
    case _ =>
  }

  lemma PendingAppended(p: Pool, slot: nat)
    requires -1 <= p.recycled <= |Flat(p.segments)| && Shaped(p.segments, SEGMENT) && RecycleShape(p)
    ensures var q := p.(segments := Extended(p.segments, slot, SEGMENT));
            && q.recycled <= |Flat(q.segments)| && Shaped(q.segments, SEGMENT) && RecycleShape(q)
            && q.Pending() == p.Pending() + [slot]
  {
    ExtendedFlat(p.segments, slot, SEGMENT);
  }

  lemma PendingRemoved(p: Pool)
    requires p.recycled == SEGMENT <= |Flat(p.segments)| && Shaped(p.segments, SEGMENT) && RecycleShape(p)
    ensures Shaped(p.segments[1..], SEGMENT) && Flat(p.segments[1..]) == p.Pending()
  {
    FlatFirst(p.segments);
  }

  lemma PendingHas(pending: seq<nat>, step: Step, after: seq<nat>, slot: nat)
    requires step.Append? ==> after == pending + [step.slot]
    requires step.FreeNext? ==> pending != [] && after == pending[1..] && NoRepeats(pending)
    requires !step.Append? && !step.FreeNext? ==> after == pending
    ensures slot in after <==>
              (slot in pending && !(step.FreeNext? && slot == pending[0])) || (step.Append? && slot == step.slot)
  {
    if step.FreeNext? {
      assert pending == [pending[0]] + after;
    }
  }

  /** Each slot stays in exactly one place. */
  lemma SlotKeeps(p: Pool, step: Step, slot: nat, before: seq<nat>, after: seq<nat>)
    requires Inv(p) && Enabled(p, step) && before == p.Pending()
    requires slot in after <==> (slot in before && !(step.FreeNext? && slot == before[0])) || (step.Append? && slot == step.slot)
    requires step.FreeNext? ==> before != [] && before[0] == p.segments[0][p.recycled]
    ensures var q := After(p, step);
            && BusyAt(q, after, slot)
            && (slot in q.retiring ==> slot in q.busy && slot in q.refs && q.refs[slot] == 0)
            && (slot in after ==> slot in q.busy && slot in q.refs && q.refs[slot] == 0)
  {
    assert BusyAt(p, before, slot);
    match step
    case Grow(_) =>
    case Alloc(x) =>
      assert p.free[0] in p.free;
    case AddRef(x) =>
    case Decrement(x) =>
      assert BusyAt(p, before, x);
    case Append(x) =>
      assert BusyAt(p, before, x);
    case BeginRecycle =>
    case FreeNext =>
      assert before[0] in before;
    case EndRecycle =>
  }

  /** Every step keeps the invariant. */
  lemma StepKeeps(p: Pool, step: Step)
    requires Inv(p) && Enabled(p, step)
    ensures Inv(After(p, step))
  {
    var q := After(p, step);
    PendingAfter(p, step);
    if step.FreeNext? {
      PendingFirst(p);
    }
    var before, after := p.Pending(), q.Pending();
    assert step.FreeNext? ==> NoRepeats(before) by {
    }
    forall slot: nat
      ensures BusyAt(q, after, slot)
      ensures slot in q.retiring ==> slot in q.busy && slot in q.refs && q.refs[slot] == 0
      ensures slot in after ==> slot in q.busy && slot in q.refs && q.refs[slot] == 0
    {
      PendingHas(before, step, after, slot);
      SlotKeeps(p, step, slot, before, after);
    }
    FreeKeeps(p, step);
    PendingNoRepeats(p, step);
  }

  lemma FreeKeeps(p: Pool, step: Step)
    requires Inv(p) && Enabled(p, step)
    ensures var q := After(p, step); NoRepeats(q.free) && forall slot {:trigger slot in q.busy} :: slot in q.busy ==> slot !in q.free
  {
    if step.FreeNext? {
      PendingFirst(p);
      assert p.Pending()[0] in p.Pending();
    }
    if step.Alloc? {
      assert p.free == [p.free[0]] + p.free[1..];
    }
  }

  lemma PendingNoRepeats(p: Pool, step: Step)
    requires Inv(p) && Enabled(p, step)
    requires -1 <= After(p, step).recycled <= |Flat(After(p, step).segments)|
    ensures NoRepeats(After(p, step).Pending())
  {
    PendingAfter(p, step);
    if step.Append? {
      assert BusyAt(p, p.Pending(), step.slot);
    }
  }

  /** What the source asserts when it frees a slot and when it removes a segment. */
  lemma StepSafe(p: Pool)
    requires Inv(p)
    ensures 0 <= p.recycled < SEGMENT ==>
              var slot := p.segments[0][p.recycled]; slot in p.busy && slot in p.refs && p.refs[slot] == 0 && slot !in p.free
    ensures p.recycled == SEGMENT ==> |p.segments| > 1 && |p.segments[0]| == SEGMENT
  {
    if 0 <= p.recycled < SEGMENT {
      PendingFirst(p);
      assert p.Pending()[0] in p.Pending();
    }
  }

  /** The steps can happen one after another: any interleaving of the threads. */
  ghost predicate CanRun(p: Pool, steps: seq<Step>)
    requires Inv(p)
    decreases |steps|, 0
  {
    steps == [] || (CanRun(p, Front(steps)) && Enabled(Final(p, Front(steps)), Last(steps)))
  }

  /** The state after a run; it keeps the invariant. */
  ghost function Final(p: Pool, steps: seq<Step>): (q: Pool)
    requires Inv(p) && CanRun(p, steps)
    ensures Inv(q)
    decreases |steps|, 1
  {
    if steps == [] then p else
    StepKeeps(Final(p, Front(steps)), Last(steps));
    After(Final(p, Front(steps)), Last(steps))
  }

  /** The slots that are retired in a run, in order. */
  ghost function Retired(steps: seq<Step>): seq<nat> {
    if steps == [] then [] else Retired(Front(steps)) + if Last(steps).Append? then [Last(steps).slot] else []
  }

  /** The slots that are freed in a run, in order. */
  ghost function Freed(p: Pool, steps: seq<Step>): seq<nat>
    requires Inv(p) && CanRun(p, steps)
  {
    if steps == [] then [] else
    var q := Final(p, Front(steps));
    Freed(p, Front(steps)) + if Last(steps).FreeNext? then [q.segments[0][q.recycled]] else []
  }

  /** Over a whole run the slots freed and those still pending are exactly those retired, in the same order. */
  lemma {:induction false} NothingLost(p: Pool, steps: seq<Step>)
    requires Inv(p) && CanRun(p, steps)
    ensures p.Pending() + Retired(steps) == Freed(p, steps) + Final(p, steps).Pending()
    decreases |steps|
  {
    if steps != [] {
      var q, step := Final(p, Front(steps)), Last(steps);
      NothingLost(p, Front(steps));
      PendingAfter(q, step);
      if step.FreeNext? {
        PendingFirst(q);
      }
      PendingMoves(p.Pending(), Retired(Front(steps)), Freed(p, Front(steps)), q.Pending(), After(q, step).Pending(), step);
    }
  }

  lemma PendingMoves(start: seq<nat>, retired: seq<nat>, freed: seq<nat>, before: seq<nat>, after: seq<nat>, step: Step)
    requires start + retired == freed + before
    requires step.FreeNext? ==> before != []
    requires after == match step { case Append(slot) => before + [slot] case FreeNext => before[1..] case _ => before }
    ensures start + (retired + if step.Append? then [step.slot] else []) == (freed + if step.FreeNext? then [before[0]] else []) + after
  {
    match step
    case Append(slot) =>
      assert start + (retired + [slot]) == (start + retired) + [slot] == freed + (before + [slot]);
    case FreeNext =>
      assert (freed + [before[0]]) + before[1..] == freed + before;
    case _ =>
      assert retired + [] == retired && freed + [] == freed;
  }

  /** How many of the four places a slot is in: the free list, in use, between the decrement and the append, or in the
      chain and not freed yet. */
  ghost function Places(p: Pool, slot: nat): nat
    requires -1 <= p.recycled <= |Flat(p.segments)|
  {
    (if slot in p.free then 1 else 0) + (if p.Live(slot) then 1 else 0) + (if slot in p.retiring then 1 else 0) + if slot in p.Pending() then 1 else 0
  }

  /** After any run every slot the allocator has got is in exactly one place, and once. */
  lemma EachSlotInOnePlace(p: Pool, steps: seq<Step>, slot: nat)
    requires Inv(p) && CanRun(p, steps)
    ensures var q := Final(p, steps);
            && Places(q, slot) == (if slot in q.free || slot in q.busy then 1 else 0)
            && NoRepeats(q.free) && NoRepeats(q.Pending())
  {
    var q := Final(p, steps);
    assert BusyAt(q, q.Pending(), slot);
  }

  /** All slots lie below the address next. */
  ghost predicate AllBelow(free: seq<nat>, busy: set<nat>, next: nat) {
    (forall slot {:trigger slot in free} :: slot in free ==> slot < next) && (forall slot {:trigger slot in busy} :: slot in busy ==> slot < next)
  }

  class MTFixedSizeAllocator {
    const reservedCnt: nat
    /** The lists of the allocator below, and their counts. */
    var freeHdr: seq<nat>
    var busyHdr: set<nat>
    var freeCnt: nat
    var busyCnt: nat
    /** The address after the last slot. */
    var nextSlot: nat
    var refcnt: map<nat, nat>
    const recycleChain: Chain<nat>
    /** How many slots of the first segment the recycling under way has freed, or -1, and where it is in the chain. */
    var recycled: int
    var looper: Looper
    /** Slots whose count some thread has taken to zero without having appended them yet. */
    ghost var retiring: set<nat>

    ghost function State(): Pool
      reads this, recycleChain
    {
      Pool(freeHdr, busyHdr, refcnt, retiring, recycleChain.segments, recycled)
    }

    ghost predicate Valid()
      reads this, recycleChain
    {
      && recycleChain.Valid() && recycleChain.N == SEGMENT && reservedCnt > 0 && Inv(State())
      && freeCnt == |freeHdr| && busyCnt == |busyHdr|
      && AllBelow(freeHdr, busyHdr, nextSlot)
      && (0 <= recycled < SEGMENT ==> looper == Looper(0, recycled, recycled))
    }

    constructor (reservedCount: nat)
      requires reservedCount > 0
      ensures Valid() && fresh(recycleChain) && State() == Pool([], {}, map[], {}, [], -1)
    {
      reservedCnt, freeHdr, busyHdr, freeCnt, busyCnt := reservedCount, [], {}, 0, 0;
      nextSlot, refcnt, recycled, looper, retiring := 0, map[], -1, Looper(0, 0, 0), {};
      recycleChain := new Chain<nat>(SEGMENT);
      new;
    }

    /** Adds reservedCnt new slots to the empty free list. */
    method Grow() returns (ghost slots: seq<nat>)
      requires Valid() && recycled < 0 && freeHdr == []
      modifies this
      ensures Valid() && freeHdr != [] && Enabled(old(State()), Step.Grow(slots)) && State() == After(old(State()), Step.Grow(slots))
    {
      ghost var p := State();
      var base, newSlots := nextSlot, [];
      for i := 0 to reservedCnt
        invariant |newSlots| == i && forall k {:trigger newSlots[k]} :: 0 <= k < i ==> newSlots[k] == base + k
      {
        newSlots := newSlots + [base + i];
      }
      slots := newSlots;
      GrowBelow(busyHdr, nextSlot, slots);
      StepKeeps(p, Step.Grow(slots));
      freeHdr, freeCnt, nextSlot := newSlots, reservedCnt, nextSlot + reservedCnt;
    }

    /** Hands out the first free slot with one reference. */
    method TakeFirst() returns (slot: nat)
      requires Valid() && recycled < 0 && freeHdr != []
      modifies this
      ensures Valid() && Enabled(old(State()), Step.Alloc(slot)) && State() == After(old(State()), Step.Alloc(slot))
    {
      slot := freeHdr[0];
      StepKeeps(State(), Step.Alloc(slot));
      NewlyBusy(State(), slot);
      MovedBelow(freeHdr, busyHdr, nextSlot, freeHdr[1..], busyHdr + {slot});
      freeHdr, busyHdr, freeCnt, busyCnt := freeHdr[1..], busyHdr + {slot}, freeCnt - 1, busyCnt + 1;
      refcnt := refcnt[slot := 1];
    }

    method Alloc() returns (slot: nat)
      requires Valid() && recycled < 0
      modifies this
      ensures Valid() && State().Live(slot) && refcnt[slot] == 1 && slot !in old(busyHdr) && busyHdr == old(busyHdr) + {slot}
      ensures State().Pending() == old(State()).Pending()
    {
      assert freeHdr == [] ==> State().Pending() == Flat(recycleChain.segments);
      if freeHdr == [] {
        ghost var slots := Grow();
      }
      ghost var p := State();
      slot := TakeFirst();
      NewlyBusy(p, slot);
    }

    method AddRef(slot: nat)
      requires Valid() && State().Live(slot)
      modifies this
      ensures Valid() && State() == After(old(State()), Step.AddRef(slot))
    {
      Referenced(State(), slot);
      refcnt := refcnt[slot := refcnt[slot] + 1];
    }

    /** The atomic decrement of DecRef. */
    method Decrement(slot: nat) returns (cnt: nat)
      requires Valid() && State().Live(slot)
      modifies this
      ensures Valid() && State() == After(old(State()), Step.Decrement(slot))
      ensures cnt == refcnt[slot] && (cnt == 0 <==> slot in retiring)
    {
      Decremented(State(), slot);
      ghost var q := After(State(), Step.Decrement(slot));
      cnt := refcnt[slot] - 1;
      refcnt, retiring := refcnt[slot := cnt], if cnt == 0 then retiring + {slot} else retiring;
      assert State() == q;
    }

    /** The locked append of DecRef, for a slot whose count the thread took to zero. */
    method AppendRetired(slot: nat)
      requires Valid() && slot in retiring
      modifies this, recycleChain
      ensures Valid() && State() == After(old(State()), Step.Append(slot))
    {
      StepKeeps(State(), Step.Append(slot));
      ExtendedFlat(recycleChain.segments, slot, SEGMENT);
      recycleChain.AppendItem(slot);
      retiring := retiring - {slot};
    }

    /** The check at the start of Recycle, which reads the count without the lock. */
    method BeginRecycle() returns (started: bool)
      requires Valid() && recycled < 0
      modifies this
      ensures Valid() && started == (|Flat(recycleChain.segments)| > SEGMENT)
      ensures State() == if started then After(old(State()), Step.BeginRecycle) else old(State())
    {
      started := recycleChain.count > SEGMENT;
      if started {
        StepKeeps(State(), Step.BeginRecycle);
        var loop := recycleChain.GetLooper(0);
        FirstPlace(loop.j, loop.i, 0);
        looper, recycled := loop, 0;
      }
    }

    /** Frees the slot at the looper; the chain may have grown since the step before. */
    method FreeNext()
      requires Valid() && 0 <= recycled < SEGMENT
      modifies this
      ensures Valid() && State() == After(old(State()), Step.FreeNext)
    {
      var slot := recycleChain.segments[looper.j][looper.i];
      FreedNext(State(), slot);
      var next := NextLooper();
      MovedBelow(freeHdr, busyHdr, nextSlot, freeHdr + [slot], busyHdr - {slot});
      freeHdr, busyHdr, freeCnt, busyCnt := freeHdr + [slot], busyHdr - {slot}, freeCnt + 1, busyCnt - 1;
      looper, recycled := next, recycled + 1;
    }

    /** The place after the looper; after the last slot to free it does not matter. */
    method NextLooper() returns (next: Looper)
      requires Valid() && 0 <= recycled < SEGMENT
      ensures recycled + 1 < SEGMENT ==> next == Looper(0, recycled + 1, recycled + 1)
    {
      next := looper;
      if recycled + 1 < SEGMENT {
        NextPlace();
        var more;
        more, next := recycleChain.MoveNextLooper(looper);
        FirstPlace(next.j, next.i, recycled + 1);
      }
    }

    /** The first segment is full and not the last, so the looper stays in it. */
    lemma NextPlace()
      requires Valid() && 0 <= recycled && recycled + 1 < SEGMENT
      ensures looper.idx + 1 < recycleChain.count && |recycleChain.segments[0]| == SEGMENT
    {
      FlatAt(recycleChain.segments, SEGMENT, 0, recycled + 1);
    }

    /** The locked removal of the segment whose slots were freed. */
    method EndRecycle()
      requires Valid() && recycled == SEGMENT
      modifies this, recycleChain
      ensures Valid() && State() == After(old(State()), Step.EndRecycle)
    {
      StepSafe(State());
      StepKeeps(State(), Step.EndRecycle);
      recycleChain.RemoveFirstNSegment(1);
      recycled := -1;
    }

    /** Recycle without steps of other threads in between: it frees the first hundred retired slots, in order. */
    method Recycle()
      requires Valid() && recycled < 0
      modifies this, recycleChain
      ensures Valid() && recycled < 0 && retiring == old(retiring) && refcnt == old(refcnt)
      ensures |old(State().Pending())| <= SEGMENT ==> State() == old(State())
      ensures |old(State().Pending())| > SEGMENT ==>
                && State().Pending() == old(State().Pending())[SEGMENT..]
                && freeHdr == old(freeHdr) + old(State().Pending())[..SEGMENT]
    {
      ghost var pending, free := State().Pending(), freeHdr;
      var started := BeginRecycle();
      if started {
        RecycledInitially(State(), pending, free);
        var cnt := SEGMENT;
        while cnt > 0
          invariant Valid() && recycled == SEGMENT - cnt && 0 <= cnt && retiring == old(retiring) && refcnt == old(refcnt)
          invariant Recycled(State(), pending, free)
        {
          RecycledNext(State(), pending, free);
          FreeNext();
          cnt := cnt - 1;
        }
        RecycledEnd(State(), pending, free);
        EndRecycle();
      }
    }
  }

  /** The slots freed so far are the first that were pending. */
  ghost predicate Recycled(p: Pool, pending: seq<nat>, free: seq<nat>) {
    && 0 <= p.recycled <= SEGMENT < |pending| && p.recycled <= |Flat(p.segments)|
    && p.Pending() == pending[p.recycled..] && p.free == free + pending[..p.recycled]
  }

  lemma RecycledInitially(p: Pool, pending: seq<nat>, free: seq<nat>)
    requires p.recycled == 0 && |pending| > SEGMENT && pending == Flat(p.segments) && p.free == free
    ensures Recycled(p, pending, free)
  {
    assert pending[0..] == pending && free + pending[..0] == free;
  }

  lemma RecycledNext(p: Pool, pending: seq<nat>, free: seq<nat>)
    requires Inv(p) && Enabled(p, FreeNext) && Recycled(p, pending, free)
    ensures Recycled(After(p, FreeNext), pending, free)
  {
    PendingFirst(p);
    PendingAfter(p, FreeNext);
    RecycledGlue(p, After(p, FreeNext), pending, free);
  }

  lemma RecycledGlue(p: Pool, q: Pool, pending: seq<nat>, free: seq<nat>)
    requires Recycled(p, pending, free) && p.recycled < SEGMENT && q.recycled == p.recycled + 1 <= |Flat(q.segments)|
    requires p.Pending() != [] && q.Pending() == p.Pending()[1..] && q.free == p.free + [p.Pending()[0]]
    ensures Recycled(q, pending, free)
  {
    var k := p.recycled;
    assert pending[..k + 1] == pending[..k] + [pending[k]];
  }

  lemma RecycledEnd(p: Pool, pending: seq<nat>, free: seq<nat>)
    requires Inv(p) && Enabled(p, EndRecycle) && Recycled(p, pending, free)
    ensures var q := After(p, EndRecycle);
            q.recycled == -1 && q.Pending() == pending[SEGMENT..] && q.free == free + pending[..SEGMENT]
  {
    PendingAfter(p, EndRecycle);
  }

  lemma FirstPlace(j: nat, i: nat, idx: nat)
    requires idx < SEGMENT && idx == j * SEGMENT + i
    ensures j == 0 && i == idx
  {
  }

  lemma GrowBelow(busy: set<nat>, next: nat, slots: seq<nat>)
    requires AllBelow([], busy, next) && forall k {:trigger slots[k]} :: 0 <= k < |slots| ==> slots[k] == next + k
    ensures NoRepeats(slots) && forall slot {:trigger slot in slots} :: slot in slots ==> slot !in busy
    ensures AllBelow(slots, busy, next + |slots|)
  {
  }

  lemma MovedBelow(free: seq<nat>, busy: set<nat>, next: nat, free': seq<nat>, busy': set<nat>)
    requires AllBelow(free, busy, next)
    requires forall slot :: slot in free' ==> slot in free || slot in busy
    requires forall slot :: slot in busy' ==> slot in free || slot in busy
    ensures AllBelow(free', busy', next)
  {
  }

  lemma NewlyBusy(p: Pool, slot: nat)
    requires Inv(p) && p.free != [] && slot == p.free[0]
    ensures slot !in p.busy
  {
    assert slot in p.free;
  }

  lemma Referenced(p: Pool, slot: nat)
    requires Inv(p) && p.Live(slot)
    ensures var q := p.(refs := p.refs[slot := p.refs[slot] + 1]); q == After(p, Step.AddRef(slot)) && Inv(q)
  {
    StepKeeps(p, Step.AddRef(slot));
  }

  lemma Decremented(p: Pool, slot: nat)
    requires Inv(p) && p.Live(slot)
    ensures var cnt: nat := p.refs[slot] - 1;
            var q := p.(refs := p.refs[slot := cnt], retiring := if cnt == 0 then p.retiring + {slot} else p.retiring);
            q == After(p, Step.Decrement(slot)) && Inv(q) && (cnt == 0 <==> slot in q.retiring)
  {
    StepKeeps(p, Step.Decrement(slot));
    LiveIsNotRetiring(p, slot);
  }

  /** The assertion that a slot to free is busy and has no references holds. */
  lemma FreedNext(p: Pool, slot: nat)
    requires Inv(p) && 0 <= p.recycled < SEGMENT && slot == p.segments[0][p.recycled]
    ensures slot in p.busy && slot in p.refs && p.refs[slot] == 0
    ensures var q := p.(free := p.free + [slot], busy := p.busy - {slot}, recycled := p.recycled + 1); q == After(p, Step.FreeNext) && Inv(q)
  {
    StepSafe(p);
    StepKeeps(p, Step.FreeNext);
  }

  lemma LiveIsNotRetiring(p: Pool, slot: nat)
    requires Inv(p) && p.Live(slot)
    ensures slot !in p.retiring
  {
    assert BusyAt(p, p.Pending(), slot);
  }
}
