/** What the receiver of one video stream does with its slices, as a function on the queued frames, and what follows for
    whole runs (src/stmrecver.cpp, lines 69-121, 177-223, 276-313). */
module Reception {
  import opened Sequences
  import opened FrameIds
  import opened FrameQueues
  import opened Segments
  import opened FrameStates
  import opened Arrivals

  /** Three seconds in microseconds. */
  const FRAME_TIMEOUT := 3_000_000

  const QUEUE_SIZE := 60

  /** A slice of a video frame: the frame it belongs to, and a segment. */
  datatype Slice = Slice(fid: nat, srcNum: nat, segment: Segment)

  /** A slice that comes at a time. */
  datatype Event = Event(slice: Slice, now: nat)

  predicate Expired(frm: Frame, now: nat) {
    frm.tick + FRAME_TIMEOUT < now
  }

  /** Frame f and all queued frames that are not later have expired. */
  ghost predicate ExpiredThrough(frames: map<nat, Frame>, now: nat, f: nat) {
    forall g {:trigger frames[g]} :: g in frames && !IsLater(g, f) ==> Expired(frames[g], now)
  }

  /** The frames that are left when the expired ones at the front are gone. */
  ghost function Live(frames: map<nat, Frame>, now: nat): map<nat, Frame> {
    map f | f in frames && !ExpiredThrough(frames, now, f) :: frames[f]
  }

  /** b is the first of the frames. */
  ghost predicate IsFirst(frames: map<nat, Frame>, b: nat) {
    b in frames && forall g {:trigger g in frames} :: g in frames ==> !IsEarlier(g, b)
  }

  /** An id is too old if it is earlier than the first of the queued frames. */
  ghost predicate TooOld(frames: map<nat, Frame>, fid: nat) {
    exists b :: IsFirst(frames, b) && IsEarlier(fid, b)
  }

  /** The queued frame a slice belongs to, or a new one. */
  ghost function FrameFor(frames: map<nat, Frame>, e: Event): Frame {
    if e.slice.fid in frames then frames[e.slice.fid] else Frame(e.slice.fid, false, e.now, e.slice.srcNum, [])
  }

  /** The frames a slice leaves, when those that have expired are gone. */
  ghost function Placed(live: map<nat, Frame>, e: Event): map<nat, Frame> {
    if TooOld(live, e.slice.fid) then live else
    var frm := FrameFor(live, e);
    Kept(live, e.slice.fid, QUEUE_SIZE)[e.slice.fid := if frm.completed then frm else Accept(frm, e.slice.segment, e.now)]
  }

  /** What a slice hands on. */
  ghost function HandedBy(live: map<nat, Frame>, e: Event): seq<Delivery> {
    if TooOld(live, e.slice.fid) || FrameFor(live, e).completed then [] else Handed(FrameFor(live, e), e.slice.segment)
  }

  /** The queued frames after a run. */
  ghost function After(events: seq<Event>): map<nat, Frame>
    decreases |events|, 1
  {
    if events == [] then map[] else Placed(LiveFrames(events), Last(events))
  }

  /** The queued frames when the last slice comes, without the expired ones. */
  ghost function LiveFrames(events: seq<Event>): map<nat, Frame>
    requires events != []
    decreases |events|, 0
  {
    Live(After(Front(events)), Last(events).now)
  }

  /** What a run hands on, in order. */
  ghost function Deliveries(events: seq<Event>): seq<Delivery> {
    if events == [] then [] else Deliveries(Front(events)) + HandedBy(LiveFrames(events), Last(events))
  }

  /** The last slice of a run does not take the slot of fid away. */
  ghost predicate SlotLives(events: seq<Event>, fid: nat)
    requires events != []
  {
    var live, x := LiveFrames(events), Last(events).slice.fid;
    fid in live && (TooOld(live, x) || !Evicts(x, fid, QUEUE_SIZE))
  }

  /** The segments that have come for fid since it got its slot. */
  ghost function Arrived(events: seq<Event>, fid: nat): seq<Segment> {
    if events == [] then [] else
    var e := Last(events);
    (if SlotLives(events, fid) then Arrived(Front(events), fid) else [])
    + if e.slice.fid == fid && !TooOld(LiveFrames(events), fid) then [e.slice.segment] else []
  }

  /** What has been handed on for fid since it got its slot. */
  ghost function HandedSince(events: seq<Event>, fid: nat): seq<Delivery> {
    if events == [] then [] else
    (if SlotLives(events, fid) then HandedSince(Front(events), fid) else [])
    + if Last(events).slice.fid == fid then HandedBy(LiveFrames(events), Last(events)) else []
  }

  /** What must have been handed on after some arrivals: the segments held when the frame first was ready. */
  ghost function Due(arrived: seq<Segment>, fid: nat, srcNum: nat): seq<Delivery> {
    if ReadySegs(InsertAll(arrived), srcNum) then [Delivery(fid, srcNum, InsertAll(arrived[..ReadyAt(arrived, srcNum)]))] else []
  }

  /** A frame, what has come for it since it got its slot, and what was handed on since. */
  ghost predicate InOrder(frm: Frame, fid: nat, arrived: seq<Segment>, handed: seq<Delivery>) {
    && frm.fid == fid && (frm.completed <==> ReadySegs(InsertAll(arrived), frm.srcNum))
    && handed == Due(arrived, fid, frm.srcNum)
    && frm.segs == if frm.completed then [] else InsertAll(arrived)
  }

  lemma NewInOrder(e: Event)
    ensures InOrder(Frame(e.slice.fid, false, e.now, e.slice.srcNum, []), e.slice.fid, [], [])
  {
    NothingReady(e.slice.srcNum);
  }

  /** A segment for a frame that is not complete. */
  lemma AcceptInOrder(frm: Frame, fid: nat, arrived: seq<Segment>, handed: seq<Delivery>, x: Segment, now: nat)
    requires InOrder(frm, fid, arrived, handed) && !frm.completed
    ensures InOrder(Accept(frm, x, now), fid, arrived + [x], handed + Handed(frm, x))
  {
    InsertAllNext(arrived, x);
    if ReadySegs(InsertAll(arrived + [x]), frm.srcNum) {
      ReadyAtLast(arrived, x, frm.srcNum);
    }
  }

  /** A segment for a frame that is complete. */
  lemma CompleteInOrder(frm: Frame, fid: nat, arrived: seq<Segment>, handed: seq<Delivery>, x: Segment)
    requires InOrder(frm, fid, arrived, handed) && frm.completed
    ensures InOrder(frm, fid, arrived + [x], handed + [])
  {
    ReadyAtStays(arrived, x, frm.srcNum);
  }

  /** The slot of a frame that the last slice was not for has been there before. */
  lemma OtherSlot(events: seq<Event>, fid: nat)
    requires events != [] && fid in After(events) && (Last(events).slice.fid != fid || TooOld(LiveFrames(events), fid))
    ensures SlotLives(events, fid) && fid in After(Front(events)) && After(events)[fid] == After(Front(events))[fid]
    ensures Last(events).slice.fid == fid ==> HandedBy(LiveFrames(events), Last(events)) == []
  {
  }

  /** The slot of the frame that the last slice was for: it has been there before exactly if it is live. */
  lemma OwnSlot(events: seq<Event>, fid: nat)
    requires events != [] && Last(events).slice.fid == fid && !TooOld(LiveFrames(events), fid)
    ensures SlotLives(events, fid) <==> fid in LiveFrames(events)
    ensures var frm, e := FrameFor(LiveFrames(events), Last(events)), Last(events);
            && After(events)[fid] == (if frm.completed then frm else Accept(frm, e.slice.segment, e.now))
            && HandedBy(LiveFrames(events), e) == if frm.completed then [] else Handed(frm, e.slice.segment)
  {
  }

  /** For every run of slices, in any order, with duplicates and losses: a frame is handed on exactly once while its
      queue slot lives, with the segments held when it first was ready, and not at all before. */
  lemma {:induction false} HandedOnOnce(events: seq<Event>, fid: nat)
    requires fid in After(events)
    ensures InOrder(After(events)[fid], fid, Arrived(events, fid), HandedSince(events, fid))
    decreases |events|
  {
    var e, front := Last(events), Front(events);
    if e.slice.fid == fid && !TooOld(LiveFrames(events), fid) {
      OwnSlot(events, fid);
      var frm := FrameFor(LiveFrames(events), e);
      var arrived := if SlotLives(events, fid) then Arrived(front, fid) else [];
      var handed := if SlotLives(events, fid) then HandedSince(front, fid) else [];
      assert InOrder(frm, fid, arrived, handed) by {
        if SlotLives(events, fid) {
          HandedOnOnce(front, fid);
        } else {
          NewInOrder(e);
        }
      }
      if frm.completed {
        CompleteInOrder(frm, fid, arrived, handed, e.slice.segment);
      } else {
        AcceptInOrder(frm, fid, arrived, handed, e.slice.segment, e.now);
      }
    } else {
      OtherSlot(events, fid);
      HandedOnOnce(front, fid);
      assert Arrived(events, fid) == Arrived(front, fid) && HandedSince(events, fid) == HandedSince(front, fid);
    }
  }

  /** Once all source symbols have come, whatever the order and however often, the frame has been handed on. */
  lemma HandedOnWhenComplete(events: seq<Event>, fid: nat)
    requires fid in After(events) && After(events)[fid].srcNum >= 1
    requires AllValid(Arrived(events, fid)) && OnlyRepeats(Arrived(events, fid))
    requires AllArrived(Arrived(events, fid), After(events)[fid].srcNum)
    ensures |HandedSince(events, fid)| == 1 && After(events)[fid].completed
  {
    HandedOnOnce(events, fid);
    CompleteIffAllArrived(Arrived(events, fid), After(events)[fid].srcNum);
  }

  /** The deliveries for fid. */
  function For(deliveries: seq<Delivery>, fid: nat): seq<Delivery> {
    if deliveries == [] then [] else For(Front(deliveries), fid) + if Last(deliveries).fid == fid then [Last(deliveries)] else []
  }

  lemma ForNext(deliveries: seq<Delivery>, fid: nat, more: seq<Delivery>)
    requires |more| <= 1
    ensures For(deliveries + more, fid) == For(deliveries, fid) + if more != [] && more[0].fid == fid then more else []
  {
    if more != [] {
      assert Front(deliveries + more) == deliveries && more == [more[0]];
    } else {
      assert deliveries + more == deliveries;
    }
  }

  /** Every queued frame is stored under its id. */
  lemma FidMatches(events: seq<Event>, f: nat)
    requires f in After(events)
    ensures After(events)[f].fid == f
  {
    HandedOnOnce(events, f);
  }

  lemma HandedFor(events: seq<Event>)
    requires events != []
    ensures var e, handed := Last(events), HandedBy(LiveFrames(events), Last(events));
            |handed| <= 1 && (handed != [] ==> handed[0].fid == e.slice.fid)
  {
    var fid := Last(events).slice.fid;
    if fid in LiveFrames(events) {
      FidMatches(Front(events), fid);
    }
  }

  ghost predicate IsSuffix(since: seq<Delivery>, all: seq<Delivery>) {
    |since| <= |all| && all[|all| - |since|..] == since
  }

  lemma SuffixNext(since: seq<Delivery>, all: seq<Delivery>, more: seq<Delivery>)
    requires IsSuffix(since, all)
    ensures IsSuffix(since + more, all + more) && IsSuffix([] + more, all + more)
  {
  }

  /** What was handed on for fid since it got its slot are the last of all deliveries of the run for it. */
  lemma {:induction false} HandedSinceIsLast(events: seq<Event>, fid: nat)
    ensures IsSuffix(HandedSince(events, fid), For(Deliveries(events), fid))
    decreases |events|
  {
    if events != [] {
      var front, e := Front(events), Last(events);
      var handed := HandedBy(LiveFrames(events), e);
      HandedSinceIsLast(front, fid);
      HandedFor(events);
      ForNext(Deliveries(front), fid, handed);
      SuffixNext(HandedSince(front, fid), For(Deliveries(front), fid), if e.slice.fid == fid then handed else []);
    }
  }

  /** When the last slice was taken for fid: since it got its slot, and before it was handed on. */
  ghost function LastTaken(events: seq<Event>, fid: nat): nat {
    if events == [] then 0 else
    var e, front := Last(events), Front(events);
    if e.slice.fid == fid && !TooOld(LiveFrames(events), fid) && !(SlotLives(events, fid) && HandedSince(front, fid) != []) then e.now
    else LastTaken(front, fid)
  }

  /** The tick of a queued frame is the time of the last slice it took. */
  lemma {:induction false} TickIsLastTaken(events: seq<Event>, fid: nat)
    requires fid in After(events)
    ensures After(events)[fid].tick == LastTaken(events, fid)
    decreases |events|
  {
    var e, front := Last(events), Front(events);
    if e.slice.fid == fid && !TooOld(LiveFrames(events), fid) {
      OwnSlot(events, fid);
      if SlotLives(events, fid) {
        TickIsLastTaken(front, fid);
        HandedOnOnce(front, fid);
      }
    } else {
      OtherSlot(events, fid);
      TickIsLastTaken(front, fid);
    }
  }

  /** A slice that comes at time now expires a queued frame exactly if it and all queued frames that are not later have
      taken no slice for three seconds. */
  lemma ExpiresUnserved(events: seq<Event>, now: nat, fid: nat)
    requires fid in After(events)
    ensures fid !in Live(After(events), now) <==>
              forall g: nat {:trigger g in After(events)} :: g in After(events) && !IsLater(g, fid) ==> LastTaken(events, g) + 3_000_000 < now
  {
    forall g: nat | g in After(events)
      ensures Expired(After(events)[g], now) <==> LastTaken(events, g) + 3_000_000 < now
    {
      TickIsLastTaken(events, g);
    }
  }
}
