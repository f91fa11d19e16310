/** The receiver of one video stream: expiry, the frame queue, the segments of each frame, and handing each frame on
    once (src/stmrecver.cpp, lines 69-121, 177-223, 276-313). */
module Receivers {
  import opened Sequences
  import opened Options
  import opened FrameIds
  import opened FrameWindows
  import opened FrameLoops
  import opened FrameQueues
  import opened Releases
  import opened FrameStates
  import opened Reception

  function ObsoleteFrameVisitor(now: nat): Visitor<Frame> {
    (frm: Frame, fid: nat) => if frm.tick + FRAME_TIMEOUT < now then DeletedContinue else Stop
  }

  /** The visitor never lets the loop go on after a frame it keeps. */
  lemma ExpiryIsPrefix(s: seq<Slot<Frame>>, now: nat)
    ensures PrefixVisitor(s, ObsoleteFrameVisitor(now))
  {
  }

  /** In a window being later is being farther from its begin. */
  lemma LaterInWindow(s: seq<Slot<Frame>>, f: nat, g: nat)
    requires Window(s) && f in Frames(s) && g in Frames(s)
    ensures IsLater(g, f) <==> Distance(g, s[0].fid) > Distance(f, s[0].fid)
  {
    DistanceAhead(f, s[0].fid);
    DistanceAhead(g, s[0].fid);
    DistanceFrom(g, s[0].fid, Distance(f, s[0].fid));
  }

  lemma ExpiredThroughAt(s: seq<Slot<Frame>>, now: nat, f: nat)
    requires Window(s) && f in Frames(s)
    ensures ExpiredThrough(Frames(s), now, f) <==>
            forall g: nat {:trigger Lookup(s, g)} :: g < WRAP && Lookup(s, g).Some? && Distance(g, s[0].fid) <= Distance(f, s[0].fid) ==>
              Deletes(ObsoleteFrameVisitor(now)(Lookup(s, g).value, g))
  {
    forall g: nat | g < WRAP && Lookup(s, g).Some?
      ensures g in Frames(s) && Frames(s)[g] == Lookup(s, g).value
      ensures IsLater(g, f) <==> Distance(g, s[0].fid) > Distance(f, s[0].fid)
    {
      LaterInWindow(s, f, g);
    }
  }

  /** The slots from the first frame that has not expired hold the live frames. */
  lemma ExpiryLeaves(s: seq<Slot<Frame>>, now: nat)
    requires Window(s)
    ensures Frames(s[FirstKept(s, ObsoleteFrameVisitor(now), 0)..]) == Live(Frames(s), now)
  {
    var visit := ObsoleteFrameVisitor(now);
    var t := s[FirstKept(s, visit, 0)..];
    if s != [] {
      forall f | f in Frames(s) || f in Frames(t)
        ensures f in Frames(t) ==> f in Frames(s) && Frames(t)[f] == Frames(s)[f]
        ensures f in Frames(s) ==> (f !in Frames(t) <==> ExpiredThrough(Frames(s), now, f))
      {
        LoopFramesKept(s, visit, f);
        if f in Frames(s) {
          ExpiredThroughAt(s, now, f);
        }
      }
    }
  }

  /** The first slot of a window holds the first frame. */
  lemma FirstOfWindow(s: seq<Slot<Frame>>, b: nat)
    requires Window(s) && s != []
    ensures IsFirst(Frames(s), b) <==> b == s[0].fid
  {
    var first := s[0].fid;
    LookupSlot(s, 0);
    forall g | g in Frames(s)
      ensures !IsEarlier(g, first) && (g == first || IsEarlier(first, g))
    {
      DistanceReversed(g, first);
      DistanceAhead(g, first);
    }
    assert first in Frames(s);
    if IsFirst(Frames(s), b) {
      assert b == first || IsEarlier(first, b);
    }
  }

  lemma TooOldInWindow(s: seq<Slot<Frame>>, fid: nat)
    requires Window(s)
    ensures TooOld(Frames(s), fid) <==> s != [] && IsEarlier(fid, s[0].fid)
  {
    if s != [] {
      FirstOfWindow(s, s[0].fid);
      forall b | IsFirst(Frames(s), b)
        ensures b == s[0].fid
      {
        FirstOfWindow(s, b);
      }
    }
  }

  /** The id is not exactly half the range away from the only queued frame. */
  ghost predicate Placeable(frames: map<nat, Frame>, fid: nat) {
    forall f {:trigger f in frames} :: frames.Keys == {f} ==> Distance(fid, f) != 0x8000
  }

  lemma OnlySlot(s: seq<Slot<Frame>>)
    requires Window(s) && |s| == 1
    ensures Frames(s).Keys == {s[0].fid}
  {
    LookupSlot(s, 0);
    SingleFrame(s[0]);
    assert s == [s[0]];
  }

  class StreamRecver {
    const frames: FrameQueue<Frame>
    /** The queued frames. */
    ghost var held: map<nat, Frame>
    /** All slices so far. */
    ghost var history: seq<Event>

    /** The queue holds the frames m. */
    ghost predicate Queued(m: map<nat, Frame>)
      reads frames, frames.queue, frames.queue.buffer
    {
      frames.Valid() && frames.queue.buffer.Length == QUEUE_SIZE && frames.Contents() == m
    }

    /** p is the place of the slot for id fid, which holds frm. */
    ghost predicate SlotFor(fid: nat, p: int, frm: Frame)
      reads frames, frames.queue, frames.queue.buffer
    {
      && 0 <= p < frames.queue.buffer.Length && frames.queue.buffer[p].body == frm
      && frames.queue.Valid() && Distance(fid, frames.fidBegin) <= frames.queue.buffer.Length
           && p == frames.queue.Place(Distance(fid, frames.fidBegin))
    }

    /** The queue holds the frames that the slices so far leave. */
    ghost predicate Valid()
      reads this, frames, frames.queue, frames.queue.buffer
    {
      Queued(held) && held == After(history)
    }

    constructor ()
      ensures Valid() && history == [] && fresh(frames) && fresh(frames.queue) && fresh(frames.queue.buffer)
    {
      frames := new FrameQueue<Frame>(QUEUE_SIZE);
      held, history := map[], [];
    }

    /** Releases the frames at the front that no segment has come for in three seconds, up to the first that is not so
        old, each once. */
    method ObsoleteFrames(now: nat) returns (released: seq<Slot<Frame>>)
      requires Queued(held)
      modifies `held, frames, frames.queue, frames.queue.buffer
      ensures Queued(held) && held == Live(old(held), now)
      ensures Enumerates(released, old(held) - held.Keys)
    {
      ghost var m := held;
      released := LoopExpired(now, m);
      SetHeld(Live(m, now));
    }

    method LoopExpired(now: nat, ghost m: map<nat, Frame>) returns (released: seq<Slot<Frame>>)
      requires Queued(m)
      modifies frames, frames.queue, frames.queue.buffer
      ensures Queued(Live(m, now)) && Enumerates(released, m - Live(m, now).Keys)
    {
      ghost var s := frames.Slots();
      var visit := ObsoleteFrameVisitor(now);
      ExpiryIsPrefix(s, now);
      var ok, visited := frames.LoopFrames(visit);
      PrefixLoops(s, visit);
      released := Deleted(visited, visit);
      ExpiryLeaves(s, now);
      DropReleases(s, FirstKept(s, visit, 0));
    }

    /** Inserts id fid into the queue. */
    method InsertId(fid: nat, ghost m: map<nat, Frame>) returns (isnew: bool, p: int, released: seq<Slot<Frame>>)
      requires Queued(m) && fid < WRAP && Placeable(m, fid)
      modifies frames, frames.queue, frames.queue.buffer
      ensures p == -1 <==> TooOld(m, fid)
      ensures p == -1 ==> Queued(m) && released == []
      ensures p != -1 ==> 0 <= p < frames.queue.buffer.Length && SlotFor(fid, p, frames.queue.buffer[p].body)
      ensures p != -1 ==> isnew == (fid !in m) && Queued(Kept(m, fid, QUEUE_SIZE)[fid := frames.queue.buffer[p].body])
      ensures p != -1 ==> Enumerates(released, m - Kept(m, fid, QUEUE_SIZE).Keys)
      ensures p != -1 && !isnew ==> frames.queue.buffer[p].body == m[fid]
    {
      ghost var s := frames.Slots();
      if |s| == 1 {
        OnlySlot(s);
      }
      TooOldInWindow(s, fid);
      frames.EmptyQueue();
      isnew, p, released := frames.Insert(fid);
      if p != -1 {
        EvictionReleases(s, fid, QUEUE_SIZE);
      }
    }

    /** Writes the frame with id fid. */
    method StoreFrame(fid: nat, p: nat, frm: Frame, ghost m: map<nat, Frame>)
      requires Queued(m) && fid in m && SlotFor(fid, p, m[fid])
      modifies frames.queue.buffer
      ensures Queued(m[fid := frm]) && SlotFor(fid, p, frm)
    {
      frames.Store(fid, p, frm);
    }

    /** Notes the queued frames, which leaves the queue alone. */
    ghost method SetHeld(m: map<nat, Frame>)
      requires Queued(m)
      modifies `held
      ensures Queued(m) && held == m
    {
      held := m;
    }

    /** The slot of a slice's frame, which is a new one if the id is not queued; -1 for an id before the window. Frames
        too far before a later id are released, each once. */
    method GetRecvFrame(slice: Slice, now: nat) returns (p: int, released: seq<Slot<Frame>>)
      requires Queued(held) && slice.fid < WRAP && Placeable(held, slice.fid)
      modifies `held, frames, frames.queue, frames.queue.buffer
      ensures Queued(held) && (p == -1 <==> TooOld(old(held), slice.fid))
      ensures p == -1 ==> held == old(held) && released == []
      ensures p != -1 ==> held == Kept(old(held), slice.fid, QUEUE_SIZE)[slice.fid := FrameFor(old(held), Event(slice, now))]
      ensures p != -1 ==> SlotFor(slice.fid, p, held[slice.fid]) && Enumerates(released, old(held) - Kept(old(held), slice.fid, QUEUE_SIZE).Keys)
    {
      ghost var m, frm := held, FrameFor(held, Event(slice, now));
      ghost var kept := Kept(m, slice.fid, QUEUE_SIZE);
      var isnew;
      isnew, p, released := InsertId(slice.fid, m);
      if p != -1 {
        if isnew {
          StoreNew(slice, now, p, kept);
        }
        SetFrame(slice.fid, p, frm, kept[slice.fid := frm]);
      }
    }

    /** Puts a new frame in the slot of its id; kept are the other frames. */
    method StoreNew(slice: Slice, now: nat, p: nat, ghost kept: map<nat, Frame>)
      requires p < frames.queue.buffer.Length && SlotFor(slice.fid, p, frames.queue.buffer[p].body)
      requires Queued(kept[slice.fid := frames.queue.buffer[p].body])
      modifies frames.queue.buffer
      ensures Queued(kept[slice.fid := Frame(slice.fid, false, now, slice.srcNum, [])])
      ensures SlotFor(slice.fid, p, Frame(slice.fid, false, now, slice.srcNum, []))
    {
      var frm := Frame(slice.fid, false, now, slice.srcNum, []);
      ghost var stale: map<nat, Frame> := kept[slice.fid := frames.queue.buffer[p].body];
      assert stale[slice.fid := frm] == kept[slice.fid := frm];
      StoreFrame(slice.fid, p, frm, stale);
    }

    /** Notes the queued frames, one of which is in slot p. */
    ghost method SetFrame(fid: nat, p: int, frm: Frame, m: map<nat, Frame>)
      requires Queued(m) && SlotFor(fid, p, frm)
      modifies `held
      ensures Queued(m) && SlotFor(fid, p, frm) && held == m
    {
      held := m;
    }

    /** Adds the segment to the queued frame, unless it is complete; a frame that is ready now is handed on, with its
        segments. */
    method AddSegment(slice: Slice, now: nat, p: nat) returns (handed: seq<Delivery>)
      requires Queued(held) && slice.fid in held && SlotFor(slice.fid, p, held[slice.fid])
      modifies `held, frames.queue.buffer
      ensures Queued(held)
      ensures old(held)[slice.fid].completed ==> held == old(held) && handed == []
      ensures !old(held)[slice.fid].completed ==>
                && held == old(held)[slice.fid := Accept(old(held)[slice.fid], slice.segment, now)]
                && handed == Handed(old(held)[slice.fid], slice.segment)
    {
      ghost var m := held;
      var frm := frames.queue.buffer[p].body;
      if frm.completed {
        return [];
      }
      handed := Handed(frm, slice.segment);
      StoreFrame(slice.fid, p, Accept(frm, slice.segment, now), m);
      SetHeld(m[slice.fid := Accept(frm, slice.segment, now)]);
    }

    /** The segment of a slice goes to its frame, unless the slice is too old. */
    method TakeSlice(slice: Slice, now: nat) returns (dropped: bool, handed: seq<Delivery>, evicted: seq<Slot<Frame>>)
      requires Queued(held) && slice.fid < WRAP && Placeable(held, slice.fid)
      modifies `held, frames, frames.queue, frames.queue.buffer
      ensures Queued(held)
      ensures held == Placed(old(held), Event(slice, now)) && handed == HandedBy(old(held), Event(slice, now))
      ensures dropped <==> TooOld(old(held), slice.fid)
      ensures Enumerates(evicted, if dropped then map[] else old(held) - Kept(old(held), slice.fid, QUEUE_SIZE).Keys)
    {
      ghost var live := held;
      var p;
      p, evicted := GetRecvFrame(slice, now);
      dropped, handed := p == -1, [];
      if p != -1 {
        handed := AddSegment(slice, now, p);
        PlacedUpdate(live, Event(slice, now));
      }
    }

    /** Handles a slice: frames too old leave the queue, and the slice's segment goes to its frame, unless the slice is
        too old itself. */
    method HandleSliceFecSegment(slice: Slice, now: nat) returns (dropped: bool, handed: seq<Delivery>, expired: seq<Slot<Frame>>, evicted: seq<Slot<Frame>>)
      requires Valid() && slice.fid < WRAP && Placeable(Live(held, now), slice.fid)
      requires slice.fid in Live(held, now) ==> held[slice.fid].srcNum == slice.srcNum
      modifies `held, `history, frames, frames.queue, frames.queue.buffer
      ensures Valid() && history == old(history) + [Event(slice, now)] && Deliveries(history) == Deliveries(old(history)) + handed
      ensures held == Placed(Live(old(held), now), Event(slice, now)) && handed == HandedBy(Live(old(held), now), Event(slice, now))
      ensures dropped <==> TooOld(Live(old(held), now), slice.fid)
      ensures Enumerates(expired, old(held) - Live(old(held), now).Keys)
      ensures Enumerates(evicted, if dropped then map[] else Live(old(held), now) - Kept(Live(old(held), now), slice.fid, QUEUE_SIZE).Keys)
    {
      expired := ObsoleteFrames(now);
      dropped, handed, evicted := TakeSlice(slice, now);
      Note(Event(slice, now));
    }

    /** Adds a slice to the history. */
    ghost method Note(e: Event)
      requires Queued(held) && held == Placed(Live(After(history), e.now), e)
      modifies `history
      ensures Valid() && history == old(history) + [e] && held == old(held)
      ensures Deliveries(history) == Deliveries(old(history)) + HandedBy(Live(After(old(history)), e.now), e)
    {
      var h := history + [e];
      assert Front(h) == history && Last(h) == e;
      history := h;
    }
  }

  /** A queued frame is rewritten after its slot is made. */
  lemma PlacedUpdate(live: map<nat, Frame>, e: Event)
    requires !TooOld(live, e.slice.fid)
    ensures var frm, kept := FrameFor(live, e), Kept(live, e.slice.fid, QUEUE_SIZE)[e.slice.fid := FrameFor(live, e)];
            Placed(live, e) == if frm.completed then kept else kept[e.slice.fid := Accept(frm, e.slice.segment, e.now)]
  {
  }
}
