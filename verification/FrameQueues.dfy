/** The frame queue of src/frmqueue.h: a circular buffer indexed by wrapping ids that behaves as a finite map limited
    to a sliding window. Calls of a visitor that only releases a frame are reported in the out-parameter visited. */
module FrameQueues {
  import opened Options
  import opened FrameIds
  import opened FrameWindows
  import opened FrameLoops
  import opened CircleQueues

  /** A frame of the queue is evicted for a new id that is N or more places later. */
  predicate Evicts(fid: nat, f: nat, N: nat) {
    !IsLater(f, fid) && Distance(fid, f) >= N
  }

  /** How many slots are taken from the front to make room for a new id. */
  function DropCount<V>(slots: seq<Slot<V>>, fid: nat, N: nat, j: nat): (n: nat)
    requires j <= |slots|
    ensures j <= n <= |slots| && (n < |slots| ==> !slots[n].empty && Distance(fid, slots[n].fid) < N)
    ensures forall k {:trigger slots[k]} :: j <= k < n ==> slots[k].empty || Distance(fid, slots[k].fid) >= N
    decreases |slots| - j
  {
    if j < |slots| && (slots[j].empty || Distance(fid, slots[j].fid) >= N) then DropCount(slots, fid, N, j + 1) else j
  }

  /** What the map keeps when frames N or more places before fid are evicted. */
  ghost function Kept<V>(frames: map<nat, V>, fid: nat, N: nat): map<nat, V> {
    map f | f in frames && !Evicts(fid, f, N) :: frames[f]
  }

  /** Ids inside the window that are not earlier than its begin and not later than its end have a slot. */
  lemma InsideWindow<V>(slots: seq<Slot<V>>, fid: nat)
    requires Window(slots) && slots != [] && fid < WRAP
    requires !IsEarlier(fid, slots[0].fid)
    ensures Distance(fid, slots[0].fid) <= 0x8000
    ensures IsNotLater(fid, slots[|slots| - 1].fid) <==> Distance(fid, slots[0].fid) < |slots|
    ensures Distance(fid, slots[0].fid) < |slots| ==> slots[Distance(fid, slots[0].fid)].fid == fid
    ensures Distance(fid, slots[0].fid) >= |slots| && (|slots| > 1 || Distance(fid, slots[0].fid) != 0x8000) ==>
              IsLater(fid, slots[|slots| - 1].fid)
  {
    var b, w := slots[0].fid, |slots| - 1;
    assert IdAt(slots, w);
    DistanceReversed(fid, b);
    DistanceFrom(fid, b, w);
    DistanceReversed(fid, slots[w].fid);
    DistanceAhead(fid, b);
    if Distance(fid, b) < |slots| {
      assert IdAt(slots, Distance(fid, b));
    }
  }

  /** An id is neither before the window nor inside nor later, which the assertion at line 350 takes for granted, exactly
      if it is half the range away from the only slot. */
  lemma NotPlacedIffOpposite<V>(slots: seq<Slot<V>>, fid: nat)
    requires Window(slots) && slots != [] && fid < WRAP
    ensures !IsEarlier(fid, slots[0].fid) && !IsNotLater(fid, slots[|slots| - 1].fid) && !IsLater(fid, slots[|slots| - 1].fid) <==>
              |slots| == 1 && Distance(fid, slots[0].fid) == 0x8000
  {
    if !IsEarlier(fid, slots[0].fid) {
      InsideWindow(slots, fid);
    }
    DistanceReversed(fid, slots[0].fid);
  }

  /** Distances from a later id to the frames of the window. */
  lemma DistanceToSlot<V>(slots: seq<Slot<V>>, fid: nat, j: nat)
    requires Window(slots) && j < |slots| <= Distance(fid, slots[0].fid) <= 0x8000 && fid < WRAP
    ensures slots[j].fid < WRAP && Distance(fid, slots[j].fid) == Distance(fid, slots[0].fid) - j
    ensures !IsLater(slots[j].fid, fid)
  {
    assert IdAt(slots, j);
    DistanceFrom(fid, slots[0].fid, j);
    DistanceReversed(fid, slots[j].fid);
  }

  /** An id inside the window evicts nothing. */
  lemma InsideEvictsNothing<V>(slots: seq<Slot<V>>, fid: nat, N: nat)
    requires Window(slots) && slots != [] && |slots| <= N && fid < WRAP
    requires !IsEarlier(fid, slots[0].fid) && Distance(fid, slots[0].fid) < |slots|
    ensures Kept(Frames(slots), fid, N) == Frames(slots) && Evicted(slots, fid, N) == []
  {
    forall j | 0 <= j < |slots| && !slots[j].empty
      ensures !Evicts(fid, slots[j].fid, N)
    {
      LookupSlot(slots, j);
      InsideEvictsNotAt(slots, fid, N, slots[j].fid);
    }
    NothingEvicted(slots, fid, N, |slots|);
    forall f | f in Frames(slots)
      ensures !Evicts(fid, f, N)
    {
      InsideEvictsNotAt(slots, fid, N, f);
    }
  }

  lemma InsideEvictsNotAt<V>(slots: seq<Slot<V>>, fid: nat, N: nat, f: nat)
    requires Window(slots) && slots != [] && |slots| <= N && fid < WRAP && f < WRAP
    requires Distance(fid, slots[0].fid) < |slots| && Distance(f, slots[0].fid) < |slots|
    ensures !Evicts(fid, f, N)
  {
    var b := slots[0].fid;
    DistanceAhead(f, b);
    DistanceFrom(fid, b, Distance(f, b));
    DistanceReversed(fid, f);
  }

  /** An id after the window is not in the map. */
  lemma LaterIsNew<V>(slots: seq<Slot<V>>, fid: nat)
    requires Window(slots) && slots != [] && fid < WRAP && Distance(fid, slots[0].fid) >= |slots|
    ensures fid !in Frames(slots)
  {
  }

  /** Making room keeps exactly the frames less than N places before the new id. */
  lemma DropKeeps<V>(slots: seq<Slot<V>>, fid: nat, N: nat)
    requires Window(slots) && fid < WRAP && slots != [] && |slots| <= Distance(fid, slots[0].fid) <= 0x8000
    ensures var n := DropCount(slots, fid, N, 0);
            Window(slots[n..]) && Frames(slots[n..]) == Kept(Frames(slots), fid, N)
  {
    var n := DropCount(slots, fid, N, 0);
    forall f: nat | f < WRAP
      ensures Lookup(slots[n..], f).Some? <==> Lookup(slots, f).Some? && !Evicts(fid, f, N)
      ensures Lookup(slots[n..], f).Some? ==> Lookup(slots[n..], f) == Lookup(slots, f)
    {
      DropKeepsAt(slots, fid, N, f);
    }
    if n < |slots| {
      DropLookup(slots, n, 0);
    }
  }

  lemma DropKeepsAt<V>(slots: seq<Slot<V>>, fid: nat, N: nat, f: nat)
    requires Window(slots) && fid < WRAP && slots != [] && |slots| <= Distance(fid, slots[0].fid) <= 0x8000 && f < WRAP
    ensures var n := DropCount(slots, fid, N, 0);
            (Lookup(slots[n..], f).Some? <==> Lookup(slots, f).Some? && !Evicts(fid, f, N))
            && (Lookup(slots[n..], f).Some? ==> Lookup(slots[n..], f) == Lookup(slots, f))
  {
    var n := DropCount(slots, fid, N, 0);
    if n < |slots| {
      DropLookup(slots, n, f);
      DistanceToSlot(slots, fid, n);
    }
    var d := Distance(f, slots[0].fid);
    if d < |slots| {
      assert IdAt(slots, d);
      DistanceAhead(f, slots[0].fid);
      DistanceToSlot(slots, fid, d);
    }
  }

  class FrameQueue<V(0)> {
    const queue: CircleQueue<Slot<V>>
    var fidBegin: nat
    var fidEnd: nat
    var frmCnt: nat

    ghost function Slots(): seq<Slot<V>>
      requires queue.Valid()
      reads this, queue, queue.buffer
    {
      queue.Contents()
    }

    /** The queue is a window of at most N slots; begin, end and count are those of the window. */
    ghost predicate Valid()
      reads this, queue, queue.buffer
    {
      && queue.Valid() && queue.buffer.Length < 0x8000 && Window(Slots()) && frmCnt == Full(Slots())
      && (Slots() != [] ==> fidBegin == Slots()[0].fid && fidEnd == Slots()[|Slots()| - 1].fid)
    }

    /** The queue as a map from ids to frames. */
    ghost function Contents(): map<nat, V>
      requires queue.Valid()
      reads this, queue, queue.buffer
    {
      Frames(Slots())
    }

    constructor (N: nat)
      requires 0 < N < 0x8000
      ensures Valid() && Contents() == map[] && queue.buffer.Length == N && fresh(queue) && fresh(queue.buffer)
    {
      queue := new CircleQueue<Slot<V>>(N);
      fidBegin, fidEnd, frmCnt := 0, 0, 0;
      new;
      assert Slots() == [];
    }

    /** A queue without frames has no slots. */
    lemma EmptyQueue()
      requires Valid()
      ensures frmCnt == 0 <==> Slots() == []
    {
      if Slots() != [] {
        FullSome(Slots(), 0, |Slots()|, 0);
      }
    }

    /** The frame with id fid, or -1. */
    method At(fid: nat) returns (p: int)
      requires Valid() && fid < WRAP
      ensures p == if fid in Contents() then queue.Place(Distance(fid, fidBegin)) else -1
    {
      EmptyQueue();
      p := -1;
      if frmCnt > 0 {
        Trichotomy(fid, fidBegin);
        DistanceReversed(fid, fidBegin);
        if IsNotEarlier(fid, fidBegin) && IsNotLater(fid, fidEnd) {
          p := SlotAt(fid);
          if queue.buffer[p].empty {
            p := -1;
          }
        } else if !IsEarlier(fid, fidBegin) {
          InsideWindow(Slots(), fid);
        }
      }
    }

    /** The slot of an id inside the window. */
    method SlotAt(fid: nat) returns (p: nat)
      requires Valid() && Slots() != [] && fid < WRAP && !IsEarlier(fid, fidBegin) && IsNotLater(fid, fidEnd)
      ensures Distance(fid, fidBegin) < |Slots()| && Slots()[Distance(fid, fidBegin)].fid == fid
      ensures p == queue.Place(Distance(fid, fidBegin)) && queue.buffer[p] == Slots()[Distance(fid, fidBegin)]
    {
      InsideWindow(Slots(), fid);
      p := queue.At(Distance(fid, fidBegin));
      assert queue.buffer[p] == Slots()[Distance(fid, fidBegin)];
    }

    /** Inserts into an empty queue. */
    method InsertFirst(fid: nat) returns (p: nat)
      requires Valid() && Slots() == [] && fid < WRAP
      modifies this, queue, queue.buffer
      ensures Valid() && p == queue.Place(0) && Contents() == map[fid := queue.buffer[p].body] && fidBegin == fid
    {
      p := queue.AppendSlot();
      queue.Write(p, 0, queue.buffer[p].(empty := false, fid := fid));
      fidBegin, fidEnd := fid, fid;
      frmCnt := frmCnt + 1;
      assert Slots()[0] == queue.buffer[p];
      assert Slots() == [queue.buffer[p]];
      SingleFrame(queue.buffer[p]);
    }

    /** Fills the slot of an id inside the window, if it is empty. */
    method InsertInside(fid: nat) returns (isnew: bool, p: nat)
      requires Valid() && Slots() != [] && fid < WRAP && !IsEarlier(fid, fidBegin) && IsNotLater(fid, fidEnd)
      requires Distance(fid, fidBegin) < |Slots()|
      modifies this`frmCnt, queue.buffer
      ensures Valid() && isnew == (fid !in old(Contents())) && p == queue.Place(Distance(fid, fidBegin))
      ensures !isnew ==> queue.buffer[p].body == old(Contents())[fid]
      ensures Contents() == old(Contents())[fid := queue.buffer[p].body]
    {
      p := SlotAt(fid);
      LookupSlot(Slots(), Distance(fid, fidBegin));
      isnew := queue.buffer[p].empty;
      if isnew {
        Fill(p, Distance(fid, fidBegin));
      } else {
        assert Contents() == old(Contents())[fid := queue.buffer[p].body];
      }
    }

    /** Marks the empty slot at place p as holding a frame. */
    method Fill(p: nat, ghost idx: nat)
      requires Valid() && idx < |Slots()| && p == queue.Place(idx) && Slots()[idx].empty
      modifies this`frmCnt, queue.buffer
      ensures Valid() && Contents() == old(Contents())[old(Slots())[idx].fid := queue.buffer[p].body]
    {
      ghost var s := Slots();
      var slot := queue.buffer[p].(empty := false);
      FullUpdate(s, idx, slot);
      UpdateLookup(s, idx, slot);
      queue.Write(p, idx, slot);
      assert Slots() == s[idx := slot] && queue.buffer[p] == Slots()[idx];
      frmCnt := frmCnt + 1;
    }

    /** Erases the first slot, and visits its frame if it has one. */
    method EraseFirst(slot: Slot<V>, visited: seq<Slot<V>>, ghost s: seq<Slot<V>>, ghost j: nat) returns (r: seq<Slot<V>>)
      requires queue.Valid() && j < |s| && Slots() == s[j..] && slot == s[j] && Parted(s, j, visited, frmCnt)
      modifies this`frmCnt, queue
      ensures queue.Valid() && Slots() == s[j + 1..] && Parted(s, j + 1, r, frmCnt) && queue.slotCnt < old(queue.slotCnt)
    {
      PartedNext(s, j, visited, frmCnt);
      r := visited;
      queue.EraseFirstNSlot(1);
      if !slot.empty {
        r := r + [slot];
        frmCnt := frmCnt - 1;
      }
    }

    /** Takes slots from the front until the new id is less than N places after the first. */
    method FreeSlotForNewFrame(fid: nat) returns (visited: seq<Slot<V>>)
      requires queue.Valid() && frmCnt == Full(Slots()) && IsLater(fid, fidEnd)
      modifies this, queue
      ensures queue.Valid() && Slots() == old(Slots())[DropCount(old(Slots()), fid, queue.buffer.Length, 0)..]
      ensures visited == OccupiedTo(old(Slots()), DropCount(old(Slots()), fid, queue.buffer.Length, 0))
      ensures frmCnt == Full(Slots())
      ensures Slots() != [] ==> fidBegin == Slots()[0].fid && fidEnd == old(fidEnd)
    {
      ghost var s, N := Slots(), queue.buffer.Length;
      ghost var j := 0;
      visited := [];
      PartedInitially(s);
      while true
        invariant queue.Valid() && j <= |s| && Slots() == s[j..] && fidEnd == old(fidEnd)
        invariant Parted(s, j, visited, frmCnt)
        invariant DropCount(s, fid, N, j) == DropCount(s, fid, N, 0)
        decreases queue.slotCnt
      {
        var p := queue.FirstSlot();
        if p == -1 {
          assert s[j..] == [];
          fidBegin, fidEnd := 0, 0;
          break;
        }
        var slot := queue.buffer[p];
        assert slot == Slots()[0] == s[j];
        if !slot.empty && Distance(fid, slot.fid) < queue.buffer.Length {
          fidBegin := slot.fid;
          break;
        }
        visited := EraseFirst(slot, visited, s, j);
        j := j + 1;
      }
      PartedAt(s, j, visited, frmCnt);
      FullSuffix(s, j);
    }

    /** One more slot at the end, for id fid. */
    method Append(empty: bool, fid: nat) returns (p: nat)
      requires queue.Valid() && queue.slotCnt < queue.buffer.Length
      modifies queue, queue.buffer
      ensures queue.Valid() && p == queue.Place(old(queue.slotCnt)) && queue.buffer[p] == Slot(queue.buffer[p].body, empty, fid)
      ensures Slots() == old(Slots()) + [queue.buffer[p]]
    {
      ghost var s := Slots();
      p := queue.AppendSlot();
      var slot := queue.buffer[p].(empty := empty, fid := fid);
      queue.Write(p, |s|, slot);
      assert Slots() == s + [slot] && queue.buffer[p] == Slots()[|s|];
    }

    /** Appends empty slots for the ids before fid. */
    method AppendGap(fid: nat)
      requires Valid() && Slots() != [] && fid < WRAP && |Slots()| <= Distance(fid, fidBegin) < queue.buffer.Length
      modifies queue, queue.buffer
      ensures queue.Valid() && Gapped(old(Slots()), Slots(), fid) && |Slots()| == Distance(fid, fidBegin)
    {
      ghost var s, x := Slots(), Distance(fid, fidBegin);
      assert IdAt(s, |s| - 1);
      var nextid: nat := Ahead(fidEnd, 1);
      while nextid != fid
        invariant queue.Valid() && Gapped(s, Slots(), nextid) && |Slots()| <= x
        decreases x - |Slots()|
      {
        GappedNext(s, Slots(), nextid, fid);
        ghost var t := Slots();
        var q := Append(true, nextid);
        GappedAfter(s, t, nextid, queue.buffer[q]);
        nextid := Ahead(nextid, 1);
      }
      GappedNext(s, Slots(), nextid, fid);
    }

    /** Appends empty slots for the ids before fid, and a slot for fid. */
    method AppendUpTo(fid: nat) returns (p: nat)
      requires Valid() && Slots() != [] && fid < WRAP && |Slots()| <= Distance(fid, fidBegin) < queue.buffer.Length
      modifies this, queue, queue.buffer
      ensures Valid() && fidBegin == old(fidBegin) && p == queue.Place(Distance(fid, fidBegin))
      ensures Contents() == old(Contents())[fid := queue.buffer[p].body]
    {
      ghost var s := Slots();
      AppendGap(fid);
      ghost var t := Slots();
      p := Append(false, fid);
      fidEnd := fid;
      frmCnt := frmCnt + 1;
      GappedEnd(s, t, queue.buffer[p]);
    }

    /** The branch of Insert for an id later than all others. */
    method InsertLater(fid: nat) returns (p: nat, visited: seq<Slot<V>>)
      requires Valid() && Slots() != [] && fid < WRAP && |Slots()| <= Distance(fid, fidBegin) <= 0x8000 && IsLater(fid, fidEnd)
      modifies this, queue, queue.buffer
      ensures Valid() && Distance(fid, fidBegin) <= queue.buffer.Length && p == queue.Place(Distance(fid, fidBegin))
      ensures Contents() == Kept(old(Contents()), fid, queue.buffer.Length)[fid := queue.buffer[p].body]
      ensures visited == Evicted(old(Slots()), fid, queue.buffer.Length)
    {
      EmptyQueue();
      ghost var s := Slots();
      visited := FreeSlotForNewFrame(fid);
      RoomMade(s, fid, queue.buffer.Length, Slots());
      if frmCnt == 0 {
        EmptyWindow(Slots());
        p := InsertFirst(fid);
      } else {
        p := AppendUpTo(fid);
      }
    }

    /** The one id the queue cannot place: it is exactly half the range away from the only slot. */
    ghost predicate Opposite(fid: nat)
      requires queue.Valid()
      reads this, queue, queue.buffer
    {
      |Slots()| == 1 && Distance(fid, fidBegin) == 0x8000
    }

    /** Inserts id fid: the place of its slot, or -1 for an id before the window. Frames N or more places before a
        later id are evicted, and each is visited once, in order. */
    method Insert(fid: nat) returns (isnew: bool, p: int, visited: seq<Slot<V>>)
      requires Valid() && fid < WRAP && !Opposite(fid)
      modifies this, queue, queue.buffer
      ensures Valid() && visited == if p == -1 then [] else Evicted(old(Slots()), fid, queue.buffer.Length)
      ensures p == -1 <==> old(frmCnt) > 0 && IsEarlier(fid, old(fidBegin))
      ensures p == -1 ==> !isnew && Contents() == old(Contents()) && unchanged(this)
      ensures p != -1 ==> Distance(fid, fidBegin) <= queue.buffer.Length && p == queue.Place(Distance(fid, fidBegin))
      ensures p != -1 ==> isnew == (fid !in old(Contents()))
      ensures p != -1 && !isnew ==> queue.buffer[p].body == old(Contents())[fid]
      ensures p != -1 ==> Contents() == Kept(old(Contents()), fid, queue.buffer.Length)[fid := queue.buffer[p].body]
    {
      visited := [];
      EmptyQueue();
      if frmCnt == 0 {
        p := InsertFirst(fid);
        isnew := true;
        assert Contents() == Kept(old(Contents()), fid, queue.buffer.Length)[fid := queue.buffer[p].body];
        return;
      }
      if IsEarlier(fid, fidBegin) {
        return false, -1, [];
      }
      InsideWindow(Slots(), fid);
      if IsNotLater(fid, fidEnd) {
        InsideEvictsNothing(Slots(), fid, queue.buffer.Length);
        isnew, p := InsertInside(fid);
      } else {
        LaterIsNew(Slots(), fid);
        p, visited := InsertLater(fid);
        isnew := true;
      }
    }

    /** Writes the frame of id fid through the place of its slot. */
    method Store(fid: nat, p: nat, body: V)
      requires Valid() && fid in Contents() && p == queue.Place(Distance(fid, fidBegin))
      modifies queue.buffer
      ensures Valid() && Contents() == old(Contents())[fid := body] && queue.buffer[p].body == body
    {
      ghost var s, idx := Slots(), Distance(fid, fidBegin);
      assert queue.buffer[p] == s[idx];
      var slot := queue.buffer[p].(body := body);
      DistanceAhead(fid, s[0].fid);
      assert IdAt(s, idx);
      FullUpdate(s, idx, slot);
      UpdateLookup(s, idx, slot);
      queue.Write(p, idx, slot);
      assert Slots() == s[idx := slot] && queue.buffer[p] == Slots()[idx];
    }

    /** Forgets all slots without visiting them. */
    method QuickReset()
      requires queue.Valid() && queue.buffer.Length < 0x8000
      modifies this`frmCnt, queue
      ensures Valid() && Contents() == map[] && Slots() == []
    {
      queue.Reset();
      frmCnt := 0;
    }

    /** Visits all frames in order and empties the queue. */
    method Reset() returns (visited: seq<Slot<V>>)
      requires Valid()
      modifies this`frmCnt, queue
      ensures Valid() && Contents() == map[] && visited == Occupied(old(Slots()))
    {
      EmptyQueue();
      ghost var s := Slots();
      visited := [];
      if frmCnt > 0 {
        var p := queue.FirstSlot();
        PartedInitially(s);
        ghost var cnt := Full(s);
        for i := 0 to queue.slotCnt
          invariant queue.Valid() && Slots() == s && Parted(s, i, visited, cnt) && p == queue.Place(i)
        {
          var slot := queue.buffer[p];
          assert slot == s[i];
          PartedNext(s, i, visited, cnt);
          if !slot.empty {
            visited := visited + [slot];
            cnt := cnt - 1;
          }
          p := queue.NextSlot(p, i);
        }
        PartedAt(s, |s|, visited, cnt);
      }
      QuickReset();
    }

    /** Removes the frame with id fid, if there is one, and visits it. */
    method Remove(fid: nat) returns (removed: bool, visited: seq<Slot<V>>)
      requires Valid() && fid < WRAP
      modifies this, queue, queue.buffer
      ensures Valid() && removed == (fid in old(Contents())) && Contents() == old(Contents()) - {fid}
      ensures removed ==> |visited| == 1 && visited[0].fid == fid && visited[0].body == old(Contents())[fid]
      ensures !removed ==> visited == []
    {
      var p := At(fid);
      if p == -1 {
        assert Contents() == old(Contents()) - {fid};
        return false, [];
      }
      removed := true;
      var slot := RemoveAt(fid, p);
      visited := [slot];
    }

    /** Visits and removes the frame at place p. */
    method RemoveAt(fid: nat, p: nat) returns (slot: Slot<V>)
      requires Valid() && fid < WRAP && fid in Contents() && p == queue.Place(Distance(fid, fidBegin))
      modifies this, queue, queue.buffer
      ensures Valid() && Contents() == old(Contents()) - {fid} && slot.fid == fid && slot.body == old(Contents())[fid]
    {
      ghost var s := Slots();
      RemovedFacts(s, fid);
      slot := queue.buffer[p];
      assert slot == s[Distance(fid, fidBegin)];
      MarkEmpty(p, Distance(fid, fidBegin));
      if frmCnt == 1 {
        assert fid == fidBegin == fidEnd;
        QuickReset();
        return;
      }
      frmCnt := frmCnt - 1;
      if fid == fidBegin {
        TrimFront(s);
      } else if fid == fidEnd {
        TrimBack(s);
      } else {
        RemoveInside(s, Distance(fid, fidBegin));
      }
    }

    method MarkEmpty(p: nat, ghost idx: nat)
      requires queue.Valid() && idx < |Slots()| && p == queue.Place(idx)
      modifies queue.buffer
      ensures queue.Valid() && Slots() == old(Slots())[idx := old(Slots())[idx].(empty := true)]
    {
      assert queue.buffer[p] == Slots()[idx];
      queue.Write(p, idx, queue.buffer[p].(empty := true));
    }

    /** Erases the empty slots at the front, once the frame of the first slot is gone. */
    method TrimFront(ghost s: seq<Slot<V>>)
      requires queue.Valid() && queue.buffer.Length < 0x8000
      requires Window(s) && s != [] && Slots() == s[0 := s[0].(empty := true)] && Full(s) > 1 && frmCnt == Full(s) - 1
      requires fidEnd == s[|s| - 1].fid
      modifies this`fidBegin, queue
      ensures Valid() && Contents() == Frames(s) - {s[0].fid}
    {
      var i := CountFront(s);
      RemoveFront(s, i);
      assert Slots()[i..] == s[i..];
      EraseSkipped(i, s[i..]);
    }

    /** The place of the first slot that is not empty. */
    method CountFront(ghost s: seq<Slot<V>>) returns (i: nat)
      requires queue.Valid() && s != [] && Slots() == s[0 := s[0].(empty := true)] && Full(s) > 1
      ensures 0 < i < |s| && !s[i].empty && forall k :: 0 < k < i ==> s[k].empty
    {
      ghost var t := Slots();
      var p: nat := queue.FirstSlot();
      i := 0;
      while queue.buffer[p].empty
        invariant i < |s| && p == queue.Place(i) && queue.buffer[p] == t[i] && forall k :: 0 < k < i ==> s[k].empty
        decreases |s| - i
      {
        MoreFrames(s, i);
        p := queue.NextSlot(p, i);
        i := i + 1;
        assert queue.buffer[p] == t[i];
      }
    }

    /** Erases the empty slots at the end, once the frame of the last slot is gone. */
    method TrimBack(ghost s: seq<Slot<V>>)
      requires queue.Valid() && queue.buffer.Length < 0x8000
      requires Window(s) && |s| > 1 && Slots() == s[|s| - 1 := s[|s| - 1].(empty := true)] && frmCnt == Full(s) - 1
      requires fidBegin == s[0].fid
      modifies this`fidEnd, queue
      ensures Valid() && Contents() == Frames(s) - {s[|s| - 1].fid}
    {
      var i, p := CountBack(s);
      RemoveBack(s, i);
      assert Slots()[..|s| - i] == s[..|s| - i];
      EraseBack(i, p, s[..|s| - i]);
    }

    /** Erases the last i slots; u are the others, and p is the place of the last of them. */
    method EraseBack(i: nat, p: nat, ghost u: seq<Slot<V>>)
      requires queue.Valid() && queue.buffer.Length < 0x8000 && i < |Slots()| && Slots()[..|Slots()| - i] == u
      requires p == queue.Place(|Slots()| - i - 1) && Window(u) && frmCnt == Full(u) && fidBegin == u[0].fid
      modifies this`fidEnd, queue
      ensures Valid() && Slots() == u
    {
      assert queue.buffer[p] == u[|u| - 1];
      queue.EraseLastNSlot(i);
      fidEnd := queue.buffer[p].fid;
    }

    /** How many empty slots are at the end, and the place of the slot before them. */
    method CountBack(ghost s: seq<Slot<V>>) returns (i: nat, p: nat)
      requires queue.Valid() && |s| > 1 && Slots() == s[|s| - 1 := s[|s| - 1].(empty := true)] && !s[0].empty
      ensures 0 < i < |s| && p == queue.Place(|s| - 1 - i) && !s[|s| - 1 - i].empty
      ensures forall k :: |s| - 1 - i < k < |s| - 1 ==> s[k].empty
    {
      ghost var t := Slots();
      p := queue.LastSlot();
      i := 0;
      while queue.buffer[p].empty
        invariant i < |s| && p == queue.Place(|s| - 1 - i) && queue.buffer[p] == t[|s| - 1 - i]
        invariant forall k :: |s| - 1 - i < k < |s| - 1 ==> s[k].empty
        decreases |s| - i
      {
        p := queue.PrevSlot(p, |s| - 1 - i);
        i := i + 1;
        assert queue.buffer[p] == t[|s| - 1 - i];
      }
    }

    /** Visits frames from the front until the visitor stops, and removes those it deletes. For every visitor it leaves
        what Leaves says; ok means that no assertion fails. The queue is valid again exactly if the loop is right for the
        visitor, and then it holds exactly the frames that survive. */
    method LoopFrames(visit: Visitor<V>) returns (ok: bool, visited: seq<Slot<V>>)
      requires Valid()
      modifies this, queue, queue.buffer
      ensures queue.Valid() && visited == OccupiedTo(old(Slots()), VisitedTo(old(Slots()), visit, 0))
      ensures if ok then Leaves(old(Slots()), visit) == Some(Slots()) else Leaves(old(Slots()), visit) == None
      ensures ok && Valid() <==> Loopable(old(Slots()), visit)
      ensures ok && Valid() ==> Contents() == Surviving(old(Slots()), visit)
    {
      EmptyQueue();
      ghost var s := Slots();
      if frmCnt == 0 {
        ErasedLeaves(s, visit, s, true, s);
        LoopedRight(s, visit, s, true, s);
        return true, [];
      }
      var skip, pre, prefid, cut;
      ghost var v;
      skip, pre, prefid, cut, visited, v := VisitFrames(visit);
      LoopInitially(s, visit);
      RunMeans(s, visit, 0, Init(s, Full(s)));
      ok := FinishLoop(s, visit, skip, pre, prefid, cut, v);
    }

    /** What is done behind the loop. */
    method FinishLoop(ghost s: seq<Slot<V>>, ghost visit: Visitor<V>, skip: nat, pre: nat, prefid: nat, cut: bool, ghost v: LoopVars<V>)
      returns (ok: bool)
      requires queue.Valid() && queue.buffer.Length < 0x8000 && Window(s) && s != [] && fidEnd == s[|s| - 1].fid
      requires v.slots == Slots() && v.skip == skip && v.pre == pre && v.prefid == prefid && v.cut == cut && v.cnt == frmCnt
      requires LoopAt(s, visit, VisitedTo(s, visit, 0), v)
      modifies this`fidBegin, this`fidEnd, queue
      ensures queue.Valid()
      ensures if ok then Leaves(s, visit) == Some(Slots()) else Leaves(s, visit) == None
      ensures ok && Valid() <==> Loopable(s, visit)
      ensures ok && Valid() ==> Contents() == Surviving(s, visit)
    {
      ghost var t := Slots();
      LoopLeft(s, visit, v);
      ok := EraseLooped(s, skip, pre, prefid, cut);
      ErasedLeaves(s, visit, t, ok, Slots());
      LoopedRight(s, visit, t, ok, Slots());
      ValidAgain(t, ok, Loopable(s, visit));
    }

    lemma ValidAgain(t: seq<Slot<V>>, ok: bool, right: bool)
      requires queue.Valid() && queue.buffer.Length < 0x8000 && frmCnt == Full(t)
      requires right <==> ok && Full(Slots()) == Full(t)
      requires right ==> Window(Slots()) && (Slots() != [] ==> fidBegin == Slots()[0].fid && fidEnd == Slots()[|Slots()| - 1].fid)
      ensures ok && Valid() <==> right
    {
    }

    /** Erases the slots at the back if the last was deleted while a frame is left, and the empty slots at the front. */
    method EraseLooped(ghost s: seq<Slot<V>>, skip: nat, pre: nat, prefid: nat, cut: bool) returns (ok: bool)
      requires queue.Valid() && frmCnt == Full(Slots()) && pre < |Slots()| && (cut <==> frmCnt > 0 && Slots()[|Slots()| - 1].empty)
      requires Window(s) && s != [] && FidsOf(s, Slots()) && fidEnd == s[|s| - 1].fid
      requires cut ==> pre == LastFull(Slots(), |Slots()|) && prefid == s[pre].fid
      modifies this`fidBegin, this`fidEnd, queue
      ensures queue.Valid() && Erased(old(Slots()), skip, ok, Slots())
      ensures ok && Slots() != [] ==> fidBegin == Slots()[0].fid
      ensures !cut ==> fidEnd == old(fidEnd)
      ensures ok && Slots() != [] ==> IsNotLater(fidBegin, fidEnd)
    {
      ghost var t := Slots();
      if cut {
        queue.EraseLastNSlot(queue.slotCnt - pre);
        fidEnd := prefid;
      }
      assert Slots() == CutBack(t);
      if frmCnt == 0 {
        queue.Reset();
        ok := true;
      } else {
        ok := EraseLeading(skip);
      }
      if ok && Slots() != [] {
        ErasedFirst(s, t, skip, ok, Slots(), fidEnd);
      }
    }

    /** Erases the empty slots at the front; true if a frame is first then, and there are enough slots for the frames. */
    method EraseLeading(skip: nat) returns (ok: bool)
      requires queue.Valid() && frmCnt > 0
      modifies this`fidBegin, queue
      ensures queue.Valid()
      ensures ok <==> skip < |old(Slots())| && !old(Slots())[skip].empty && frmCnt <= |old(Slots())| - skip
      ensures ok ==> Slots() == old(Slots())[skip..] && fidBegin == Slots()[0].fid
    {
      ghost var u := Slots();
      if skip >= queue.slotCnt {
        return false;
      }
      queue.EraseFirstNSlot(skip);
      var p := queue.FirstSlot();
      assert queue.buffer[p] == u[skip];
      if queue.buffer[p].empty {
        return false;
      }
      fidBegin := queue.buffer[p].fid;
      ok := frmCnt <= queue.slotCnt;
    }

    /** Erases the free slots at the front; u are the others. */
    method EraseSkipped(skip: nat, ghost u: seq<Slot<V>>)
      requires queue.Valid() && queue.buffer.Length < 0x8000 && skip < |Slots()| && Slots()[skip..] == u
      requires Window(u) && frmCnt == Full(u) && fidEnd == u[|u| - 1].fid
      modifies this`fidBegin, queue
      ensures Valid() && Slots() == u
    {
      queue.EraseFirstNSlot(skip);
      assert Slots() == u;
      var p := queue.FirstSlot();
      assert queue.buffer[p] == u[0];
      fidBegin := queue.buffer[p].fid;
    }

    /** The loop over the slots: v are its variables when it is left. */
    method VisitFrames(visit: Visitor<V>) returns (skip: nat, pre: nat, prefid: nat, cut: bool, visited: seq<Slot<V>>, ghost v: LoopVars<V>)
      requires queue.Valid() && Slots() != [] && frmCnt == Full(Slots()) && fidBegin == Slots()[0].fid
      modifies this`frmCnt, queue.buffer
      ensures queue.Valid() && v == Run(Init(old(Slots()), Full(old(Slots()))), visit, 0, fidEnd)
      ensures v == LoopVars(v.met, skip, pre, prefid, cut, frmCnt, visited, Slots())
    {
      v := Init(Slots(), frmCnt);
      ghost var end := Run(v, visit, 0, fidEnd);
      var met, done := false, false;
      skip, pre, prefid, cut, visited := 0, 0, fidBegin, false, [];
      var p: nat := queue.FirstSlot();
      var i := 0;
      while i < queue.slotCnt
        invariant queue.Valid() && i <= queue.slotCnt && p == queue.Place(i)
        invariant frmCnt == Full(Slots())
        invariant v == LoopVars(met, skip, pre, prefid, cut, frmCnt, visited, Slots()) && Run(v, visit, i, fidEnd) == end
      {
        met, skip, pre, prefid, cut, visited, done, v := VisitSlot(visit, p, met, skip, pre, prefid, cut, visited, i, v);
        if done {
          return;
        }
        p := queue.NextSlot(p, i);
        i := i + 1;
      }
    }

    /** One slot of the loop. */
    method VisitSlot(visit: Visitor<V>, p: nat, met: bool, skip: nat, pre: nat, prefid: nat, cut: bool, visited: seq<Slot<V>>, i: nat,
                     ghost v: LoopVars<V>)
      returns (met': bool, skip': nat, pre': nat, prefid': nat, cut': bool, visited': seq<Slot<V>>, done: bool, ghost w: LoopVars<V>)
      requires queue.Valid() && i < |Slots()| && p == queue.Place(i) && frmCnt == Full(Slots())
      requires v == LoopVars(met, skip, pre, prefid, cut, frmCnt, visited, Slots())
      modifies this`frmCnt, queue.buffer
      ensures queue.Valid() && frmCnt == Full(Slots()) && w == Step(v, visit, i, fidEnd)
      ensures w == LoopVars(met', skip', pre', prefid', cut', frmCnt, visited', Slots())
      ensures done <==> Ends(v.slots[i], visit, w.cnt, fidEnd)
    {
      w := Step(v, visit, i, fidEnd);
      ghost var t := Slots();
      met', skip', pre', prefid', cut', visited', done := met, skip, pre, prefid, cut, visited, false;
      var slot := queue.buffer[p];
      assert slot == t[i];
      if slot.empty {
        if !met {
          skip' := skip + 1;
        }
        return;
      }
      var vres := visit(slot.body, slot.fid);
      visited' := visited + [slot];
      if vres == DeletedContinue || vres == DeletedStop {
        DeleteSlot(p, i);
        if !met {
          skip' := skip + 1;
        }
        cut' := frmCnt > 0 && slot.fid == fidEnd;
        if frmCnt == 0 {
          done := true;
          return;
        }
      } else {
        met', pre', prefid' := true, i, slot.fid;
      }
      done := slot.fid == fidEnd || vres == DeletedStop || vres == Stop;
    }

    /** Marks the slot at place p empty. */
    method DeleteSlot(p: nat, ghost i: nat)
      requires queue.Valid() && i < |Slots()| && p == queue.Place(i) && frmCnt == Full(Slots()) && !Slots()[i].empty
      modifies this`frmCnt, queue.buffer
      ensures queue.Valid() && Slots() == old(Slots())[i := old(Slots())[i].(empty := true)]
      ensures frmCnt == Full(Slots()) == old(frmCnt) - 1
    {
      ghost var t := Slots();
      FullUpdate(t, i, t[i].(empty := true));
      MarkEmpty(p, i);
      frmCnt := frmCnt - 1;
    }
  }

  /** What is left when the loop is left. */
  lemma LoopLeft<V>(s: seq<Slot<V>>, visit: Visitor<V>, v: LoopVars<V>)
    requires LoopAt(s, visit, VisitedTo(s, visit, 0), v) && !s[|s| - 1].empty
    ensures v.slots == Swept(s, visit, VisitedTo(s, visit, 0)) && v.cnt == Full(v.slots)
    ensures v.skip == Leading(v.slots, VisitedTo(s, visit, 0)) && v.pre < |v.slots|
    ensures v.cut <==> v.cnt > 0 && v.slots[|s| - 1].empty
    ensures v.cut ==> v.pre == LastFull(v.slots, |v.slots|) && v.prefid == s[v.pre].fid
    ensures FidsOf(s, v.slots)
  {
  }

  /** Where a frame that is held is. */
  lemma RemovedFacts<V>(s: seq<Slot<V>>, fid: nat)
    requires Window(s) && s != [] && fid in Frames(s)
    ensures Distance(fid, s[0].fid) < |s| && s[Distance(fid, s[0].fid)].fid == fid && !s[Distance(fid, s[0].fid)].empty
    ensures fid == s[0].fid <==> Distance(fid, s[0].fid) == 0
    ensures fid == s[|s| - 1].fid <==> Distance(fid, s[0].fid) == |s| - 1
    ensures Full(s) == 1 ==> |s| == 1 && Frames(s) - {fid} == map[]
    ensures Full(s) > 1 ==> |s| > 1
  {
    DistanceAhead(fid, s[0].fid);
    assert IdAt(s, Distance(fid, s[0].fid));
    LookupSlot(s, |s| - 1);
    if |s| > 1 {
      FullSome(s, 0, |s| - 1, 0);
    } else {
      assert s == [s[0]];
      SingleFrame(s[0]);
    }
  }

  /** With more than one frame, the slots after the first are not all empty. */
  lemma MoreFrames<V>(s: seq<Slot<V>>, i: nat)
    requires Full(s) > 1 && i < |s| && forall k :: 0 < k <= i ==> s[k].empty
    ensures i + 1 < |s|
  {
    FullSplit(s, 0, 1, |s|);
    if i + 1 == |s| {
      FullNone(s, 1, |s|);
    }
  }

  lemma RemoveFront<V>(s: seq<Slot<V>>, i: nat)
    requires Window(s) && 0 < i < |s| && !s[i].empty && forall k :: 0 < k < i ==> s[k].empty
    ensures Window(s[i..]) && Frames(s[i..]) == Frames(s) - {s[0].fid} && Full(s[i..]) == Full(s) - 1
  {
    RemoveFrontLookup(s, i);
    FullSplit(s, 0, 1, i);
    FullSplit(s, 0, i, |s|);
    FullNone(s, 1, i);
    FullSuffix(s, i);
  }

  lemma RemoveFrontLookup<V>(s: seq<Slot<V>>, i: nat)
    requires Window(s) && 0 < i < |s| && !s[i].empty && forall k :: 0 < k < i ==> s[k].empty
    ensures Window(s[i..]) && Frames(s[i..]) == Frames(s) - {s[0].fid}
  {
    forall f: nat | f < WRAP
      ensures Lookup(s[i..], f) == if f == s[0].fid then None else Lookup(s, f)
    {
      DropLookup(s, i, f);
      DistanceAhead(f, s[0].fid);
    }
    DropLookup(s, i, 0);
  }

  lemma RemoveBack<V>(s: seq<Slot<V>>, i: nat)
    requires Window(s) && 0 < i < |s| && !s[|s| - 1 - i].empty && forall k :: |s| - 1 - i < k < |s| - 1 ==> s[k].empty
    ensures Window(s[..|s| - i]) && Frames(s[..|s| - i]) == Frames(s) - {s[|s| - 1].fid} && Full(s[..|s| - i]) == Full(s) - 1
  {
    RemoveBackLookup(s, i);
    FullSplit(s, 0, |s| - i, |s| - 1);
    FullNone(s, |s| - i, |s| - 1);
    FullPrefix(s, |s| - i);
  }

  lemma RemoveBackLookup<V>(s: seq<Slot<V>>, i: nat)
    requires Window(s) && 0 < i < |s| && !s[|s| - 1 - i].empty && forall k :: |s| - 1 - i < k < |s| - 1 ==> s[k].empty
    ensures Window(s[..|s| - i]) && Frames(s[..|s| - i]) == Frames(s) - {s[|s| - 1].fid}
  {
    var n := |s| - i;
    forall f: nat | f < WRAP
      ensures Lookup(s[..n], f) == if f == s[|s| - 1].fid then None else Lookup(s, f)
    {
      TakeLookup(s, n, f);
      LookupSlot(s, |s| - 1);
      DistanceAhead(f, s[0].fid);
      assert IdAt(s, |s| - 1);
    }
    TakeLookup(s, n, 0);
  }

  lemma RemoveInside<V>(s: seq<Slot<V>>, idx: nat)
    requires Window(s) && 0 < idx < |s| - 1 && !s[idx].empty
    ensures var t := s[idx := s[idx].(empty := true)];
            Window(t) && Frames(t) == Frames(s) - {s[idx].fid} && Full(t) == Full(s) - 1
  {
    var t := s[idx := s[idx].(empty := true)];
    FullUpdate(s, idx, s[idx].(empty := true));
    LookupSlot(s, idx);
    forall k: nat | k < |t|
      ensures IdAt(t, k)
    {
      assert IdAt(s, k);
    }
    forall f: nat | f < WRAP
      ensures Lookup(t, f) == if f == s[idx].fid then None else Lookup(s, f)
    {
      DistanceAhead(f, s[0].fid);
      assert IdAt(s, idx);
    }
  }

  lemma EmptyWindow<V>(s: seq<Slot<V>>)
    requires Window(s) && Full(s) == 0
    ensures s == [] && Frames(s) == map[]
  {
  }

  /** What making room leaves: the frames kept; and those taken away are the evicted ones. */
  lemma RoomMade<V>(s: seq<Slot<V>>, fid: nat, N: nat, t: seq<Slot<V>>)
    requires Window(s) && fid < WRAP && s != [] && |s| <= Distance(fid, s[0].fid) <= 0x8000 && t == s[DropCount(s, fid, N, 0)..]
    ensures Window(t) && Frames(t) == Kept(Frames(s), fid, N)
    ensures Evicted(s, fid, N) == OccupiedTo(s, DropCount(s, fid, N, 0))
    ensures t != [] ==> t[|t| - 1] == s[|s| - 1] && t[0].fid < WRAP && |t| <= Distance(fid, t[0].fid) < N
  {
    DropKeeps(s, fid, N);
    EvictedIsDropped(s, fid, N, |s|);
    DropEnds(s, fid, N, t);
  }

  /** The end of the window stays, and the new id is less than N places after its begin. */
  lemma DropEnds<V>(s: seq<Slot<V>>, fid: nat, N: nat, t: seq<Slot<V>>)
    requires Window(s) && fid < WRAP && s != [] && |s| <= Distance(fid, s[0].fid) <= 0x8000 && t == s[DropCount(s, fid, N, 0)..]
    ensures t != [] ==> t[|t| - 1] == s[|s| - 1] && t[0].fid < WRAP && |t| <= Distance(fid, t[0].fid) < N
  {
    var n := DropCount(s, fid, N, 0);
    if n < |s| {
      DistanceToSlot(s, fid, n);
    }
  }

  /** The frames below slot hi that a new id evicts, in order. */
  ghost function EvictedTo<V>(slots: seq<Slot<V>>, fid: nat, N: nat, hi: nat): seq<Slot<V>>
    requires hi <= |slots|
  {
    if hi == 0 then [] else
    var x := slots[hi - 1];
    if !x.empty && Evicts(fid, x.fid, N) then EvictedTo(slots, fid, N, hi - 1) + [x] else EvictedTo(slots, fid, N, hi - 1)
  }

  ghost function Evicted<V>(slots: seq<Slot<V>>, fid: nat, N: nat): seq<Slot<V>> {
    EvictedTo(slots, fid, N, |slots|)
  }

  lemma {:induction false} EvictedIsDropped<V>(s: seq<Slot<V>>, fid: nat, N: nat, k: nat)
    requires Window(s) && fid < WRAP && s != [] && |s| <= Distance(fid, s[0].fid) <= 0x8000 && k <= |s|
    ensures var n := DropCount(s, fid, N, 0); EvictedTo(s, fid, N, k) == OccupiedTo(s, if k < n then k else n)
  {
    if k > 0 {
      EvictedIsDropped(s, fid, N, k - 1);
      var n := DropCount(s, fid, N, 0);
      DistanceToSlot(s, fid, k - 1);
      if n < |s| {
        DistanceToSlot(s, fid, n);
      }
    }
  }

  lemma {:induction false} NothingEvicted<V>(s: seq<Slot<V>>, fid: nat, N: nat, hi: nat)
    requires hi <= |s| && forall j :: 0 <= j < hi && !s[j].empty ==> !Evicts(fid, s[j].fid, N)
    ensures EvictedTo(s, fid, N, hi) == []
  {
    if hi > 0 {
      NothingEvicted(s, fid, N, hi - 1);
    }
  }

  /** t is s and then empty slots, before the slot for nextid. */
  ghost predicate Gapped<V>(s: seq<Slot<V>>, t: seq<Slot<V>>, nextid: nat) {
    && Window(s) && s != [] && s <= t && |t| < 0x8000
    && nextid == Ahead(s[0].fid, |t|)
    && (forall j :: |s| <= j < |t| ==> t[j].empty)
    && (forall j: nat {:trigger IdAt(t, j)} :: j < |t| ==> IdAt(t, j))
  }

  lemma GappedNext<V>(s: seq<Slot<V>>, t: seq<Slot<V>>, nextid: nat, fid: nat)
    requires Gapped(s, t, nextid) && fid < WRAP && |t| <= Distance(fid, s[0].fid)
    ensures nextid == fid <==> |t| == Distance(fid, s[0].fid)
  {
    DistanceAhead(fid, s[0].fid);
    AheadDistance(s[0].fid, |t|);
  }

  lemma GappedAfter<V>(s: seq<Slot<V>>, t: seq<Slot<V>>, nextid: nat, x: Slot<V>)
    requires Gapped(s, t, nextid) && x.empty && x.fid == nextid && |t| < 0x7fff
    ensures Gapped(s, t + [x], Ahead(nextid, 1))
  {
    var u := t + [x];
    assert u[0] == s[0];
    AheadNext(s[0].fid, |t|);
    forall j: nat | j < |u|
      ensures IdAt(u, j)
    {
      if j < |t| {
        assert IdAt(t, j);
      }
    }
  }

  lemma GappedEnd<V>(s: seq<Slot<V>>, t: seq<Slot<V>>, x: Slot<V>)
    requires Gapped(s, t, x.fid) && !x.empty && |t| < 0x7fff
    ensures Window(t + [x]) && Frames(t + [x]) == Frames(s)[x.fid := x.body] && Full(t + [x]) == Full(s) + 1
    ensures (t + [x])[0] == s[0]
  {
    var u := t + [x];
    assert u[0] == s[0];
    forall j: nat | j < |u|
      ensures IdAt(u, j)
    {
      if j < |t| {
        assert IdAt(t, j);
      }
    }
    AppendFull(s, u, x);
    AppendLookup(s, u, x);
  }

  /** The first j slots hold the frames visited, and the others hold cnt frames. */
  ghost predicate Parted<V>(s: seq<Slot<V>>, j: nat, visited: seq<Slot<V>>, cnt: nat) {
    j <= |s| && visited == OccupiedTo(s, j) && cnt == FullIn(s, j, |s|)
  }

  lemma PartedAt<V>(s: seq<Slot<V>>, j: nat, visited: seq<Slot<V>>, cnt: nat)
    requires Parted(s, j, visited, cnt)
    ensures visited == OccupiedTo(s, j) && cnt == FullIn(s, j, |s|)
  {
  }

  lemma PartedInitially<V>(s: seq<Slot<V>>)
    ensures Parted(s, 0, [], Full(s))
  {
  }

  lemma PartedNext<V>(s: seq<Slot<V>>, j: nat, visited: seq<Slot<V>>, cnt: nat)
    requires Parted(s, j, visited, cnt) && j < |s|
    ensures s[j].empty ==> Parted(s, j + 1, visited, cnt)
    ensures !s[j].empty ==> cnt > 0 && Parted(s, j + 1, visited + [s[j]], cnt - 1)
  {
    FullStep(s, j);
  }
}
