/** A video frame being received, as an object: the ring of its segments, its counts and its completeness detector
    (src/stmrecver.cpp, lines 87-118, 364-406). */
module VideoFrames {
  import opened IntrusiveLists
  import opened Accumulators
  import opened Segments
  import opened FrameStates

  /** The place is determined by what the search from the tail finds. */
  lemma {:induction false} PlaceUnique(segs: seq<Segment>, x: Segment, n: nat, k: nat)
    requires k <= n <= |segs| && (k > 0 ==> SegmentInsertComparer(x, segs[k - 1]) >= 0)
    requires forall j {:trigger segs[j]} :: k <= j < n ==> SegmentInsertComparer(x, segs[j]) < 0
    ensures k == InsertPlace(segs, x, n)
  {
    if k < n {
      PlaceUnique(segs, x, n - 1, k);
    }
  }

  ghost predicate ItemAt(ring: seq<ListHead<Segment>>, segs: seq<Segment>, k: nat)
    requires k < |segs| && |ring| == |segs| + 1
    reads ring
  {
    ring[k + 1].item == segs[k]
  }

  /** The list with header hdr holds the segments; ring are its header and nodes. */
  ghost predicate Holds(hdr: ListHead<Segment>, ring: seq<ListHead<Segment>>, segs: seq<Segment>)
    reads ring
  {
    && |ring| == |segs| + 1 && ring[0] == hdr && Ring(ring)
    && forall k: nat {:trigger ItemAt(ring, segs, k)} :: k < |segs| ==> ItemAt(ring, segs, k)
  }

  /** recvSymNum symbols were received, and the greatest end of a segment is maxESI. */
  ghost predicate Tallied(segs: seq<Segment>, recvSymNum: nat, maxESI: nat) {
    recvSymNum == Total(segs, |segs|) && maxESI == MaxEnd(segs, |segs|)
  }

  /** Those source symbols are covered that some segment holds. */
  ghost predicate CoveredBy(covered: seq<bool>, segs: seq<Segment>) {
    forall k {:trigger covered[k]} :: 0 <= k < |covered| ==> (covered[k] <==> Received(segs, k))
  }

  lemma TallyNext(segs: seq<Segment>, x: Segment, recvSymNum: nat, maxESI: nat)
    requires !IsDup(segs, x) && Tallied(segs, recvSymNum, maxESI)
    ensures Tallied(Insert(segs, x), recvSymNum + x.Cnt(), if x.End() > maxESI then x.End() else maxESI)
  {
    InsertTotal(segs, x);
  }

  /** What follows for an accepted segment: its symbols were not covered, and the tallies are brought up to date. */
  lemma Accepted(segs: seq<Segment>, x: Segment, covered: seq<bool>, recvSymNum: nat, maxESI: nat)
    requires Ordered(segs) && x.Valid() && !IsDup(segs, x) && CoveredBy(covered, segs) && Tallied(segs, recvSymNum, maxESI)
    ensures forall k {:trigger covered[k]} :: x.esi <= k < x.End() && k < |covered| ==> !covered[k]
    ensures CoveredBy(Cover(covered, x.esi, x.End()), Insert(segs, x))
    ensures Tallied(Insert(segs, x), recvSymNum + x.Cnt(), if x.End() > maxESI then x.End() else maxESI)
  {
    TallyNext(segs, x, recvSymNum, maxESI);
    forall k | x.esi <= k < x.End() && k < |covered|
      ensures !covered[k]
    {
      NotReceivedYet(segs, x, k);
    }
    var after := Cover(covered, x.esi, x.End());
    forall k | 0 <= k < |after|
      ensures after[k] <==> Received(Insert(segs, x), k)
    {
      InsertReceived(segs, x, k);
    }
  }

  class RecvVideoFrame {
    const fid: nat
    var completed: bool
    var tick: nat
    const srcNum: nat
    var recvSymNum: nat
    var maxESI: nat
    const accumulator: IntAccumulator
    const segments: ListHead<Segment>
    /** The header and the nodes of the segments. */
    ghost var ring: seq<ListHead<Segment>>

    /** The segments in order. */
    ghost var segs: seq<Segment>

    /** The ring holds the segments. */
    ghost predicate Linked()
      reads `segs, `ring, ring
    {
      Holds(segments, ring, segs)
    }

    ghost predicate Counted()
      reads `segs, `recvSymNum, `maxESI, accumulator
    {
      && Ordered(segs) && Tallied(segs, recvSymNum, maxESI)
      && accumulator.Valid() && accumulator.srcNum == srcNum && CoveredBy(accumulator.covered, segs)
    }

    ghost predicate Valid()
      reads `segs, `ring, `recvSymNum, `maxESI, ring, accumulator
    {
      Linked() && Counted()
    }

    /** The frame as a value. */
    ghost function State(): Frame
      reads `completed, `tick, `segs
    {
      Frame(fid, completed, tick, srcNum, segs)
    }

    /** A new frame of srcNum source symbols. */
    constructor (fid: nat, srcNum: nat, header: Segment)
      requires srcNum <= 65535
      ensures Valid() && fresh(ring) && fresh(accumulator) && State() == Frame(fid, false, 0, srcNum, [])
    {
      this.fid, this.srcNum := fid, srcNum;
      completed, tick, recvSymNum, maxESI := false, 0, 0, 0;
      accumulator := new IntAccumulator(srcNum);
      segments := new ListHead(header);
      segs := [];
      new;
      ListInitHead(segments);
      ring := [segments];
    }

    /** Whether all source symbols have arrived. */
    ghost predicate HasAllSources()
      reads `segs
    {
      srcNum >= 1 && AllSources(segs, srcNum)
    }

    lemma MetIffAllSources()
      requires Counted()
      ensures accumulator.met <==> HasAllSources()
    {
      if accumulator.met {
        forall k | 0 <= k < srcNum
          ensures Received(segs, k)
        {
          assert accumulator.covered[k];
        }
      }
      if HasAllSources() {
        forall k | 0 <= k < srcNum
          ensures accumulator.covered[k]
        {
          assert Received(segs, k);
        }
      }
    }

    /** Links a node for the segment behind the place the search found. */
    method Link(segment: Segment, pos: ListHead<Segment>, ghost k: nat)
      requires Linked() && k < |ring| && pos == ring[k]
      modifies `ring, `segs, ring
      ensures Linked() && segs == old(segs)[..k] + [segment] + old(segs)[k..]
      ensures fresh(set x | x in ring && x !in old(ring))
    {
      ghost var s, r := segs, ring;
      var node := new ListHead(segment);
      ListInsertAfter(pos, node, ring, k);
      ring := Inserted(ring, k, node);
      segs := segs[..k] + [segment] + segs[k..];
      forall j: nat | j < |segs|
        ensures ItemAt(ring, segs, j)
      {
        assert j != k ==> old(ItemAt(ring, segs, if j < k then j else j - 1));
      }
    }

    /** Where a segment belongs. */
    method FindPlace(segment: Segment) returns (pos: ListHead<Segment>, isdup: bool, ghost k: nat)
      requires Linked()
      ensures k == InsertPlace(segs, segment, |segs|) < |ring| && pos == ring[k] && isdup == IsDup(segs, segment)
    {
      var comparer := prev => SegmentInsertComparer(segment, prev);
      pos, isdup := ListInsertFromTail(segments, comparer, ring);
      k :| FirstFromTail(ring, comparer, k) && pos == ring[k] && (isdup <==> k > 0 && comparer(ring[k].item) == 0);
      assert k > 0 ==> ItemAt(ring, segs, k - 1);
      forall j | k <= j < |segs|
        ensures SegmentInsertComparer(segment, segs[j]) < 0
      {
        assert ItemAt(ring, segs, j);
      }
      PlaceUnique(segs, segment, |segs|, k);
    }

    /** Inserts a segment unless it overlaps one that is held. */
    method InsertFrameSegment(segment: Segment)
      requires Valid() && segment.Valid()
      modifies `ring, `segs, `recvSymNum, `maxESI, ring, accumulator
      ensures Valid() && segs == Insert(old(segs), segment)
      ensures fresh(set x | x in ring && x !in old(ring))
    {
      var pos, isdup, k := FindPlace(segment);
      if !isdup {
        InsertOrdered(segs, segment);
        Accepted(segs, segment, accumulator.covered, recvSymNum, maxESI);
        Link(segment, pos, k);
        Account(segment);
      }
    }

    /** Counts the symbols of a segment just linked. */
    method Account(segment: Segment)
      requires segment.Valid() && Ordered(segs) && accumulator.Valid() && accumulator.srcNum == srcNum
      requires forall k {:trigger accumulator.covered[k]} :: segment.esi <= k < segment.End() && k < |accumulator.covered| ==> !accumulator.covered[k]
      requires CoveredBy(Cover(accumulator.covered, segment.esi, segment.End()), segs)
      requires Tallied(segs, recvSymNum + segment.Cnt(), if segment.End() > maxESI then segment.End() else maxESI)
      modifies `recvSymNum, `maxESI, accumulator
      ensures Counted()
    {
      recvSymNum := recvSymNum + segment.Cnt();
      var _ := accumulator.AddRange(segment.esi, segment.Cnt());
      if segment.esi + segment.Cnt() > maxESI {
        maxESI := segment.esi + segment.Cnt();
      }
    }

    lemma ReceivedCount()
      requires Counted()
      ensures recvSymNum == Total(segs, |segs|) && maxESI == MaxEnd(segs, |segs|)
    {
    }

    method CheckReady() returns (ready: bool)
      requires Counted()
      ensures ready <==> ReadySegs(segs, srcNum)
    {
      MetIffAllSources();
      ReceivedCount();
      ready := accumulator.met || recvSymNum >= srcNum + SYMBOL_DECODE_OVERHEAD;
    }

    /** Takes a segment unless the frame is complete already. The frame is ready when all source symbols have arrived
        or enough symbols to decode; that happens once. */
    method AcceptSegment(segment: Segment, now: nat) returns (ready: bool)
      requires completed || (Valid() && segment.Valid())
      modifies `completed, `tick, `ring, `segs, `recvSymNum, `maxESI, ring, accumulator
      ensures old(completed) ==> !ready && unchanged(this) && unchanged(accumulator)
      ensures !old(completed) ==> Valid() && segs == Insert(old(segs), segment) && State() == Accept(old(State()), segment, now).(segs := segs)
      ensures !old(completed) ==> (ready <==> Handed(old(State()), segment) != [])
      ensures fresh(set x | x in ring && x !in old(ring))
    {
      if completed {
        return false;
      }
      InsertFrameSegment(segment);
      ready := CheckReady();
      Stamp(now, ready);
    }

    /** Notes when the last segment came, and whether it completed the frame. */
    method Stamp(now: nat, ready: bool)
      requires Valid()
      modifies `completed, `tick
      ensures Valid() && tick == now && completed == (old(completed) || ready)
    {
      tick := now;
      completed := completed || ready;
    }
  }

  /** The symbols of a segment that is accepted are new. */
  lemma NotReceivedYet(segs: seq<Segment>, x: Segment, k: nat)
    requires Ordered(segs) && x.Valid() && !IsDup(segs, x) && Covers(x, k)
    ensures !Received(segs, k)
  {
    DupIffOverlap(segs, x);
    forall j | 0 <= j < |segs|
      ensures Covers(segs[j], k) ==> Overlap(x, segs[j])
    {
    }
  }
}
