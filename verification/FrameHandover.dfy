/** Handing a complete frame over: by copying its source symbols, or by moving its segments to the decoder
    (StmRecverThread::HandleFrameRecved in src/stmassembler.cpp, lines 378-444). */
module FrameHandover {
  import opened LinearAlgebra
  import opened IntrusiveLists
  import opened Segments
  import opened Options
  import opened FrameStates
  import opened VideoFrames

  /** The end of the j-th segment from the front. */
  function EndOf(segs: seq<Segment>, j: nat): nat
    requires j <= |segs|
  {
    if j == 0 then 0 else segs[j - 1].End()
  }

  lemma EndsOrdered(segs: seq<Segment>, j: nat)
    requires Ordered(segs) && j <= |segs|
    ensures forall i {:trigger segs[i]} :: 0 <= i < j ==> segs[i].End() <= EndOf(segs, j)
    ensures forall i {:trigger segs[i]} :: j <= i < |segs| ==> EndOf(segs, j) <= segs[i].esi && segs[j].esi <= segs[i].esi
  {
    forall i | 0 <= i < j
      ensures segs[i].End() <= EndOf(segs, j)
    {
      assert segs[j - 1].Valid();
    }
    forall i | j <= i < |segs|
      ensures EndOf(segs, j) <= segs[i].esi && segs[j].esi <= segs[i].esi
    {
      assert segs[j].Valid();
    }
  }

  /** While source symbols are missing in the buffer, the next segment starts right after the one before. */
  lemma NextContiguous(segs: seq<Segment>, srcNum: nat, j: nat)
    requires Ordered(segs) && j <= |segs| && EndOf(segs, j) < srcNum
    requires forall k {:trigger Received(segs, k)} :: 0 <= k < srcNum ==> Received(segs, k)
    ensures j < |segs| && segs[j].esi == EndOf(segs, j)
  {
    var n := EndOf(segs, j);
    assert Received(segs, n);
    EndsOrdered(segs, j);
    var i :| 0 <= i < |segs| && Covers(segs[i], n);
  }

  /** The last segment does not end before the last source symbol. */
  lemma AllCovered(segs: seq<Segment>, srcNum: nat)
    requires Ordered(segs) && AllSources(segs, srcNum) && srcNum > 0
    ensures EndOf(segs, |segs|) >= srcNum
  {
    assert Received(segs, srcNum - 1);
    EndsOrdered(segs, |segs|);
    var i :| 0 <= i < |segs| && Covers(segs[i], srcNum - 1);
  }

  /** The first n symbols of the buffer are those received. */
  ghost predicate Copied(segs: seq<Segment>, frmbuf: seq<Row>, n: nat) {
    n <= |frmbuf| && forall k {:trigger frmbuf[k]} :: 0 <= k < n ==> SymbolIs(segs, k, frmbuf[k])
  }

  /** Copies the first cpnum symbols of a segment to their place. */
  method CopySymbols(x: Segment, cpnum: nat, frmbuf: array<Row>, ghost segs: seq<Segment>, ghost j: nat)
    requires j < |segs| && segs[j] == x && cpnum <= x.Cnt() && x.esi + cpnum <= frmbuf.Length && Copied(segs, frmbuf[..], x.esi)
    modifies frmbuf
    ensures Copied(segs, frmbuf[..], x.esi + cpnum)
  {
    for i := 0 to cpnum
      invariant Copied(segs, frmbuf[..], x.esi + i)
    {
      ghost var before := frmbuf[..];
      frmbuf[x.esi + i] := x.symbols[i];
      forall k | 0 <= k < x.esi + i + 1
        ensures SymbolIs(segs, k, frmbuf[..][k])
      {
        if k == x.esi + i {
          assert Covers(segs[j], k);
        } else {
          assert frmbuf[..][k] == before[k];
        }
      }
    }
  }

  /** Copies the source symbols in order and releases every segment once; the list is empty afterwards. */
  method CopyFrame(frame: RecvVideoFrame) returns (frmbuf: array<Row>, freed: seq<ListHead<Segment>>)
    requires frame.Valid() && frame.accumulator.met
    modifies frame`ring, frame`segs, frame.segments
    ensures fresh(frmbuf) && frmbuf.Length == frame.srcNum && Copied(old(frame.segs), frmbuf[..], frame.srcNum)
    ensures freed == old(frame.ring)[1..]
    ensures frame.Linked() && frame.segs == []
  {
    ghost var r, segs := frame.ring, frame.segs;
    frame.MetIffAllSources();
    var srcnum := frame.srcNum;
    frmbuf := new Row[srcnum](_ => []);
    freed := [];
    var srccnt, nextEsi := 0, 0;
    ghost var j := 0;
    assert LinkAt(r, 0);
    var liter := frame.segments.next;
    while liter != frame.segments
      invariant j <= |segs| && frame.Valid() && frame.ring == r && frame.segs == segs && liter == r[After(j, |r|)]
      invariant srccnt <= srcnum && (srccnt < srcnum ==> srccnt == nextEsi == EndOf(segs, j))
      invariant Copied(segs, frmbuf[..], srccnt) && freed == r[1..j + 1]
      decreases |segs| - j
    {
      assert LinkAt(r, After(j, |r|));
      var litem := liter;
      assert litem == r[j + 1] && ItemAt(r, segs, j);
      liter := liter.next;
      if srccnt < srcnum {
        NextContiguous(segs, srcnum, j);
        assert litem.item.esi == nextEsi;
        nextEsi := litem.item.End();
        var cpnum := litem.item.Cnt();
        if nextEsi > srcnum {
          cpnum := srcnum - litem.item.esi;
        }
        CopySymbols(litem.item, cpnum, frmbuf, segs, j);
        srccnt := srccnt + cpnum;
      }
      freed := freed + [litem];
      j := j + 1;
    }
    AllCovered(segs, srcnum);
    assert srccnt == srcnum;
    ListInitHead(frame.segments);
    frame.ring, frame.segs := [frame.segments], [];
  }

  /** A frame that waits for its decoding, with the segments of the list it was received in. */
  class DecodingSegments {
    const segments: ListHead<Segment>
    const srcNum: nat
    const maxESI: nat
    const frmbuffer: array<Row>
    ghost var ring: seq<ListHead<Segment>>
    ghost var segs: seq<Segment>

    constructor (header: ListHead<Segment>, srcNum: nat, maxESI: nat, frmbuffer: array<Row>, ghost ring: seq<ListHead<Segment>>,
                 ghost segs: seq<Segment>)
      ensures segments == header && this.srcNum == srcNum && this.maxESI == maxESI && this.frmbuffer == frmbuffer
      ensures this.ring == ring && this.segs == segs
    {
      segments, this.srcNum, this.maxESI, this.frmbuffer := header, srcNum, maxESI, frmbuffer;
      this.ring, this.segs := ring, segs;
    }

    /** There are at least three symbols more than there are source symbols. */
    ghost predicate Valid()
      reads this, ring
    {
      && Holds(segments, ring, segs) && Ordered(segs) && maxESI == MaxEnd(segs, |segs|) && frmbuffer.Length == srcNum
      && Total(segs, |segs|) >= srcNum + SYMBOL_DECODE_OVERHEAD
    }
  }

  /** Moves the segments of a complete frame that lacks source symbols to a list for the decoder; the list of the
      frame is empty afterwards. */
  method MoveToDecoding(frame: RecvVideoFrame) returns (decoding: DecodingSegments)
    requires frame.Valid() && ReadySegs(frame.segs, frame.srcNum) && !frame.accumulator.met
    modifies frame`ring, frame`segs, frame.ring
    ensures fresh(decoding) && fresh(decoding.segments) && fresh(decoding.frmbuffer) && decoding.Valid() && decoding.srcNum == frame.srcNum
    ensures decoding.segs == old(frame.segs) && decoding.ring[1..] == old(frame.ring)[1..]
    ensures frame.Linked() && frame.segs == []
  {
    ghost var r, segs := frame.ring, frame.segs;
    frame.MetIffAllSources();
    var frmbuf := new Row[frame.srcNum](_ => []);
    var header := new ListHead(frame.segments.item);
    decoding := new DecodingSegments(header, frame.srcNum, frame.maxESI, frmbuf, [header] + r[1..], segs);
    frame.ReceivedCount();
    MoveSegments(frame.segments, header, r, segs);
    frame.ring, frame.segs := [frame.segments], [];
  }

  /** The segments are in the list of newhdr afterwards, and that of hdr is empty. */
  method MoveSegments(hdr: ListHead<Segment>, newhdr: ListHead<Segment>, ghost r: seq<ListHead<Segment>>, ghost segs: seq<Segment>)
    requires Holds(hdr, r, segs) && newhdr !in r
    modifies r, newhdr
    ensures Holds(hdr, [hdr], []) && Holds(newhdr, [newhdr] + r[1..], segs)
  {
    ListReplaceHeader(hdr, newhdr, r);
    ghost var q := [newhdr] + r[1..];
    forall k: nat | k < |segs|
      ensures ItemAt(q, segs, k)
    {
      assert old(ItemAt(r, segs, k)) && q[k + 1] == r[k + 1];
    }
  }

  /** How a frame is handed on: with its source symbols, and the segments released, or for decoding. */
  datatype Handover = Complete(frmbuf: array<Row>, freed: seq<ListHead<Segment>>) | ForDecoding(decoding: DecodingSegments)

  /** The handover has what was to be delivered: the source symbols in order, if all are among the segments, and
      otherwise the segments. */
  ghost predicate HandsOn(h: Handover, d: Delivery)
    reads match h { case Complete(frmbuf, _) => {frmbuf as object} case ForDecoding(decoding) => {decoding as object} + set x | x in decoding.ring }
  {
    match h
    case Complete(frmbuf, _) => d.srcNum >= 1 && AllSources(d.segs, d.srcNum) && frmbuf.Length == d.srcNum && Copied(d.segs, frmbuf[..], d.srcNum)
    case ForDecoding(decoding) =>
      !(d.srcNum >= 1 && AllSources(d.segs, d.srcNum)) && decoding.Valid() && decoding.srcNum == d.srcNum && decoding.segs == d.segs
  }

  /** Hands a ready frame on; its list is empty afterwards. */
  method HandleFrameRecved(frame: RecvVideoFrame) returns (h: Handover)
    requires frame.Valid() && ReadySegs(frame.segs, frame.srcNum)
    modifies frame`ring, frame`segs, frame.ring
    ensures HandsOn(h, Delivery(frame.fid, frame.srcNum, old(frame.segs)))
    ensures h.Complete? ==> h.freed == old(frame.ring)[1..]
    ensures h.ForDecoding? ==> h.decoding.ring[1..] == old(frame.ring)[1..]
    ensures frame.Linked() && frame.segs == []
  {
    frame.MetIffAllSources();
    if frame.accumulator.met {
      var frmbuf, freed := CopyFrame(frame);
      h := Complete(frmbuf, freed);
    } else {
      var decoding := MoveToDecoding(frame);
      h := ForDecoding(decoding);
    }
  }

  /** A segment for a frame: a frame that is ready now is handed on, and the object then is what the receiver makes of
      the value. */
  method HandleSegment(frame: RecvVideoFrame, segment: Segment, now: nat) returns (h: Option<Handover>)
    requires frame.completed || (frame.Valid() && segment.Valid())
    modifies frame`completed, frame`tick, frame`ring, frame`segs, frame`recvSymNum, frame`maxESI, frame.ring, frame.accumulator
    ensures old(frame.completed) ==> h.None? && unchanged(frame)
    ensures !old(frame.completed) ==> frame.State() == Accept(old(frame.State()), segment, now)
    ensures !old(frame.completed) ==> (h.Some? <==> Handed(old(frame.State()), segment) != [])
    ensures h.Some? ==> HandsOn(h.value, Handed(old(frame.State()), segment)[0])
    ensures !old(frame.completed) ==> frame.completed || frame.Valid()
  {
    var ready := frame.AcceptSegment(segment, now);
    h := None;
    if ready {
      var handover := HandleFrameRecved(frame);
      h := Some(handover);
    }
  }
}
