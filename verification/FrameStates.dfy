/** A video frame as a value: its segments, when it is ready, and what a segment does to it (src/stmrecver.cpp, lines
    104-120). */
module FrameStates {
  import opened Segments

  const SYMBOL_DECODE_OVERHEAD := 3

  /** A frame being received, or one that was handed on and holds its place only. */
  datatype Frame = Frame(fid: nat, completed: bool, tick: nat, srcNum: nat, segs: seq<Segment>)

  /** A frame handed on, with the segments it then had. */
  datatype Delivery = Delivery(fid: nat, srcNum: nat, segs: seq<Segment>)

  predicate AllSources(segs: seq<Segment>, srcNum: nat) {
    forall k: nat {:trigger Received(segs, k)} :: k < srcNum ==> Received(segs, k)
  }

  /** All source symbols are there, or enough symbols to decode. */
  predicate ReadySegs(segs: seq<Segment>, srcNum: nat) {
    (srcNum >= 1 && AllSources(segs, srcNum)) || Total(segs, |segs|) >= srcNum + SYMBOL_DECODE_OVERHEAD
  }

  /** The frame after a segment: once it is ready its segments are handed on. */
  function Accept(frm: Frame, segment: Segment, now: nat): Frame {
    var segs := Insert(frm.segs, segment);
    if ReadySegs(segs, frm.srcNum) then frm.(completed := true, tick := now, segs := []) else frm.(tick := now, segs := segs)
  }

  /** What is handed on when a segment comes. */
  function Handed(frm: Frame, segment: Segment): seq<Delivery> {
    var segs := Insert(frm.segs, segment);
    if ReadySegs(segs, frm.srcNum) then [Delivery(frm.fid, frm.srcNum, segs)] else []
  }

  lemma NothingReady(srcNum: nat)
    ensures !ReadySegs([], srcNum)
  {
    if srcNum >= 1 {
      assert !Received([], 0);
    }
  }

  /** More segments do not make a frame less ready. */
  lemma StillReady(segs: seq<Segment>, x: Segment, srcNum: nat)
    requires ReadySegs(segs, srcNum)
    ensures ReadySegs(Insert(segs, x), srcNum)
  {
    if srcNum >= 1 && AllSources(segs, srcNum) {
      forall k: nat | k < srcNum
        ensures Received(Insert(segs, x), k)
      {
        InsertReceived(segs, x, k);
      }
    } else if !IsDup(segs, x) {
      InsertTotal(segs, x);
    }
  }
}
