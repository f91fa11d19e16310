/** What a frame holds after any sequence of segments has arrived: any order, duplicates and losses. */
module Arrivals {
  import opened Segments
  import opened FrameStates

  /** The segments held after all arrivals. */
  ghost function InsertAll(arrived: seq<Segment>): seq<Segment> {
    if arrived == [] then [] else Insert(InsertAll(arrived[..|arrived| - 1]), arrived[|arrived| - 1])
  }

  lemma InsertAllNext(arrived: seq<Segment>, x: Segment)
    ensures InsertAll(arrived + [x]) == Insert(InsertAll(arrived), x)
  {
    assert (arrived + [x])[..|arrived|] == arrived;
  }

  ghost predicate AllValid(arrived: seq<Segment>) {
    forall j {:trigger arrived[j]} :: 0 <= j < |arrived| ==> arrived[j].Valid()
  }

  /** The list is ordered and disjoint whatever arrives. */
  lemma {:induction false} InsertAllOrdered(arrived: seq<Segment>)
    requires AllValid(arrived)
    ensures Ordered(InsertAll(arrived))
  {
    if arrived != [] {
      var before := arrived[..|arrived| - 1];
      InsertAllOrdered(before);
      InsertOrdered(InsertAll(before), arrived[|arrived| - 1]);
    }
  }

  /** Any two arrivals are the same segment or have no symbol in common, as when slices are only repeated. */
  ghost predicate OnlyRepeats(arrived: seq<Segment>) {
    forall x, y {:trigger x in arrived, y in arrived} :: x in arrived && y in arrived ==> x == y || !Overlap(x, y)
  }

  /** Every segment that is held has arrived. */
  lemma {:induction false} HeldHasArrived(arrived: seq<Segment>, y: Segment)
    requires y in InsertAll(arrived)
    ensures y in arrived
  {
    var before := arrived[..|arrived| - 1];
    InsertElements(InsertAll(before), arrived[|arrived| - 1], y);
    if y != arrived[|arrived| - 1] {
      HeldHasArrived(before, y);
    }
  }

  /** With repeats only, a segment is refused because the same one is held. */
  lemma DupIsHeld(arrived: seq<Segment>, x: Segment)
    requires AllValid(arrived) && x.Valid() && OnlyRepeats(arrived + [x])
    ensures IsDup(InsertAll(arrived), x) ==> x in InsertAll(arrived)
  {
    var held := InsertAll(arrived);
    InsertAllOrdered(arrived);
    DupIffOverlap(held, x);
    if IsDup(held, x) {
      var i :| 0 <= i < |held| && Overlap(x, held[i]);
      HeldHasArrived(arrived, held[i]);
      assert held[i] in arrived + [x] && x in arrived + [x];
    }
  }

  ghost predicate SomeCovers(arrived: seq<Segment>, k: nat) {
    exists x :: x in arrived && Covers(x, k)
  }

  lemma ReceivedStep(arrived: seq<Segment>, x: Segment, k: nat, before: seq<Segment>, after: seq<Segment>, dup: bool)
    requires dup ==> x in before
    requires Segments.Received(before, k) <==> SomeCovers(arrived, k)
    requires Segments.Received(after, k) <==> Segments.Received(before, k) || (!dup && Covers(x, k))
    ensures Segments.Received(after, k) <==> SomeCovers(arrived + [x], k)
  {
    if dup && Covers(x, k) {
      var i :| 0 <= i < |before| && before[i] == x;
      assert Covers(before[i], k);
    }
    assert x in arrived + [x];
    forall y | y in arrived
      ensures y in arrived + [x]
    {
    }
  }

  /** With repeats only, the symbols received are those of all arrivals: the order does not matter. */
  lemma {:induction false} ReceivedIffArrived(arrived: seq<Segment>, k: nat)
    requires AllValid(arrived) && OnlyRepeats(arrived)
    ensures Segments.Received(InsertAll(arrived), k) <==> SomeCovers(arrived, k)
  {
    if arrived != [] {
      var front, x := arrived[..|arrived| - 1], arrived[|arrived| - 1];
      assert arrived == front + [x];
      forall y | y in front
        ensures y in arrived
      {
      }
      var before := InsertAll(front);
      ReceivedIffArrived(front, k);
      InsertReceived(before, x, k);
      DupIsHeld(front, x);
      ReceivedStep(front, x, k, before, Insert(before, x), IsDup(before, x));
    }
  }

  ghost predicate AllArrived(arrived: seq<Segment>, srcNum: nat) {
    forall k: nat {:trigger SomeCovers(arrived, k)} :: k < srcNum ==> SomeCovers(arrived, k)
  }

  /** All source symbols are held exactly when every one is in some arrival. */
  lemma CompleteIffAllArrived(arrived: seq<Segment>, srcNum: nat)
    requires AllValid(arrived) && OnlyRepeats(arrived)
    ensures AllSources(InsertAll(arrived), srcNum) <==> AllArrived(arrived, srcNum)
  {
    forall k: nat | k < srcNum
      ensures Segments.Received(InsertAll(arrived), k) <==> SomeCovers(arrived, k)
    {
      ReceivedIffArrived(arrived, k);
    }
  }

  lemma {:induction false} StillReadyAfter(arrived: seq<Segment>, m: nat, n: nat, srcNum: nat)
    requires m <= n <= |arrived| && ReadySegs(InsertAll(arrived[..m]), srcNum)
    ensures ReadySegs(InsertAll(arrived[..n]), srcNum)
    decreases n
  {
    if m < n {
      StillReadyAfter(arrived, m, n - 1, srcNum);
      assert arrived[..n] == arrived[..n - 1] + [arrived[n - 1]];
      InsertAllNext(arrived[..n - 1], arrived[n - 1]);
      StillReady(InsertAll(arrived[..n - 1]), arrived[n - 1], srcNum);
    }
  }

  /** How many arrivals it takes until the frame is ready. */
  ghost function ReadyAt(arrived: seq<Segment>, srcNum: nat): (n: nat)
    requires ReadySegs(InsertAll(arrived), srcNum)
    ensures n <= |arrived| && ReadySegs(InsertAll(arrived[..n]), srcNum)
    ensures forall m {:trigger arrived[..m]} :: 0 <= m < n ==> !ReadySegs(InsertAll(arrived[..m]), srcNum)
  {
    if arrived == [] then 0 else
    var front := arrived[..|arrived| - 1];
    if ReadySegs(InsertAll(front), srcNum) then
      assert forall m {:trigger arrived[..m]} :: 0 <= m <= |front| ==> arrived[..m] == front[..m];
      ReadyAt(front, srcNum)
    else
      assert arrived[..|arrived|] == arrived;
      assert forall m {:trigger arrived[..m]} :: 0 <= m < |arrived| ==> !ReadySegs(InsertAll(arrived[..m]), srcNum) by {
        forall m | 0 <= m < |arrived|
          ensures !ReadySegs(InsertAll(arrived[..m]), srcNum)
        {
          if ReadySegs(InsertAll(arrived[..m]), srcNum) {
            StillReadyAfter(arrived, m, |front|, srcNum);
          }
        }
      }
      |arrived|
  }

  /** Further arrivals do not change when the frame was ready. */
  lemma ReadyAtStays(arrived: seq<Segment>, x: Segment, srcNum: nat)
    requires ReadySegs(InsertAll(arrived), srcNum)
    ensures ReadySegs(InsertAll(arrived + [x]), srcNum)
    ensures ReadyAt(arrived + [x], srcNum) == ReadyAt(arrived, srcNum)
    ensures (arrived + [x])[..ReadyAt(arrived, srcNum)] == arrived[..ReadyAt(arrived, srcNum)]
  {
    InsertAllNext(arrived, x);
    StillReady(InsertAll(arrived), x, srcNum);
    assert (arrived + [x])[..|arrived|] == arrived;
  }

  /** The arrival that makes the frame ready is the last so far. */
  lemma ReadyAtLast(arrived: seq<Segment>, x: Segment, srcNum: nat)
    requires !ReadySegs(InsertAll(arrived), srcNum) && ReadySegs(InsertAll(arrived + [x]), srcNum)
    ensures ReadyAt(arrived + [x], srcNum) == |arrived| + 1 && (arrived + [x])[..|arrived| + 1] == arrived + [x]
  {
    assert (arrived + [x])[..|arrived|] == arrived;
  }
}
