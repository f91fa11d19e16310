/** Runs of consecutive encoding symbols, and the ordered list of those received for a frame (src/stmrecver.cpp,
    lines 364-406). */
module Segments {
  import opened LinearAlgebra

  /** cnt symbols, the first of which has number esi. */
  datatype Segment = Segment(esi: nat, symbols: seq<Row>)
  {
    function Cnt(): nat {
      |symbols|
    }

    function End(): nat {
      esi + |symbols|
    }

    /** What the packet parser guarantees, and that ends fit 16 bits. */
    predicate Valid() {
      |symbols| >= 1 && esi + |symbols| <= 65535
    }
  }

  /** 1 if segment comes after prev, -1 if it comes before, and 0 if they overlap. */
  function SegmentInsertComparer(segment: Segment, prev: Segment): int {
    if segment.esi >= prev.esi + prev.Cnt() then 1 else if segment.esi + segment.Cnt() <= prev.esi then -1 else 0
  }

  predicate Overlap(a: Segment, b: Segment) {
    a.esi < b.End() && b.esi < a.End()
  }

  /** The segments are in the order of their symbols and disjoint. */
  ghost predicate Ordered(segs: seq<Segment>) {
    && (forall j :: 0 <= j < |segs| ==> segs[j].Valid())
    && forall j, k {:trigger segs[j], segs[k]} :: 0 <= j < k < |segs| ==> segs[j].End() <= segs[k].esi
  }

  /** How many of the first n segments do not come after x. The search from the tail stops there. */
  function InsertPlace(segs: seq<Segment>, x: Segment, n: nat): (k: nat)
    requires n <= |segs|
    ensures k <= n
  {
    if n == 0 || SegmentInsertComparer(x, segs[n - 1]) >= 0 then n else InsertPlace(segs, x, n - 1)
  }

  lemma {:induction false} PlaceFound(segs: seq<Segment>, x: Segment, n: nat)
    requires n <= |segs|
    ensures var k := InsertPlace(segs, x, n);
            && (k > 0 ==> SegmentInsertComparer(x, segs[k - 1]) >= 0)
            && (forall j {:trigger segs[j]} :: k <= j < n ==> SegmentInsertComparer(x, segs[j]) < 0)
  {
    if n > 0 && SegmentInsertComparer(x, segs[n - 1]) < 0 {
      PlaceFound(segs, x, n - 1);
    }
  }

  /** Whether x is refused as a duplicate. */
  predicate IsDup(segs: seq<Segment>, x: Segment) {
    var k := InsertPlace(segs, x, |segs|);
    k > 0 && SegmentInsertComparer(x, segs[k - 1]) == 0
  }

  function Insert(segs: seq<Segment>, x: Segment): seq<Segment> {
    if IsDup(segs, x) then segs else
    var k := InsertPlace(segs, x, |segs|);
    segs[..k] + [x] + segs[k..]
  }

  /** A segment is refused exactly when it overlaps one that is held. */
  lemma DupIffOverlap(segs: seq<Segment>, x: Segment)
    requires Ordered(segs) && x.Valid()
    ensures IsDup(segs, x) <==> exists j :: 0 <= j < |segs| && Overlap(x, segs[j])
  {
    PlaceFound(segs, x, |segs|);
    var k := InsertPlace(segs, x, |segs|);
    if k > 0 {
      assert segs[k - 1].Valid();
      if IsDup(segs, x) {
        assert Overlap(x, segs[k - 1]);
      }
    }
    forall j | 0 <= j < |segs| && Overlap(x, segs[j])
      ensures IsDup(segs, x)
    {
      assert segs[j].Valid();
      if j < k - 1 {
        assert segs[j].End() <= segs[k - 1].esi;
      }
    }
  }

  /** What comes before the place ends before x begins, and what comes after begins after x ends. */
  lemma AroundPlace(segs: seq<Segment>, x: Segment)
    requires Ordered(segs) && x.Valid() && !IsDup(segs, x)
    ensures forall i {:trigger segs[i]} :: 0 <= i < InsertPlace(segs, x, |segs|) ==> segs[i].End() <= x.esi
    ensures forall i {:trigger segs[i]} :: InsertPlace(segs, x, |segs|) <= i < |segs| ==> x.End() <= segs[i].esi
  {
    PlaceFound(segs, x, |segs|);
    var k := InsertPlace(segs, x, |segs|);
    forall i | 0 <= i < k
      ensures segs[i].End() <= x.esi
    {
      assert segs[k - 1].Valid();
    }
  }

  lemma OrderedAround(segs: seq<Segment>, x: Segment, k: nat, r: seq<Segment>)
    requires Ordered(segs) && x.Valid() && k <= |segs| && r == segs[..k] + [x] + segs[k..]
    requires forall i {:trigger segs[i]} :: 0 <= i < k ==> segs[i].End() <= x.esi
    requires forall i {:trigger segs[i]} :: k <= i < |segs| ==> x.End() <= segs[i].esi
    ensures Ordered(r)
  {
    forall j | 0 <= j < |r|
      ensures r[j] == if j < k then segs[j] else if j == k then x else segs[j - 1]
    {
    }
  }

  /** The list stays ordered and disjoint. */
  lemma InsertOrdered(segs: seq<Segment>, x: Segment)
    requires Ordered(segs) && x.Valid()
    ensures Ordered(Insert(segs, x))
  {
    if !IsDup(segs, x) {
      AroundPlace(segs, x);
      OrderedAround(segs, x, InsertPlace(segs, x, |segs|), Insert(segs, x));
    }
  }

  predicate Covers(x: Segment, n: nat) {
    x.esi <= n < x.End()
  }

  /** Symbol n was received. */
  predicate Received(segs: seq<Segment>, n: nat) {
    exists j :: 0 <= j < |segs| && Covers(segs[j], n)
  }

  /** Symbol n as it was received. */
  ghost predicate SymbolIs(segs: seq<Segment>, n: nat, symbol: Row) {
    exists j :: 0 <= j < |segs| && Covers(segs[j], n) && segs[j].symbols[n - segs[j].esi] == symbol
  }

  /** Inserting adds the symbols of x unless it is refused, and loses none. */
  lemma InsertReceived(segs: seq<Segment>, x: Segment, n: nat)
    ensures Received(Insert(segs, x), n) <==> Received(segs, n) || (!IsDup(segs, x) && Covers(x, n))
  {
    var k, r := InsertPlace(segs, x, |segs|), Insert(segs, x);
    if !IsDup(segs, x) {
      assert r[k] == x;
      forall j | 0 <= j < |segs|
        ensures segs[j] == r[if j < k then j else j + 1]
      {
      }
      forall j | 0 <= j < |r|
        ensures r[j] == if j < k then segs[j] else if j == k then x else segs[j - 1]
      {
      }
    }
  }

  /** The list holds what it held, and x unless that is refused. */
  lemma InsertElements(segs: seq<Segment>, x: Segment, y: Segment)
    ensures y in Insert(segs, x) <==> y in segs || (!IsDup(segs, x) && y == x)
  {
    var k := InsertPlace(segs, x, |segs|);
    assert segs == segs[..k] + segs[k..];
  }

  /** How many symbols the first n segments have. */
  function Total(segs: seq<Segment>, n: nat): (t: nat)
    requires n <= |segs|
  {
    if n == 0 then 0 else Total(segs, n - 1) + segs[n - 1].Cnt()
  }

  /** The greatest end of the first n segments. */
  function MaxEnd(segs: seq<Segment>, n: nat): nat
    requires n <= |segs|
  {
    if n == 0 then 0 else
    var m := MaxEnd(segs, n - 1);
    if segs[n - 1].End() > m then segs[n - 1].End() else m
  }

  lemma {:induction false} InsertedTotal(segs: seq<Segment>, r: seq<Segment>, x: Segment, k: nat, n: nat)
    requires k <= |segs| && r == segs[..k] + [x] + segs[k..] && n <= |r|
    ensures Total(r, n) == if n <= k then Total(segs, n) else Total(segs, n - 1) + x.Cnt()
    ensures MaxEnd(r, n) == if n <= k then MaxEnd(segs, n) else if x.End() > MaxEnd(segs, n - 1) then x.End() else MaxEnd(segs, n - 1)
  {
    if n > 0 {
      InsertedTotal(segs, r, x, k, n - 1);
      assert r[n - 1] == if n - 1 < k then segs[n - 1] else if n - 1 == k then x else segs[n - 2];
    }
  }

  /** A segment that is accepted adds its count and can raise the greatest end. */
  lemma InsertTotal(segs: seq<Segment>, x: Segment)
    requires !IsDup(segs, x)
    ensures Total(Insert(segs, x), |segs| + 1) == Total(segs, |segs|) + x.Cnt()
    ensures MaxEnd(Insert(segs, x), |segs| + 1) == if x.End() > MaxEnd(segs, |segs|) then x.End() else MaxEnd(segs, |segs|)
  {
    var k := InsertPlace(segs, x, |segs|);
    InsertedTotal(segs, Insert(segs, x), x, k, |segs| + 1);
  }

  /** Ordered segments do not have more symbols than numbers below their greatest end. */
  lemma {:induction false} TotalBound(segs: seq<Segment>, n: nat)
    requires Ordered(segs) && n <= |segs|
    ensures Total(segs, n) <= MaxEnd(segs, n) <= 65535
    ensures n > 0 ==> MaxEnd(segs, n) == segs[n - 1].End()
  {
    if n > 0 {
      TotalBound(segs, n - 1);
      assert segs[n - 1].Valid();
    }
  }
}
