/** The choice of the pivot row in phase 1 (src/fast_decode.cpp, lines 135-235). */
module PivotChoice {
  import opened Permutations
  import opened LinearAlgebra
  import opened Matrices
  import opened PivotGraph

  datatype IntPair = IntPair(first: int, second: int)

  const UINT32_MAX := 0xFFFF_FFFF

  /** Row j has exactly r non-zero octets in V. */
  ghost predicate Candidate(a: seq<Row>, j: int, i: nat, vEnd: nat, r: nat) {
    i <= j < |a| && vEnd <= |a[j]| && NonZeros(a[j], i, vEnd) == r
  }

  ghost predicate CountAt(a: seq<Row>, j: int, i: nat, vEnd: nat, r: nat) {
    0 <= j < |a| && vEnd <= |a[j]| && (NonZeros(a[j], i, vEnd) == 0 || r <= NonZeros(a[j], i, vEnd))
  }

  /** No row before hi has a positive number of non-zero octets in V that is less than r. */
  ghost predicate LeastCount(a: seq<Row>, hi: nat, i: nat, vEnd: nat, r: nat) {
    forall j {:trigger CountAt(a, j, i, vEnd, r)} :: i <= j < hi ==> CountAt(a, j, i, vEnd, r)
  }

  ghost predicate ZeroAt(a: seq<Row>, j: int, i: nat, vEnd: nat) {
    Candidate(a, j, i, vEnd, 0)
  }

  /** V is zero in the rows before hi. */
  ghost predicate ZeroRows(a: seq<Row>, hi: nat, i: nat, vEnd: nat) {
    forall j {:trigger ZeroAt(a, j, i, vEnd)} :: i <= j < hi ==> ZeroAt(a, j, i, vEnd)
  }

  /** Row j is an edge of the graph: it is not an HDPC row and its only non-zero octets in V are two ones. */
  ghost predicate EdgeRow(a: seq<Row>, tr: seq<IntPair>, j: int, i: nat, vEnd: nat) {
    Candidate(a, j, i, vEnd, 2) && Ones(a[j], i, vEnd) == 2 && j < |tr| && tr[j].first == 0
  }

  ghost predicate EdgeOf(a: seq<Row>, tr: seq<IntPair>, j: int, i: nat, vEnd: nat, p: nat, q: nat) {
    EdgeRow(a, tr, j, i, vEnd) && p < q && i + q < vEnd && a[j][i + p] == 1 && a[j][i + q] == 1
  }

  /** The edges of the rows i to hi - 1; columns are counted from i. */
  ghost function Edges(a: seq<Row>, tr: seq<IntPair>, hi: nat, i: nat, vEnd: nat): set<(nat, nat)> {
    set p: nat, q: nat | p < vEnd && q < vEnd && HasEdge(a, tr, hi, i, vEnd, p, q) :: (p, q)
  }

  ghost predicate HasEdge(a: seq<Row>, tr: seq<IntPair>, hi: nat, i: nat, vEnd: nat, p: nat, q: nat) {
    exists j :: i <= j < hi && EdgeOf(a, tr, j, i, vEnd, p, q)
  }

  /** The columns of V in which a row is one. */
  ghost function OneSet(row: Row, lo: nat, hi: nat): (s: set<nat>)
    requires hi <= |row|
    ensures forall k: nat :: k in s <==> lo <= k < hi && row[k] == 1
  {
    set k: nat | lo <= k < hi && row[k] == 1
  }

  lemma {:induction false} OneSetSize(row: Row, lo: nat, hi: nat)
    requires hi <= |row|
    ensures |OneSet(row, lo, hi)| == Ones(row, lo, hi)
    decreases hi
  {
    if hi <= lo {
      assert OneSet(row, lo, hi) == {};
    } else {
      OneSetSize(row, lo, hi - 1);
      var s, s' := OneSet(row, lo, hi - 1), OneSet(row, lo, hi);
      assert s' == if row[hi - 1] == 1 then s + {hi - 1} else s;
    }
  }

  /** A row with two ones determines its edge. */
  lemma EdgeUnique(a: seq<Row>, tr: seq<IntPair>, j: int, i: nat, vEnd: nat, p: nat, q: nat, p': nat, q': nat)
    requires EdgeOf(a, tr, j, i, vEnd, p, q) && EdgeOf(a, tr, j, i, vEnd, p', q')
    ensures p == p' && q == q'
  {
    OneSetSize(a[j], i, vEnd);
    SubsetFull({i + p, i + q}, OneSet(a[j], i, vEnd));
    SubsetFull({i + p', i + q'}, OneSet(a[j], i, vEnd));
    assert i + p' in {i + p, i + q} && i + q' in {i + p, i + q};
  }

  lemma EdgesGrow(a: seq<Row>, tr: seq<IntPair>, j: nat, i: nat, vEnd: nat, p: nat, q: nat)
    requires i <= j && EdgeOf(a, tr, j, i, vEnd, p, q)
    ensures Edges(a, tr, j + 1, i, vEnd) == Edges(a, tr, j, i, vEnd) + {(p, q)}
  {
    forall x: nat, y: nat | x < vEnd && y < vEnd
      ensures HasEdge(a, tr, j + 1, i, vEnd, x, y) <==> HasEdge(a, tr, j, i, vEnd, x, y) || (x, y) == (p, q)
    {
      if EdgeOf(a, tr, j, i, vEnd, x, y) {
        EdgeUnique(a, tr, j, i, vEnd, p, q, x, y);
      }
    }
  }

  lemma EdgesKeep(a: seq<Row>, tr: seq<IntPair>, j: nat, i: nat, vEnd: nat)
    requires !EdgeRow(a, tr, j, i, vEnd)
    ensures Edges(a, tr, j + 1, i, vEnd) == Edges(a, tr, j, i, vEnd)
  {
    forall x: nat, y: nat | x < vEnd && y < vEnd
      ensures HasEdge(a, tr, j + 1, i, vEnd, x, y) <==> HasEdge(a, tr, j, i, vEnd, x, y)
    {
    }
  }

  ghost predicate EntryAt(a: seq<Row>, tr: seq<IntPair>, list: seq<IntPair>, hi: nat, i: nat, vEnd: nat, r: nat, L: nat, p: int) {
    0 <= p < |list| && list[p].first < hi && Candidate(a, list[p].first, i, vEnd, r) && EntryOk(a, tr, list[p], i, vEnd, L)
  }

  ghost predicate CoveredAt(a: seq<Row>, list: seq<IntPair>, i: nat, vEnd: nat, r: nat, j: int) {
    Candidate(a, j, i, vEnd, r) ==> exists p :: 0 <= p < |list| && list[p].first == j
  }

  /** The entries of list are the candidates among the rows i to hi - 1, each with the first of
      its ones if it is an edge row and with L otherwise. */
  ghost predicate Listed(a: seq<Row>, tr: seq<IntPair>, list: seq<IntPair>, hi: nat, i: nat, vEnd: nat, r: nat, L: nat) {
    && (forall p {:trigger EntryAt(a, tr, list, hi, i, vEnd, r, L, p)} :: 0 <= p < |list| ==> EntryAt(a, tr, list, hi, i, vEnd, r, L, p))
    && (forall j {:trigger CoveredAt(a, list, i, vEnd, r, j)} :: i <= j < hi ==> CoveredAt(a, list, i, vEnd, r, j))
  }

  ghost predicate EntryOk(a: seq<Row>, tr: seq<IntPair>, e: IntPair, i: nat, vEnd: nat, L: nat) {
    && (EdgeRow(a, tr, e.first, i, vEnd) <==> e.second < L)
    && (e.second < L ==> i <= e.second && EndsAt(a, tr, e.first, i, vEnd, e.second - i))
  }

  /** Column i + p is an end of the edge of row j. */
  ghost predicate EndsAt(a: seq<Row>, tr: seq<IntPair>, j: int, i: nat, vEnd: nat, p: nat) {
    exists q: nat :: EdgeOf(a, tr, j, i, vEnd, p, q) || EdgeOf(a, tr, j, i, vEnd, q, p)
  }

  /** Node p lies in a component of maximum size. */
  ghost predicate MaximalAt(edges: set<(nat, nat)>, size: nat, p: nat) {
    forall m: nat :: m < size ==> |Component(edges, size, m)| <= |Component(edges, size, p)|
  }

  /** The rule for rows with r != 2 non-zero octets: least original degree, HDPC rows last. */
  ghost predicate LeastDegree(a: seq<Row>, tr: seq<IntPair>, chosen: nat, i: nat, vEnd: nat, r: nat) {
    && |tr| == |a| && Candidate(a, chosen, i, vEnd, r)
    && forall j :: i <= j < |a| && Candidate(a, j, i, vEnd, r) ==>
      && (tr[j].first == 0 ==> tr[chosen].first == 0)
      && ((tr[j].first == 0 <==> tr[chosen].first == 0) ==> tr[chosen].second <= tr[j].second)
  }

  /** The rule for two non-zero octets: an edge row of a component of maximum size, if there are edge rows. */
  ghost predicate InMaximumComponent(a: seq<Row>, tr: seq<IntPair>, chosen: nat, i: nat, vEnd: nat) {
    i <= vEnd && ((exists j :: EdgeRow(a, tr, j, i, vEnd)) ==>
      && EdgeRow(a, tr, chosen, i, vEnd)
      && forall p: nat :: EndsAt(a, tr, chosen, i, vEnd, p) ==> MaximalAt(Edges(a, tr, |a|, i, vEnd), vEnd - i, p))
  }

  lemma ListedNothing(a: seq<Row>, tr: seq<IntPair>, j: nat, i: nat, vEnd: nat, r: nat, less: nat, L: nat)
    requires LeastCount(a, j, i, vEnd, r) && 0 < less < r && j <= |a|
    ensures Listed(a, tr, [], j, i, vEnd, less, L)
  {
    forall k | i <= k < j
      ensures CoveredAt(a, [], i, vEnd, less, k)
    {
      assert CountAt(a, k, i, vEnd, r);
    }
  }

  lemma ListedGrows(a: seq<Row>, tr: seq<IntPair>, list: seq<IntPair>, j: nat, i: nat, vEnd: nat, r: nat, L: nat, added: seq<IntPair>)
    requires Listed(a, tr, list, j, i, vEnd, r, L)
    requires if Candidate(a, j, i, vEnd, r) then |added| == 1 && added[0].first == j && EntryOk(a, tr, added[0], i, vEnd, L) else added == []
    ensures Listed(a, tr, list + added, j + 1, i, vEnd, r, L)
  {
    var more, hi := list + added, j + 1;
    forall k | i <= k < j + 1
      ensures CoveredAt(a, more, i, vEnd, r, k)
    {
      if Candidate(a, k, i, vEnd, r) {
        if k == j {
          assert more[|list|].first == k;
        } else {
          assert CoveredAt(a, list, i, vEnd, r, k);
          var p :| 0 <= p < |list| && list[p].first == k;
          assert more[p].first == k;
        }
      }
    }
    forall p | 0 <= p < |more|
      ensures EntryAt(a, tr, more, hi, i, vEnd, r, L, p)
    {
      if p < |list| {
        assert EntryAt(a, tr, list, j, i, vEnd, r, L, p);
      }
    }
  }

  /** The state of the scan once the rows i to hi - 1 are done. */
  ghost predicate Scanned(a: seq<Row>, tr: seq<IntPair>, list: seq<IntPair>, edges: set<(nat, nat)>, hi: nat, i: nat, vEnd: nat, r: nat, L: nat) {
    && r <= |a|
    && (if r == |a| then list == [] && ZeroRows(a, hi, i, vEnd) else 0 < r && list != [] && Listed(a, tr, list, hi, i, vEnd, r, L))
    && LeastCount(a, hi, i, vEnd, r)
    && (r >= 2 ==> edges == Edges(a, tr, hi, i, vEnd))
  }

  lemma ScanSkip(a: seq<Row>, tr: seq<IntPair>, list: seq<IntPair>, edges: set<(nat, nat)>, j: nat, i: nat, vEnd: nat, r: nat, L: nat)
    requires Scanned(a, tr, list, edges, j, i, vEnd, r, L) && i <= j < |a| && i <= vEnd <= |a[j]| && vEnd - i < |a|
    requires NonZeros(a[j], i, vEnd) == 0 || NonZeros(a[j], i, vEnd) > r
    ensures Scanned(a, tr, list, edges, j + 1, i, vEnd, r, L)
  {
    forall k | i <= k < j + 1
      ensures CountAt(a, k, i, vEnd, r)
    {
      if k < j {
        assert CountAt(a, k, i, vEnd, r);
      }
    }
    if r < |a| {
      ListedGrows(a, tr, list, j, i, vEnd, r, L, []);
      assert list + [] == list;
    } else {
      forall k | i <= k < j + 1
        ensures ZeroAt(a, k, i, vEnd)
      {
        if k < j {
          assert ZeroAt(a, k, i, vEnd);
        }
      }
    }
    if r >= 2 {
      EdgesKeep(a, tr, j, i, vEnd);
    }
  }

  lemma ScanTake(a: seq<Row>, tr: seq<IntPair>, list: seq<IntPair>, edges: set<(nat, nat)>, j: nat, i: nat, vEnd: nat, r: nat, L: nat,
                 n: nat, e: IntPair, edges': set<(nat, nat)>)
    requires Scanned(a, tr, list, edges, j, i, vEnd, r, L) && i <= j < |a| && i <= vEnd <= |a[j]| && vEnd - i < |a|
    requires n == NonZeros(a[j], i, vEnd) && 0 < n <= r
    requires e.first == j && EntryOk(a, tr, e, i, vEnd, L)
    requires if EdgeRow(a, tr, j, i, vEnd) then exists p, q :: EdgeOf(a, tr, j, i, vEnd, p, q) && edges' == edges + {(p, q)} else edges' == edges
    ensures Scanned(a, tr, (if n < r then [] else list) + [e], edges', j + 1, i, vEnd, n, L)
  {
    forall k | i <= k < j + 1
      ensures CountAt(a, k, i, vEnd, n)
    {
      if k < j {
        assert CountAt(a, k, i, vEnd, r);
      }
    }
    assert Candidate(a, j, i, vEnd, n) && [e][0] == e;
    if n < r {
      ListedNothing(a, tr, j, i, vEnd, r, n, L);
      ListedGrows(a, tr, [], j, i, vEnd, n, L, [e]);
    } else {
      ListedGrows(a, tr, list, j, i, vEnd, n, L, [e]);
    }
    if EdgeRow(a, tr, j, i, vEnd) {
      var p, q :| EdgeOf(a, tr, j, i, vEnd, p, q) && edges' == edges + {(p, q)};
      EdgesGrow(a, tr, j, i, vEnd, p, q);
    } else {
      EdgesKeep(a, tr, j, i, vEnd);
    }
  }

  /** Enters row j, if it is an edge row, into the graph, and makes its list entry. */
  method EnterRow(ghost a: seq<Row>, isHDPC: int, ghost tr: seq<IntPair>, graph: Graph, j: nat, i: nat, vEnd: nat, L: nat, r: nat,
                  idxOfOne1: int, idxOfOne2: int)
    returns (entry: IntPair)
    requires j < |tr| && tr[j].first == isHDPC && i <= vEnd <= L && Candidate(a, j, i, vEnd, r)
    requires idxOfOne1 >= 0 ==> i <= idxOfOne1 < vEnd && a[j][idxOfOne1] == 1
    requires idxOfOne2 >= 0 ==> 0 <= idxOfOne1 < idxOfOne2 < vEnd && a[j][idxOfOne2] == 1
    requires idxOfOne2 >= 0 <==> Ones(a[j], i, vEnd) >= 2
    requires graph.Valid() && graph.curSize == vEnd - i
    modifies graph, graph.connections
    ensures graph.Valid() && graph.curSize == vEnd - i
    ensures entry.first == j && EntryOk(a, tr, entry, i, vEnd, L)
    ensures if EdgeRow(a, tr, j, i, vEnd)
      then exists p, q :: EdgeOf(a, tr, j, i, vEnd, p, q) && graph.edges == old(graph.edges) + {(p, q)}
      else graph.edges == old(graph.edges)
  {
    if r == 2 {
      if idxOfOne1 >= 0 && idxOfOne2 >= 0 {
        if isHDPC == 0 {
          assert EdgeOf(a, tr, j, i, vEnd, idxOfOne1 - i, idxOfOne2 - i);
          graph.Connect(idxOfOne1 - i, idxOfOne2 - i);
          return IntPair(j, idxOfOne1);
        }
      }
    }
    return IntPair(j, L);
  }

  /** One row of the scan. */
  method ScanRow(A: Matrix, tracking: array<IntPair>, graph: Graph, rRows: array<IntPair>, j: nat, i: nat, vEnd: nat, L: nat, r: nat, cnt: nat)
    returns (r': nat, cnt': nat)
    requires A.Valid() && |A.rows| == A.rowNum && A.colNum == L && i < vEnd <= L && vEnd - i < A.rowNum
    requires tracking.Length == rRows.Length == A.rowNum && tracking != rRows
    requires graph.connections != rRows as object && graph.connections != tracking as object
    requires graph.Valid() && graph.curSize == vEnd - i && i <= j < A.rowNum && cnt <= j - i
    requires Scanned(A.rows, tracking[..], rRows[..cnt], graph.edges, j, i, vEnd, r, L)
    modifies graph, graph.connections, rRows
    ensures graph.Valid() && graph.curSize == vEnd - i && cnt' <= j + 1 - i
    ensures Scanned(A.rows, tracking[..], rRows[..cnt'], graph.edges, j + 1, i, vEnd, r', L)
  {
    var nonZeros, idxOfOne1, idxOfOne2 := A.CountRow(j, i, vEnd, r);
    ghost var a, tr, list, edges := A.rows, tracking[..], rRows[..cnt], graph.edges;
    r', cnt' := r, cnt;
    if nonZeros > r || nonZeros == 0 {
      ScanSkip(a, tr, list, edges, j, i, vEnd, r, L);
      return;
    }
    if nonZeros < r {
      r', cnt' := nonZeros, 0;
    }
    var entry := EnterRow(a, tracking[j].first, tr, graph, j, i, vEnd, L, r', idxOfOne1, idxOfOne2);
    rRows[cnt'] := entry;
    cnt' := cnt' + 1;
    ScanTake(a, tr, list, edges, j, i, vEnd, r, L, r', entry, graph.edges);
    assert rRows[..cnt'] == (if r' < r then [] else list) + [entry];
  }

  /** Scans the rows from i on for the least number r of non-zero octets in V (r == M when V is zero), lists
      the rows that have that many, and enters the edge rows into the graph. */
  method ScanRows(A: Matrix, tracking: array<IntPair>, graph: Graph, rRows: array<IntPair>, i: nat, vEnd: nat, L: nat)
    returns (r: nat, cnt: nat)
    requires A.Valid() && |A.rows| == A.rowNum && A.colNum == L && i < vEnd <= L && i < A.rowNum && vEnd - i < A.rowNum
    requires tracking.Length == rRows.Length == A.rowNum && tracking != rRows
    requires rRows != A.rowIdxes as object && rRows != A.data as object && graph.connections != rRows as object
    requires graph.connections != tracking as object && graph.connections != A.rowIdxes as object && graph.connections != A.data as object
    requires graph.Valid() && vEnd - i <= graph.maxSize
    modifies graph, graph.connections, rRows
    ensures graph.Valid() && graph.curSize == vEnd - i
    ensures cnt <= A.rowNum && Scanned(A.rows, tracking[..], rRows[..cnt], graph.edges, A.rowNum, i, vEnd, r, L)
  {
    var M := A.rowNum;
    ghost var tr := tracking[..];
    graph.Reset(vEnd - i);
    r := M;
    cnt := 0;
    assert Edges(A.rows, tr, i, i, vEnd) == {};
    for j := i to M
      invariant cnt <= j - i && tracking[..] == tr
      invariant A.Valid() && |A.rows| == M && A.rows == old(A.rows)
      invariant graph.Valid() && graph.curSize == vEnd - i
      invariant Scanned(A.rows, tr, rRows[..cnt], graph.edges, j, i, vEnd, r, L)
    {
      r, cnt := ScanRow(A, tracking, graph, rRows, j, i, vEnd, L, r, cnt);
    }
  }

  lemma EdgesInRange(a: seq<Row>, tr: seq<IntPair>, hi: nat, i: nat, vEnd: nat)
    requires i <= vEnd
    ensures forall e :: e in Edges(a, tr, hi, i, vEnd) ==> e.0 < e.1 < vEnd - i
  {
  }

  lemma LinkedComponents(edges: set<(nat, nat)>, size: nat, a: nat, b: nat)
    requires Linked(edges, a, b)
    ensures Component(edges, size, a) == Component(edges, size, b)
  {
    LinkedSymmetric(edges, a, b);
    forall m: nat | m < size
      ensures Linked(edges, a, m) <==> Linked(edges, b, m)
    {
      if Linked(edges, a, m) {
        LinkedTransitive(edges, b, a, m);
      }
      if Linked(edges, b, m) {
        LinkedTransitive(edges, a, b, m);
      }
    }
  }

  lemma EdgeEndsLinked(edges: set<(nat, nat)>, size: nat, p: nat, q: nat)
    requires (p, q) in edges
    ensures Component(edges, size, p) == Component(edges, size, q)
  {
    assert Adjacent(edges, p, q);
    LinkedEdge(edges, p, q);
    LinkedComponents(edges, size, p, q);
  }

  lemma {:induction false} LargestComponent(edges: set<(nat, nat)>, size: nat, k: nat) returns (n: nat)
    requires 0 < k
    ensures n < k && forall m: nat :: m < k ==> |Component(edges, size, m)| <= |Component(edges, size, n)|
  {
    if k == 1 {
      n := 0;
    } else {
      n := LargestComponent(edges, size, k - 1);
      if |Component(edges, size, n)| < |Component(edges, size, k - 1)| {
        n := k - 1;
      }
    }
  }

  /** Once there is an edge, some edge lies in a component of maximum size. */
  lemma MaximumHasEdge(edges: set<(nat, nat)>, size: nat) returns (e: (nat, nat))
    requires edges != {} && forall e :: e in edges ==> e.0 < e.1 < size
    ensures e in edges && MaximalAt(edges, size, e.0)
  {
    var any :| any in edges;
    var n := LargestComponent(edges, size, size);
    assert |Component(edges, size, n)| >= 2 by {
      LinkedSelf(edges, any.0);
      assert Adjacent(edges, any.0, any.1);
      LinkedEdge(edges, any.0, any.1);
      assert {any.0, any.1} <= Component(edges, size, any.0);
      SubsetSize({any.0, any.1}, Component(edges, size, any.0));
    }
    var m: nat :| m in Component(edges, size, n) && m != n by {
      if forall x :: x in Component(edges, size, n) ==> x == n {
        SubsetSize(Component(edges, size, n), {n});
      }
    }
    var p :| IsPath(edges, p, n, m);
    assert Adjacent(edges, p[0], p[1]);
    e := if (p[0], p[1]) in edges then (p[0], p[1]) else (p[1], p[0]);
    EdgeEndsLinked(edges, size, e.0, e.1);
  }

  lemma {:induction false} SubsetSize<X>(s: set<X>, t: set<X>)
    requires s <= t
    ensures |s| <= |t|
  {
    assert t == s + (t - s);
  }

  /** The rows of least degree, HDPC rows last. */
  method ChooseByDegree(ghost a: seq<Row>, tracking: array<IntPair>, rRows: array<IntPair>, cnt: nat, i: nat, vEnd: nat, r: nat, L: nat)
    returns (chosen: nat)
    requires |a| == tracking.Length && 0 < cnt <= rRows.Length
    requires Listed(a, tracking[..], rRows[..cnt], |a|, i, vEnd, r, L)
    requires forall j :: 0 <= j < tracking.Length ==> 0 <= tracking[j].second < UINT32_MAX
    ensures LeastDegree(a, tracking[..], chosen, i, vEnd, r)
  {
    var M := tracking.Length;
    ghost var tr, list := tracking[..], rRows[..cnt];
    var minRowIdx, minRowDegree := M, UINT32_MAX;
    var minHDPCRowIdx, minHDPCRowDegree := M, UINT32_MAX;
    for p := 0 to cnt
      invariant Least(a, tr, list[..p], true, minRowIdx, minRowDegree, i, vEnd, r)
      invariant Least(a, tr, list[..p], false, minHDPCRowIdx, minHDPCRowDegree, i, vEnd, r)
    {
      var pair := rRows[p];
      assert EntryAt(a, tr, list, |a|, i, vEnd, r, L, p);
      assert list[..p + 1] == list[..p] + [pair];
      var degree := tracking[pair.first].second;
      if tracking[pair.first].first != 0 {
        if degree < minHDPCRowDegree {
          minHDPCRowDegree := degree;
          minHDPCRowIdx := pair.first;
        }
      } else {
        if degree < minRowDegree {
          minRowDegree := degree;
          minRowIdx := pair.first;
        }
      }
    }
    assert list[..cnt] == list;
    assert EntryAt(a, tr, list, |a|, i, vEnd, r, L, 0);
    chosen := if minRowIdx < M then minRowIdx else minHDPCRowIdx;
    forall j | i <= j < |a| && Candidate(a, j, i, vEnd, r)
      ensures exists p :: 0 <= p < |list| && list[p].first == j
    {
      assert CoveredAt(a, list, i, vEnd, r, j);
    }
  }

  /** idx is a listed row of least degree among the ordinary rows (or among the HDPC rows). */
  ghost predicate Least(a: seq<Row>, tr: seq<IntPair>, list: seq<IntPair>, ordinary: bool, idx: int, degree: int, i: nat, vEnd: nat, r: nat) {
    && |tr| == |a| && 0 <= idx <= |a|
    && (idx == |a| ==> degree == UINT32_MAX)
    && (idx < |a| ==> Candidate(a, idx, i, vEnd, r) && (tr[idx].first == 0 <==> ordinary) && degree == tr[idx].second)
    && (forall p :: 0 <= p < |list| && 0 <= list[p].first < |tr| && (tr[list[p].first].first == 0 <==> ordinary) ==>
         idx < |a| && degree <= tr[list[p].first].second)
  }

  /** An edge row of a component of maximum size, or else the first listed row. */
  method ChooseByGraph(ghost a: seq<Row>, ghost tr: seq<IntPair>, rRows: array<IntPair>, cnt: nat, graph: Graph, i: nat, vEnd: nat, L: nat)
    returns (chosen: nat)
    requires |tr| == |a| && 0 < cnt <= rRows.Length && i <= vEnd <= L
    requires Listed(a, tr, rRows[..cnt], |a|, i, vEnd, 2, L)
    requires graph.Valid() && graph.curSize == vEnd - i && graph.edges == Edges(a, tr, |a|, i, vEnd)
    ensures Candidate(a, chosen, i, vEnd, 2) && InMaximumComponent(a, tr, chosen, i, vEnd)
  {
    ghost var list, E, size := rRows[..cnt], graph.edges, vEnd - i;
    assert EntryAt(a, tr, list, |a|, i, vEnd, 2, L, 0);
    if graph.numOfConnections > 0 {
      for p := 0 to cnt
        invariant forall k :: 0 <= k < p ==> NotMaximal(E, size, list[k], i, L)
      {
        var pair := rRows[p];
        if pair.second < L {
          assert EntryAt(a, tr, list, |a|, i, vEnd, 2, L, p);
          ListedEnd(a, tr, pair, i, vEnd, L);
          var isMax := graph.IsMax(pair.second - i);
          if isMax {
            ListedMaximal(a, tr, pair, i, vEnd, L);
            return pair.first;
          }
        }
      }
      SomeListedIsMaximal(a, tr, list, i, vEnd, L);
    } else {
      NoEdgeRows(a, tr, list, i, vEnd, L);
    }
    chosen := rRows[0].first;
  }

  ghost predicate NotMaximal(edges: set<(nat, nat)>, size: nat, e: IntPair, i: nat, L: nat) {
    e.second < L ==> i <= e.second && !MaximalAt(edges, size, e.second - i)
  }

  lemma ListedEnd(a: seq<Row>, tr: seq<IntPair>, e: IntPair, i: nat, vEnd: nat, L: nat)
    requires EntryOk(a, tr, e, i, vEnd, L) && e.second < L
    ensures i <= e.second < vEnd
  {
  }

  lemma ListedMaximal(a: seq<Row>, tr: seq<IntPair>, e: IntPair, i: nat, vEnd: nat, L: nat)
    requires EntryOk(a, tr, e, i, vEnd, L) && i <= e.second < L && 0 <= e.first < |a| && i <= vEnd
    requires MaximalAt(Edges(a, tr, |a|, i, vEnd), vEnd - i, e.second - i)
    ensures InMaximumComponent(a, tr, e.first, i, vEnd)
  {
    var E, size, end := Edges(a, tr, |a|, i, vEnd), vEnd - i, e.second - i;
    forall p: nat | EndsAt(a, tr, e.first, i, vEnd, p)
      ensures MaximalAt(E, size, p)
    {
      EndsShareComponent(a, tr, e.first, i, vEnd, p, end);
    }
  }

  /** Both ends of the edge of a row lie in the same component. */
  lemma EndsShareComponent(a: seq<Row>, tr: seq<IntPair>, j: nat, i: nat, vEnd: nat, p: nat, q: nat)
    requires EndsAt(a, tr, j, i, vEnd, p) && EndsAt(a, tr, j, i, vEnd, q) && i <= vEnd
    ensures Component(Edges(a, tr, |a|, i, vEnd), vEnd - i, p) == Component(Edges(a, tr, |a|, i, vEnd), vEnd - i, q)
  {
    var E, size := Edges(a, tr, |a|, i, vEnd), vEnd - i;
    var p': nat :| EdgeOf(a, tr, j, i, vEnd, p, p') || EdgeOf(a, tr, j, i, vEnd, p', p);
    var q': nat :| EdgeOf(a, tr, j, i, vEnd, q, q') || EdgeOf(a, tr, j, i, vEnd, q', q);
    var x: nat, y: nat := if p < p' then p else p', if p < p' then p' else p;
    var x': nat, y': nat := if q < q' then q else q', if q < q' then q' else q;
    EdgeUnique(a, tr, j, i, vEnd, x, y, x', y');
    assert HasEdge(a, tr, |a|, i, vEnd, x, y);
    assert (x, y) in E;
    EdgeEndsLinked(E, size, x, y);
  }

  lemma SomeListedIsMaximal(a: seq<Row>, tr: seq<IntPair>, list: seq<IntPair>, i: nat, vEnd: nat, L: nat)
    requires i <= vEnd && Listed(a, tr, list, |a|, i, vEnd, 2, L) && Edges(a, tr, |a|, i, vEnd) != {}
    ensures exists k :: 0 <= k < |list| && !NotMaximal(Edges(a, tr, |a|, i, vEnd), vEnd - i, list[k], i, L)
  {
    var E, size := Edges(a, tr, |a|, i, vEnd), vEnd - i;
    EdgesInRange(a, tr, |a|, i, vEnd);
    var e := MaximumHasEdge(E, size);
    var j :| i <= j < |a| && EdgeOf(a, tr, j, i, vEnd, e.0, e.1);
    assert CoveredAt(a, list, i, vEnd, 2, j);
    var k :| 0 <= k < |list| && list[k].first == j;
    assert EntryAt(a, tr, list, |a|, i, vEnd, 2, L, k);
    assert EndsAt(a, tr, j, i, vEnd, e.0);
    EndsShareComponent(a, tr, j, i, vEnd, e.0, list[k].second - i);
    assert !NotMaximal(E, size, list[k], i, L);
  }

  lemma NoEdgeRows(a: seq<Row>, tr: seq<IntPair>, list: seq<IntPair>, i: nat, vEnd: nat, L: nat)
    requires Listed(a, tr, list, |a|, i, vEnd, 2, L) && Edges(a, tr, |a|, i, vEnd) == {}
    ensures !exists j :: EdgeRow(a, tr, j, i, vEnd)
  {
    if j :| EdgeRow(a, tr, j, i, vEnd) {
      assert CoveredAt(a, list, i, vEnd, 2, j);
      var k :| 0 <= k < |list| && list[k].first == j;
      assert EntryAt(a, tr, list, |a|, i, vEnd, 2, L, k);
      var p := list[k].second - i;
      var q: nat :| EdgeOf(a, tr, j, i, vEnd, p, q) || EdgeOf(a, tr, j, i, vEnd, q, p);
      assert HasEdge(a, tr, |a|, i, vEnd, p, q) || HasEdge(a, tr, |a|, i, vEnd, q, p);
      assert (p, q) in Edges(a, tr, |a|, i, vEnd) || (q, p) in Edges(a, tr, |a|, i, vEnd);
    }
  }

  /** Chooses the pivot row of V; r == M when V is zero and there is none. */
  method ChooseRow(A: Matrix, tracking: array<IntPair>, graph: Graph, rRows: array<IntPair>, i: nat, vEnd: nat, L: nat)
    returns (r: nat, chosen: nat)
    requires A.Valid() && |A.rows| == A.rowNum && A.colNum == L && i < vEnd <= L && i < A.rowNum && vEnd - i < A.rowNum
    requires tracking.Length == rRows.Length == A.rowNum && tracking != rRows
    requires rRows != A.rowIdxes as object && rRows != A.data as object && graph.connections != rRows as object
    requires graph.connections != tracking as object && graph.connections != A.rowIdxes as object && graph.connections != A.data as object
    requires graph.Valid() && vEnd - i <= graph.maxSize
    requires forall j :: 0 <= j < tracking.Length ==> 0 <= tracking[j].second < UINT32_MAX
    modifies graph, graph.connections, rRows
    ensures graph.Valid() && r <= A.rowNum
    ensures r == A.rowNum ==> ZeroRows(A.rows, A.rowNum, i, vEnd)
    ensures r < A.rowNum ==> 0 < r && Candidate(A.rows, chosen, i, vEnd, r) && LeastCount(A.rows, A.rowNum, i, vEnd, r)
    ensures r < A.rowNum && r != 2 ==> LeastDegree(A.rows, tracking[..], chosen, i, vEnd, r)
    ensures r < A.rowNum && r == 2 ==> InMaximumComponent(A.rows, tracking[..], chosen, i, vEnd)
  {
    var cnt;
    r, cnt := ScanRows(A, tracking, graph, rRows, i, vEnd, L);
    if r == A.rowNum {
      chosen := r;
    } else if r != 2 {
      chosen := ChooseByDegree(A.rows, tracking, rRows, cnt, i, vEnd, r, L);
    } else {
      chosen := ChooseByGraph(A.rows, tracking[..], rRows, cnt, graph, i, vEnd, L);
    }
  }
}
