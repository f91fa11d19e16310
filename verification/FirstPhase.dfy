/** Phase 1 of the decoder (src/fast_decode.cpp, lines 103-306): A is brought to a diagonal block beside the
    columns of U, and X follows the swaps but not the eliminations. */
module FirstPhase {
  import opened Octets
  import opened Permutations
  import opened LinearAlgebra
  import opened Matrices
  import opened Elimination
  import opened ColumnMoves
  import opened RowAdditions
  import opened PivotGraph
  import opened PivotChoice
  import opened PivotRuns
  import opened Params

  ghost predicate Apart(A: Matrix, X: Matrix, D: Matrix, c: array<nat>) {
    && A.Footprint() !! X.Footprint() !! D.Footprint()
    && c as object !in A.Footprint() + X.Footprint() + D.Footprint()
  }

  /** Clears the octet of row j in column i, where row i holds alpha. */
  method EliminateRow(F: Field, A: Matrix, D: Matrix, i: nat, j: nat, alpha: Octet)
    requires Laws(F)
    requires A.Valid() && D.Valid() && A.Footprint() !! D.Footprint() && |A.rows| == |D.rows|
    requires i < |A.rows| && i < A.colNum && j < |A.rows| && j != i && alpha != 0
    modifies A`rows, A.data, D`rows, D.data
    ensures A.Valid() && D.Valid()
    ensures var f := Div(F, old(A.rows)[j][i], alpha);
      && A.rows == old(A.rows)[j := AddScaled(F, old(A.rows)[j], old(A.rows)[i], f)]
      && D.rows == old(D.rows)[j := AddScaled(F, old(D.rows)[j], old(D.rows)[i], f)]
  {
    var beta := A.GetAt(j, i);
    if beta == 0 {
      DivZero(F, alpha);
      AddScaledZero(F, A.rows[j], A.rows[i]);
      AddScaledZero(F, D.rows[j], D.rows[i]);
      return;
    }
    var divisor := Div(F, beta, alpha);
    A.XorRows(F, j, i, divisor);
    D.XorRows(F, j, i, divisor);
  }

  /** Clears column i below row i. */
  method EliminateBelow(F: Field, A: Matrix, D: Matrix, i: nat)
    requires Laws(F)
    requires A.Valid() && D.Valid() && A.Footprint() !! D.Footprint() && |A.rows| == |D.rows| && i < |A.rows| && i < A.colNum
    requires A.rowNum == |A.rows| && A.rows[i][i] != 0
    modifies A`rows, A.data, D`rows, D.data
    ensures A.Valid() && D.Valid()
    ensures Multiplied(F, old(A.rows), i, Factors(F, old(A.rows), i), A.rows, |A.rows|)
    ensures Multiplied(F, old(D.rows), i, Factors(F, old(A.rows), i), D.rows, |D.rows|)
  {
    ghost var a, d := A.rows, D.rows;
    ghost var f := Factors(F, a, i);
    MultipliedNone(F, a, i, f, i + 1);
    MultipliedNone(F, d, i, f, i + 1);
    var alpha := A.GetAt(i, i);
    for j := i + 1 to A.rowNum
      invariant A.Valid() && D.Valid()
      invariant Multiplied(F, a, i, f, A.rows, j) && Multiplied(F, d, i, f, D.rows, j)
    {
      EliminateNext(F, A, D, i, j, alpha, a, d, f);
    }
  }

  /** One more row of the elimination of the rows a and d. */
  method EliminateNext(F: Field, A: Matrix, D: Matrix, i: nat, j: nat, alpha: Octet, ghost a: seq<Row>, ghost d: seq<Row>, ghost f: Row)
    requires Laws(F)
    requires A.Valid() && D.Valid() && A.Footprint() !! D.Footprint() && |A.rows| == |D.rows|
    requires i < j < |A.rows| && i < A.colNum && alpha != 0
    requires Multiplied(F, a, i, f, A.rows, j) && Multiplied(F, d, i, f, D.rows, j)
    requires f[i] == 0 && i < |a[j]| && f[j] == Div(F, a[j][i], alpha)
    modifies A`rows, A.data, D`rows, D.data
    ensures A.Valid() && D.Valid()
    ensures Multiplied(F, a, i, f, A.rows, j + 1) && Multiplied(F, d, i, f, D.rows, j + 1)
  {
    MultipliedNext(F, a, i, f, A.rows, j);
    MultipliedNext(F, d, i, f, D.rows, j);
    EliminateRow(F, A, D, i, j, alpha);
  }

  /** Everything phase 1 keeps: the solutions of the original system, the shape of A, and the relation of X to A. */
  ghost predicate PhaseOne(F: Field, A0: seq<Row>, D0: seq<Row>, a: seq<Row>, x: seq<Row>, d: seq<Row>, c: seq<nat>,
                           i: nat, vEnd: nat, L: nat, T: nat) {
    && i <= vEnd <= L && i <= |a| == |x| == |d|
    && |c| == L && Tracks(F, A0, D0, a, d, c, T) && Diagonalized(a, i, vEnd)
         && exists w :: Shadows(F, x, a, w, i, L)
  }

  lemma PhaseOneInitially(F: Field, A0: seq<Row>, D0: seq<Row>, vEnd: nat, L: nat, T: nat)
    requires Laws(F)
    requires |A0| == |D0| && IsMatrix(A0, L) && IsMatrix(D0, T) && vEnd <= L
    ensures PhaseOne(F, A0, D0, A0, A0, D0, Identity(L), 0, vEnd, L, T)
  {
    TracksInitially(F, A0, D0, L, T);
    ShadowsInitially(F, A0, L);
  }

  lemma PhaseOneSwapRows(F: Field, A0: seq<Row>, D0: seq<Row>, a: seq<Row>, x: seq<Row>, d: seq<Row>, c: seq<nat>,
                         i: nat, vEnd: nat, L: nat, T: nat, p: nat)
    requires PhaseOne(F, A0, D0, a, x, d, c, i, vEnd, L, T) && i <= p < |a|
    ensures PhaseOne(F, A0, D0, SwapAt(a, i, p), SwapAt(x, i, p), SwapAt(d, i, p), c, i, vEnd, L, T)
  {
    var w :| Shadows(F, x, a, w, i, L);
    TracksSwapRows(F, A0, D0, a, d, c, T, i, p);
    DiagonalizedSwapRows(a, i, vEnd, p);
    ShadowsSwapRows(F, x, a, w, i, L, p);
  }

  lemma PhaseOneReorder(F: Field, A0: seq<Row>, D0: seq<Row>, a: seq<Row>, x: seq<Row>, d: seq<Row>, c: seq<nat>,
                        i: nat, vEnd: nat, L: nat, T: nat, a': seq<Row>, x': seq<Row>, c': seq<nat>, s: seq<nat>)
    requires Laws(F)
    requires PhaseOne(F, A0, D0, a, x, d, c, i, vEnd, L, T)
    requires Reordered(a, x, c, a', x', c', s, i, vEnd)
    ensures PhaseOne(F, A0, D0, a', x', d, c', i, vEnd, L, T)
  {
    var w :| Shadows(F, x, a, w, i, L);
    TracksPermuteColumns(F, A0, D0, a, d, c, T, s);
    DiagonalizedPermuteColumns(a, i, vEnd, s);
    ShadowsPermuteColumns(F, x, a, w, i, L, s);
  }

  lemma PhaseOneEliminate(F: Field, A0: seq<Row>, D0: seq<Row>, a: seq<Row>, x: seq<Row>, d: seq<Row>, c: seq<nat>,
                          i: nat, vEnd: nat, L: nat, T: nat, vEnd': nat, a': seq<Row>, d': seq<Row>)
    requires Laws(F)
    requires PhaseOne(F, A0, D0, a, x, d, c, i, vEnd, L, T)
    requires IsMatrix(a, L) && i < vEnd' <= vEnd && i < |a| && a[i][i] != 0 && forall q :: i < q < vEnd' ==> a[i][q] == 0
    requires Multiplied(F, a, i, Factors(F, a, i), a', |a|) && Multiplied(F, d, i, Factors(F, a, i), d', |a|)
    ensures PhaseOne(F, A0, D0, a', x, d', c, i + 1, vEnd', L, T)
  {
    var w :| Shadows(F, x, a, w, i, L);
    MultipliedAll(F, a, i, Factors(F, a, i), a');
    MultipliedAll(F, d, i, Factors(F, a, i), d');
    TracksAddMultiples(F, A0, D0, a, d, c, T, i, Factors(F, a, i));
    DiagonalizedEliminate(F, a, i, vEnd, vEnd');
    ShadowsEliminate(F, x, a, w, i, L);
  }

  /** The working storage of phase 1 is apart from the matrices. */
  ghost predicate Separate(A: Matrix, X: Matrix, D: Matrix, c: array<nat>, tracking: array<IntPair>, rRows: array<IntPair>, graph: Graph) {
    var s := A.Footprint() + X.Footprint() + D.Footprint();
    && tracking !in s && rRows !in s && graph.connections !in s && graph !in s
    && tracking != rRows && tracking as object != graph.connections && rRows as object != graph.connections
    && c as object != tracking && c as object != rRows && c as object != graph.connections
  }

  ghost predicate Sized(A: Matrix, X: Matrix, D: Matrix, c: array<nat>, L: nat)
    reads A, A.rowIdxes, A.data, X, X.rowIdxes, X.data, D, D.rowIdxes, D.data
  {
    && A.Valid() && X.Valid() && D.Valid()
    && A.colNum == X.colNum == c.Length == L <= A.rowNum
    && |A.rows| == |X.rows| == |D.rows| == A.rowNum == X.rowNum == D.rowNum
  }

  /** Swaps the rows i and chosen everywhere. */
  method SwapPivotRow(A: Matrix, X: Matrix, D: Matrix, c: array<nat>, tracking: array<IntPair>, i: nat, chosen: nat)
    requires Sized(A, X, D, c, A.colNum) && A.Footprint() !! X.Footprint() !! D.Footprint()
    requires tracking.Length == A.rowNum && i < A.rowNum && chosen < A.rowNum
    requires tracking as object !in A.Footprint() + X.Footprint() + D.Footprint()
    modifies A`rows, A.rowIdxes, X`rows, X.rowIdxes, D`rows, D.rowIdxes, tracking
    ensures Sized(A, X, D, c, A.colNum)
    ensures A.rows == SwapAt(old(A.rows), i, chosen) && X.rows == SwapAt(old(X.rows), i, chosen) && D.rows == SwapAt(old(D.rows), i, chosen)
    ensures tracking[..] == SwapAt(old(tracking[..]), i, chosen)
  {
    if chosen != i {
      A.SwapRows(i, chosen);
      X.SwapRows(i, chosen);
      D.SwapRows(i, chosen);
      tracking[i], tracking[chosen] := tracking[chosen], tracking[i];
    }
  }

  /** Makes row chosen the pivot row. */
  method PivotRowFirst(F: Field, A: Matrix, X: Matrix, D: Matrix, c: array<nat>, tracking: array<IntPair>, i: nat, vEnd: nat, L: nat, r: nat, chosen: nat,
                       ghost A0: seq<Row>, ghost D0: seq<Row>)
    requires Sized(A, X, D, c, L) && Apart(A, X, D, c)
    requires tracking.Length == A.rowNum && tracking as object !in A.Footprint() + X.Footprint() + D.Footprint() && tracking as object != c
    requires i < vEnd <= L && Candidate(A.rows, chosen, i, vEnd, r)
    requires PhaseOne(F, A0, D0, A.rows, X.rows, D.rows, c[..], i, vEnd, L, D.colNum)
    modifies A`rows, A.rowIdxes, X`rows, X.rowIdxes, D`rows, D.rowIdxes, tracking
    ensures Sized(A, X, D, c, L) && i < A.rowNum && NonZeros(A.rows[i], i, vEnd) == r
    ensures tracking[..] == SwapAt(old(tracking[..]), i, chosen) && A.rows == SwapAt(old(A.rows), i, chosen)
    ensures PhaseOne(F, A0, D0, A.rows, X.rows, D.rows, c[..], i, vEnd, L, D.colNum)
  {
    PhaseOneSwapRows(F, A0, D0, A.rows, X.rows, D.rows, c[..], i, vEnd, L, D.colNum, chosen);
    SwapPivotRow(A, X, D, c, tracking, i, chosen);
    assert c[..] == old(c[..]);
  }

  /** Moves the r non-zero octets of the pivot row: one to column i, and the others to the end of V. */
  method PivotColumnsFirst(F: Field, A: Matrix, X: Matrix, D: Matrix, c: array<nat>, i: nat, vEnd: nat, L: nat, r: nat, ghost A0: seq<Row>, ghost D0: seq<Row>)
    returns (ghost s: seq<nat>)
    requires Laws(F)
    requires Sized(A, X, D, c, L) && Apart(A, X, D, c)
    requires i < vEnd <= L && 0 < r && i < A.rowNum && NonZeros(A.rows[i], i, vEnd) == r
    requires PhaseOne(F, A0, D0, A.rows, X.rows, D.rows, c[..], i, vEnd, L, D.colNum)
    modifies A`rows, A.data, X`rows, X.data, c
    ensures Sized(A, X, D, c, L)
    ensures i < vEnd - (r - 1) && |s| == L && Turned(old(A.rows), i, vEnd, r, s, A.rows)
    ensures PhaseOne(F, A0, D0, A.rows, X.rows, D.rows, c[..], i, vEnd, L, D.colNum)
  {
    ghost var a, x, d, c0 := A.rows, X.rows, D.rows, c[..];
    s := MoveNonZeros(A, X, c, i, vEnd, r);
    ReorderedSizes(a, x, c0, A.rows, X.rows, c[..], s, i, vEnd);
    PhaseOneReorder(F, A0, D0, a, x, d, c0, i, vEnd, L, D.colNum, A.rows, X.rows, c[..], s);
  }

  lemma ReorderedSizes(a: seq<Row>, x: seq<Row>, c: seq<nat>, a': seq<Row>, x': seq<Row>, c': seq<nat>, s: seq<nat>, i: nat, vEnd: nat)
    requires Reordered(a, x, c, a', x', c', s, i, vEnd)
    ensures |a'| == |a| && |x'| == |x|
  {
  }

  /** Clears column i below the pivot row. */
  method ClearPivotColumn(F: Field, A: Matrix, X: Matrix, D: Matrix, c: array<nat>, i: nat, vEnd: nat, vEnd': nat, L: nat, ghost A0: seq<Row>, ghost D0: seq<Row>,
                          ghost b: seq<Row>, ghost r: nat, ghost s: seq<nat>)
    requires Laws(F)
    requires Sized(A, X, D, c, L) && Apart(A, X, D, c)
    requires i < vEnd' <= vEnd <= L && i < A.rowNum && vEnd' == vEnd - (r - 1) && |s| == L && Turned(b, i, vEnd, r, s, A.rows)
    requires PhaseOne(F, A0, D0, A.rows, X.rows, D.rows, c[..], i, vEnd, L, D.colNum)
    modifies A`rows, A.data, D`rows, D.data
    ensures Sized(A, X, D, c, L)
    ensures PhaseOne(F, A0, D0, A.rows, X.rows, D.rows, c[..], i + 1, vEnd', L, D.colNum)
    ensures Cleared(F, b, i, vEnd, r, s, A.rows)
  {
    ghost var a, d, c0 := A.rows, D.rows, c[..];
    EliminateBelow(F, A, D, i);
    MultipliedAll(F, a, i, Factors(F, a, i), A.rows);
    ClearedBy(F, b, a, i, vEnd, r, s, A.rows);
    assert Sized(A, X, D, c, L) && c[..] == c0;
    PhaseOneEliminate(F, A0, D0, a, X.rows, d, c[..], i, vEnd, L, D.colNum, vEnd', A.rows, D.rows);
  }

  /** The part of a round behind the row swap. */
  method ClearByPivot(F: Field, A: Matrix, X: Matrix, D: Matrix, c: array<nat>, i: nat, vEnd: nat, L: nat, r: nat, ghost A0: seq<Row>, ghost D0: seq<Row>)
    returns (ghost s: seq<nat>)
    requires Laws(F)
    requires Sized(A, X, D, c, L) && Apart(A, X, D, c)
    requires i < vEnd <= L && 0 < r && i < A.rowNum && NonZeros(A.rows[i], i, vEnd) == r
    requires PhaseOne(F, A0, D0, A.rows, X.rows, D.rows, c[..], i, vEnd, L, D.colNum)
    modifies A`rows, A.data, X`rows, X.data, D`rows, D.data, c
    ensures Sized(A, X, D, c, L)
    ensures i < vEnd - (r - 1) && PhaseOne(F, A0, D0, A.rows, X.rows, D.rows, c[..], i + 1, vEnd - (r - 1), L, D.colNum)
    ensures Cleared(F, old(A.rows), i, vEnd, r, s, A.rows)
  {
    s := PivotColumnsFirst(F, A, X, D, c, i, vEnd, L, r, A0, D0);
    ClearPivotColumn(F, A, X, D, c, i, vEnd, vEnd - (r - 1), L, A0, D0, old(A.rows), r, s);
  }

  /** The rest of a round of phase 1, once row chosen with its r non-zero octets in V is the pivot row: moves it
      and its octets, and clears column i below it. */
  method UsePivot(F: Field, A: Matrix, X: Matrix, D: Matrix, c: array<nat>, tracking: array<IntPair>, i: nat, vEnd: nat, L: nat, r: nat, chosen: nat,
                  ghost A0: seq<Row>, ghost D0: seq<Row>)
    returns (ghost s: seq<nat>)
    requires Laws(F)
    requires Sized(A, X, D, c, L) && Apart(A, X, D, c)
    requires tracking.Length == A.rowNum && tracking as object !in A.Footprint() + X.Footprint() + D.Footprint() && tracking as object != c
    requires i < vEnd <= L && 0 < r && Candidate(A.rows, chosen, i, vEnd, r)
    requires PhaseOne(F, A0, D0, A.rows, X.rows, D.rows, c[..], i, vEnd, L, D.colNum)
    modifies A`rows, A.rowIdxes, A.data, X`rows, X.rowIdxes, X.data, D`rows, D.rowIdxes, D.data, c, tracking
    ensures Sized(A, X, D, c, L)
    ensures tracking[..] == SwapAt(old(tracking[..]), i, chosen)
    ensures i < vEnd - (r - 1) && PhaseOne(F, A0, D0, A.rows, X.rows, D.rows, c[..], i + 1, vEnd - (r - 1), L, D.colNum)
    ensures chosen < A.rowNum && i < A.rowNum && Cleared(F, SwapAt(old(A.rows), i, chosen), i, vEnd, r, s, A.rows)
  {
    PivotRowFirst(F, A, X, D, c, tracking, i, vEnd, L, r, chosen, A0, D0);
    ghost var swapped := tracking[..];
    s := ClearByPivot(F, A, X, D, c, i, vEnd, L, r, A0, D0);
    assert tracking[..] == swapped;
  }

  /** When V is zero the original matrix has a kernel. */
  lemma PhaseOneFails(F: Field, A0: seq<Row>, D0: seq<Row>, a: seq<Row>, x: seq<Row>, d: seq<Row>, c: seq<nat>,
                      i: nat, vEnd: nat, L: nat, T: nat)
    requires Laws(F)
    requires PhaseOne(F, A0, D0, a, x, d, c, i, vEnd, L, T) && i < vEnd && ZeroRows(a, |a|, i, vEnd)
    ensures !TrivialKernel(F, A0, L)
  {
    forall j: nat | j < |a|
      ensures a[j][i] == 0
    {
      if i <= j {
        assert ZeroAt(a, j, i, vEnd);
        NonZerosNone(a[j], i, vEnd);
      }
    }
    ZeroColumnKernel(F, a, i, L);
    SameKernel(F, A0, a, c);
  }

  lemma {:induction false} RowSumBound(row: Row, lo: nat, hi: nat)
    requires lo <= hi <= |row|
    ensures RowSum(row, lo, hi) <= 255 * (hi - lo)
    decreases hi
  {
    if lo < hi {
      RowSumBound(row, lo, hi - 1);
    }
  }

  ghost predicate DegreesBounded(tr: seq<IntPair>) {
    forall j :: 0 <= j < |tr| ==> 0 <= tr[j].second < UINT32_MAX
  }

  /** Each row's HDPC flag and original degree, on the columns that start in V. */
  method TrackRows(A: Matrix, param: Param) returns (tracking: array<IntPair>)
    requires A.Valid() && |A.rows| == A.rowNum && A.colNum == param.L && param.P <= param.L && param.L - param.P <= MAX_CONNECTIONS
    ensures fresh(tracking) && tracking.Length == A.rowNum && DegreesBounded(tracking[..])
    ensures IsMatrix(A.rows, param.L)
    ensures forall j :: 0 <= j < A.rowNum ==> tracking[j] == IntPair(if IsHDPC(param, j) then 1 else 0, Degree(A.rows[j], param))
  {
    tracking := new IntPair[A.rowNum](_ => IntPair(0, 0));
    for j := 0 to A.rowNum
      invariant forall k :: 0 <= k < tracking.Length ==> 0 <= tracking[k].second < UINT32_MAX
      invariant forall k :: 0 <= k < j ==> tracking[k] == IntPair(if IsHDPC(param, k) then 1 else 0, Degree(A.rows[k], param))
    {
      var degree := A.RowDegree(j, 0, param.L - param.P);
      RowSumBound(A.rows[j], 0, param.L - param.P);
      var isHDPC := if j >= param.S && j < param.S + param.H then 1 else 0;
      tracking[j] := IntPair(isHDPC, degree);
    }
  }

  /** What the source asserts of the parameters, and that at least one column is inactive from the start. */
  predicate ValidSizes(param: Param) {
    1 <= param.P <= param.L && param.L - param.P <= MAX_CONNECTIONS
  }

  /** One round of phase 1; r == M when V is zero and the round cannot go on. */
  method PhaseOneRound(F: Field, A: Matrix, X: Matrix, D: Matrix, c: array<nat>, tracking: array<IntPair>, rRows: array<IntPair>, graph: Graph,
                       i: nat, vEnd: nat, L: nat, ghost A0: seq<Row>, ghost D0: seq<Row>, ghost param: Param, ghost run: Phase)
    returns (r: nat, ghost next: Phase)
    requires Laws(F)
    requires Sized(A, X, D, c, L) && Apart(A, X, D, c) && Separate(A, X, D, c, tracking, rRows, graph)
    requires tracking.Length == rRows.Length == A.rowNum && graph.Valid() && DegreesBounded(tracking[..])
    requires i < vEnd <= L && vEnd - i < A.rowNum && vEnd - i <= graph.maxSize && RunTo(F, A0, param, run, A.rows, tracking[..], i, vEnd)
    requires PhaseOne(F, A0, D0, A.rows, X.rows, D.rows, c[..], i, vEnd, L, D.colNum)
    modifies A`rows, A.rowIdxes, A.data, X`rows, X.rowIdxes, X.data, D`rows, D.rowIdxes, D.data, c, tracking, rRows, graph, graph.connections
    ensures Sized(A, X, D, c, L) && graph.Valid() && DegreesBounded(tracking[..])
    ensures r < A.rowNum ==> 0 < r && i < vEnd - (r - 1) && PhaseOne(F, A0, D0, A.rows, X.rows, D.rows, c[..], i + 1, vEnd - (r - 1), L, D.colNum)
    ensures r <= A.rowNum
    ensures r == A.rowNum ==> !TrivialKernel(F, A0, L) && A.rows == old(A.rows) && ZeroRows(A.rows, |A.rows|, i, vEnd)
    ensures r < A.rowNum ==> RunTo(F, A0, param, next, A.rows, tracking[..], i + 1, vEnd - (r - 1))
  {
    ghost var c0, tr := c[..], tracking[..];
    var chosen;
    next := run;
    r, chosen := ChooseRow(A, tracking, graph, rRows, i, vEnd, L);
    assert Sized(A, X, D, c, L) && c[..] == c0 && tracking[..] == tr;
    if r == A.rowNum {
      PhaseOneFails(F, A0, D0, A.rows, X.rows, D.rows, c[..], i, vEnd, L, D.colNum);
      return;
    }
    ghost var s := UsePivot(F, A, X, D, c, tracking, i, vEnd, L, r, chosen, A0, D0);
    RunExtended(F, A0, param, run, old(A.rows), tr, i, vEnd, Choice(r, chosen, s), A.rows);
    next := Extended(run, Choice(r, chosen, s), A.rows);
    assert graph.Valid() && DegreesBounded(tracking[..]);
  }

  /** The loop of phase 1. */
  method PhaseOneLoop(F: Field, A: Matrix, X: Matrix, D: Matrix, c: array<nat>, tracking: array<IntPair>, rRows: array<IntPair>, graph: Graph,
                      param: Param, ghost A0: seq<Row>, ghost D0: seq<Row>, ghost start: Phase)
    returns (success: bool, i: nat, u: nat, ghost run: Phase)
    requires Laws(F) && ValidSizes(param)
    requires RunTo(F, A0, param, start, A.rows, tracking[..], 0, param.L - param.P)
    requires Sized(A, X, D, c, param.L) && Apart(A, X, D, c) && Separate(A, X, D, c, tracking, rRows, graph)
    requires tracking.Length == rRows.Length == A.rowNum && graph.Valid() && DegreesBounded(tracking[..]) && param.L - param.P <= graph.maxSize
    requires PhaseOne(F, A0, D0, A.rows, X.rows, D.rows, c[..], 0, param.L - param.P, param.L, D.colNum)
    modifies A`rows, A.rowIdxes, A.data, X`rows, X.rowIdxes, X.data, D`rows, D.rowIdxes, D.data, c, tracking, rRows, graph, graph.connections
    ensures Sized(A, X, D, c, param.L) && Ran(F, A0, param, run, A.rows, success)
    ensures success ==> i + u == param.L && i == |run.choices| && PhaseOne(F, A0, D0, A.rows, X.rows, D.rows, c[..], i, i, param.L, D.colNum)
    ensures !success ==> i == u == 0 && !TrivialKernel(F, A0, param.L)
  {
    var L, M := param.L, A.rowNum;
    i, u := 0, param.P;
    run := start;
    while i + u < L
      invariant i + u <= L && u >= param.P
      invariant Sized(A, X, D, c, L) && graph.Valid() && DegreesBounded(tracking[..])
      invariant PhaseOne(F, A0, D0, A.rows, X.rows, D.rows, c[..], i, L - u, L, D.colNum)
      invariant RunTo(F, A0, param, run, A.rows, tracking[..], i, L - u)
      decreases L - i - u
    {
      var r;
      ghost var next;
      r, next := PhaseOneRound(F, A, X, D, c, tracking, rRows, graph, i, L - u, L, A0, D0, param, run);
      if r == M {
        return false, 0, 0, run;
      }
      run := next;
      i, u := i + 1, u + (r - 1);
    }
    success := true;
  }

  /** Phase 1. */
  method DecodingFirstly(F: Field, A: Matrix, X: Matrix, D: Matrix, c: array<nat>, param: Param)
    returns (success: bool, i: nat, u: nat, ghost run: Phase)
    requires Laws(F) && ValidSizes(param)
    requires Sized(A, X, D, c, param.L) && Apart(A, X, D, c)
    requires X.rows == A.rows && c[..] == Identity(param.L)
    modifies A`rows, A.rowIdxes, A.data, X`rows, X.rowIdxes, X.data, D`rows, D.rowIdxes, D.data, c
    ensures Sized(A, X, D, c, param.L) && Ran(F, old(A.rows), param, run, A.rows, success)
    ensures success ==> i + u == param.L && i == |run.choices| && PhaseOne(F, old(A.rows), old(D.rows), A.rows, X.rows, D.rows, c[..], i, i, param.L, D.colNum)
    ensures !success ==> i == u == 0 && !TrivialKernel(F, old(A.rows), param.L)
  {
    PhaseOneInitially(F, A.rows, D.rows, param.L - param.P, param.L, D.colNum);
    var tracking := TrackRows(A, param);
    run := Started(A.rows, param);
    RunStarts(F, A.rows, param, tracking[..]);
    var rRows := new IntPair[A.rowNum](_ => IntPair(0, 0));
    var graph := new Graph(param.L - param.P);
    assert Sized(A, X, D, c, param.L) && c[..] == Identity(param.L) && DegreesBounded(tracking[..]);
    success, i, u, run := PhaseOneLoop(F, A, X, D, c, tracking, rRows, graph, param, A.rows, D.rows, run);
  }
}
