/** Phases 3 to 5 and the whole inactivation decoder of src/fast_decode.cpp (RFC 6330, section 5.4.2). */
module Decoder {
  import opened Octets
  import opened Permutations
  import opened LinearAlgebra
  import opened Matrices
  import opened Elimination
  import opened Substitution
  import opened FirstPhase
  import opened PivotRuns
  import opened Sequences
  import opened SecondPhase
  import opened Params

  /** ClearUpper on the first n rows only. */
  ghost function ClearFirst(F: Field, a: seq<Row>, d: seq<Row>, n: nat, i: nat, L: nat, T: nat): (r: seq<Row>)
    requires n <= i <= |a| && i <= L <= |d| && IsMatrix(d, T) && IsMatrix(a, L)
    ensures |r| == |d| && IsMatrix(r, T)
    decreases n
  {
    if n == 0 then d else ClearFirst(F, a, d, n - 1, i, L, T)[n - 1 := Accumulate(F, a[n - 1], d, d[n - 1], i, L)]
  }

  lemma {:induction false} ClearFirstAt(F: Field, a: seq<Row>, d: seq<Row>, n: nat, i: nat, L: nat, T: nat, j: nat)
    requires n <= i <= |a| && i <= L <= |d| && IsMatrix(d, T) && IsMatrix(a, L) && j < |d|
    ensures ClearFirst(F, a, d, n, i, L, T)[j] == if j < n then Accumulate(F, a[j], d, d[j], i, L) else d[j]
    decreases n
  {
    if n > 0 {
      ClearFirstAt(F, a, d, n - 1, i, L, T, j);
    }
  }

  lemma ClearFirstAll(F: Field, a: seq<Row>, d: seq<Row>, i: nat, L: nat, T: nat)
    requires i <= |a| && i <= L <= |d| && IsMatrix(d, T) && IsMatrix(a, L)
    ensures ClearFirst(F, a, d, i, i, L, T) == ClearUpper(F, a, d, i, i, L, T)
  {
    forall j: nat | j < |d|
      ensures ClearFirst(F, a, d, i, i, L, T)[j] == ClearUpper(F, a, d, i, i, L, T)[j]
    {
      ClearFirstAt(F, a, d, i, i, L, T, j);
    }
  }

  /** Adds to symbol j the symbols lo to hi - 1, scaled by the entries of row j of A. */
  method AccumulateRows(F: Field, A: Matrix, D: Matrix, j: nat, lo: nat, hi: nat, ghost d: seq<Row>)
    requires Laws(F)
    requires A.Valid() && D.Valid() && A.Footprint() !! D.Footprint()
    requires j < |A.rows| && j < |D.rows| == |d| && lo <= hi <= A.colNum && hi <= |d| && !(lo <= j < hi)
    requires IsMatrix(d, D.colNum) && forall k :: lo <= k < hi ==> D.rows[k] == d[k]
    modifies D`rows, D.data
    ensures D.Valid() && D.rows == old(D.rows)[j := Accumulate(F, A.rows[j], d, old(D.rows)[j], lo, hi)]
  {
    ghost var start := D.rows[j];
    for k := lo to hi
      invariant A.Valid() && D.Valid()
      invariant D.rows == old(D.rows)[j := Accumulate(F, A.rows[j], d, start, lo, k)]
    {
      var val := A.GetAt(j, k);
      AddScaledZero(F, D.rows[j], D.rows[k]);
      if val != 0 {
        D.XorRows(F, j, k, val);
      }
    }
  }

  /** Phase 4: symbols j < i lose what the columns of U contribute. The source adds row i + k - (L - u), which is
      row k because i + u == L. */
  method ClearUpperRows(F: Field, A: Matrix, D: Matrix, i: nat, L: nat)
    requires Laws(F)
    requires A.Valid() && D.Valid() && A.Footprint() !! D.Footprint()
    requires i <= L == A.colNum && L <= |A.rows| == |D.rows|
    modifies D`rows, D.data
    ensures D.Valid() && D.rows == ClearUpper(F, A.rows, old(D.rows), i, i, L, D.colNum)
  {
    ghost var d := D.rows;
    for j := 0 to i
      invariant A.Valid() && D.Valid() && D.rows == ClearFirst(F, A.rows, d, j, i, L, D.colNum)
    {
      ClearFirstAt(F, A.rows, d, j, i, L, D.colNum, j);
      forall k | i <= k < L
        ensures D.rows[k] == d[k]
      {
        ClearFirstAt(F, A.rows, d, j, i, L, D.colNum, k);
      }
      AccumulateRows(F, A, D, j, i, L, d);
    }
    ClearFirstAll(F, A.rows, d, i, L, D.colNum);
  }

  /** One row of phase 5: normalizes row and symbol j, then takes the earlier symbols out of symbol j. */
  method ForwardRow(F: Field, A: Matrix, D: Matrix, j: nat, ghost a: seq<Row>, ghost d: seq<Row>)
    requires Laws(F)
    requires A.Valid() && D.Valid() && A.Footprint() !! D.Footprint()
    requires |a| == |A.rows| && |d| == |D.rows| && j < |a| && j < |d| && IsMatrix(a, A.colNum) && IsMatrix(d, D.colNum) && j < A.colNum
    requires A.rows[j] == a[j] && a[j][j] != 0 && D.rows == Forward(F, a, d, j, D.colNum)
    modifies A`rows, A.data, D`rows, D.data
    ensures A.Valid() && D.Valid() && D.rows == Forward(F, a, d, j + 1, D.colNum)
    ensures |A.rows| == |a| && forall k :: 0 <= k < |a| && k != j ==> A.rows[k] == old(A.rows)[k]
  {
    var val := A.GetAt(j, j);
    DivAllOne(F, A.rows[j]);
    DivAllOne(F, D.rows[j]);
    if val > 1 {
      A.DivRow(F, j, val);
      D.DivRow(F, j, val);
    }
    assert A.rows[j] == DivAll(F, a[j], val);
    AccumulateRows(F, A, D, j, 0, j, Forward(F, a, d, j, D.colNum));
  }

  /** Phase 5. */
  method ForwardRows(F: Field, A: Matrix, D: Matrix, i: nat)
    requires Laws(F)
    requires A.Valid() && D.Valid() && A.Footprint() !! D.Footprint()
    requires i <= |A.rows| == |D.rows| && i <= A.colNum && LowerTriangular(A.rows, i)
    modifies A`rows, A.data, D`rows, D.data
    ensures A.Valid() && D.Valid() && D.rows == Forward(F, old(A.rows), old(D.rows), i, D.colNum)
  {
    ghost var a, d := A.rows, D.rows;
    for j := 0 to i
      invariant A.Valid() && D.Valid() && |A.rows| == |a| && |D.rows| == |d| && D.rows == Forward(F, a, d, j, D.colNum)
      invariant forall k :: j <= k < |a| ==> A.rows[k] == a[k]
    {
      ForwardRow(F, A, D, j, a, d);
    }
  }

  /** Phases 3 to 5, and the final reordering of the symbols. */
  method DecodingLastly(F: Field, A: Matrix, X: Matrix, D: Matrix, i: nat, c: array<nat>, L: nat)
    requires Laws(F)
    requires Sized(A, X, D, c, L) && Apart(A, X, D, c)
    requires i <= L && LowerTriangular(X.rows, i) && Echelon(A.rows, i, L, L) && IsPermutation(c[..])
    modifies A`rows, A.data, D`rows, D.rowIdxes, D.data
    ensures D.Valid() && D.rows == Unpermute(Substitute(F, X.rows, old(A.rows), old(D.rows), i, L, D.colNum), c[..])
  {
    ghost var a, x, d := A.rows, X.rows, D.rows;
    MulTopTriangular(F, x, a, i, L);
    A.MulMatrix(F, X, i);
    D.MulMatrix(F, X, i);
    ClearUpperRows(F, A, D, i, L);
    ForwardRows(F, A, D, i);
    assert D.rows == Substitute(F, x, a, d, i, L, D.colNum);
    D.Reorder(c, L);
  }

  /** The rows are, at every octet position t, whatever vector solves the system A0 v = D0 there. */
  ghost predicate Recovered(F: Field, A0: seq<Row>, D0: seq<Row>, rows: seq<Row>, L: nat, T: nat) {
    && |rows| == L && IsMatrix(rows, T) && IsMatrix(D0, T)
    && forall t: nat, v: Row :: t < T && |v| == L && Solves(F, A0, Column(D0, t), v) ==> Column(rows, t) == v
  }

  lemma PhasesRecover(F: Field, A0: seq<Row>, D0: seq<Row>, x: seq<Row>, a: seq<Row>, d: seq<Row>, c: seq<nat>, i: nat, L: nat, T: nat)
    requires Laws(F)
    requires PhaseTwo(F, A0, D0, a, d, c, i, L, L, T) && LowerTriangular(x, i)
    requires Echelon(a, i, L, L) && IsPermutation(c) && |c| == L && IsMatrix(d, T)
    ensures Recovered(F, A0, D0, Unpermute(Substitute(F, x, a, d, i, L, T), c), L, T)
  {
    var s := Substitute(F, x, a, d, i, L, T);
    var rows := Unpermute(s, c);
    forall t: nat, v: Row | t < T && |v| == L && Solves(F, A0, Column(D0, t), v)
      ensures Column(rows, t) == v
    {
      assert SameColumn(F, A0, D0, a, d, c, T, t);
      assert SameAt(F, A0, Column(D0, t), a, Column(d, t), c, v);
      SubstituteSolves(F, x, a, d, i, L, T, t, Permute(v, c));
      forall y: nat | y < L
        ensures rows[y][t] == v[y]
      {
        assert c[Position(c, y)] == y;
      }
    }
  }

  lemma FirstPhaseTriangular(F: Field, A0: seq<Row>, D0: seq<Row>, a: seq<Row>, x: seq<Row>, d: seq<Row>, c: seq<nat>, i: nat, L: nat, T: nat)
    requires Laws(F)
    requires PhaseOne(F, A0, D0, a, x, d, c, i, i, L, T)
    ensures LowerTriangular(x, i)
  {
    var w :| Shadows(F, x, a, w, i, L);
    ShadowIsTriangular(F, x, a, w, i, L);
  }

  lemma SecondPhaseShape(F: Field, A0: seq<Row>, D0: seq<Row>, a: seq<Row>, d: seq<Row>, c: seq<nat>, i: nat, L: nat, T: nat)
    requires PhaseTwo(F, A0, D0, a, d, c, i, L, L, T)
    ensures Echelon(a, i, L, L) && IsPermutation(c) && |c| == L && IsMatrix(d, T)
  {
  }

  /** The decoder: succeeds exactly when the columns of A are independent, and then leaves in the first L rows of D
      the one solution of the system A v = D, if it has one. The rounds of its first phase are a run that obeys the pivot
      rule. */
  method Decoding(F: Field, A: Matrix, D: Matrix, param: Param) returns (success: bool, ghost run: Phase)
    requires Laws(F) && ValidSizes(param)
    requires Sized2(A, D, param.L) && A.Footprint() !! D.Footprint()
    modifies A`rows, A.rowIdxes, A.data, D`rows, D.rowIdxes, D.data
    ensures D.Valid()
    ensures success <==> TrivialKernel(F, old(A.rows), param.L)
    ensures success ==> Recovered(F, old(A.rows), old(D.rows), D.rows, param.L, D.colNum)
    ensures IsRun(F, old(A.rows), param, run) && (success ==> |run.choices| == Last(run.states).vEnd)
  {
    var L := param.L;
    ghost var A0, D0 := A.rows, D.rows;
    var c := new nat[L](k => k);
    assert c[..] == Identity(L);
    var X := new Matrix.Clone(A);
    var i, u;
    success, i, u, run := DecodingFirstly(F, A, X, D, c, param);
    if success {
      FirstPhaseTriangular(F, A0, D0, A.rows, X.rows, D.rows, c[..], i, L, D.colNum);
      PhaseTwoInitially(F, A0, D0, A.rows, X.rows, D.rows, c[..], i, L, D.colNum);
      ghost var c0 := c[..];
      success := DecodingSecondly(F, A, D, i, u, param, A0, D0, c0);
      assert c[..] == c0 && X.Valid();
      if success {
        PhaseTwoSucceeds(F, A0, D0, A.rows, D.rows, c0, i, L, D.colNum);
        SecondPhaseShape(F, A0, D0, A.rows, D.rows, c0, i, L, D.colNum);
        PhasesRecover(F, A0, D0, X.rows, A.rows, D.rows, c0, i, L, D.colNum);
        DecodingLastly(F, A, X, D, i, c, L);
      }
    }
  }
}
