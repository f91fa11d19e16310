/** Phase 2 of the decoder (src/fast_decode.cpp, lines 308-356): Gaussian elimination on the columns of U. */
module SecondPhase {
  import opened Octets
  import opened Permutations
  import opened LinearAlgebra
  import opened Matrices
  import opened Elimination
  import opened RowAdditions
  import opened FirstPhase
  import opened Params

  /** Everything phase 2 keeps. */
  ghost predicate PhaseTwo(F: Field, A0: seq<Row>, D0: seq<Row>, a: seq<Row>, d: seq<Row>, c: seq<nat>, i: nat, r: nat, L: nat, T: nat) {
    && i <= r <= L <= |a| == |d|
    && |c| == L && Tracks(F, A0, D0, a, d, c, T) && Echelon(a, i, r, L)
  }

  lemma PhaseTwoInitially(F: Field, A0: seq<Row>, D0: seq<Row>, a: seq<Row>, x: seq<Row>, d: seq<Row>, c: seq<nat>, i: nat, L: nat, T: nat)
    requires PhaseOne(F, A0, D0, a, x, d, c, i, i, L, T) && L <= |a|
    ensures PhaseTwo(F, A0, D0, a, d, c, i, i, L, T)
  {
  }

  lemma PhaseTwoSwapRows(F: Field, A0: seq<Row>, D0: seq<Row>, a: seq<Row>, d: seq<Row>, c: seq<nat>, i: nat, r: nat, L: nat, T: nat, p: nat)
    requires PhaseTwo(F, A0, D0, a, d, c, i, r, L, T) && r <= p < |a|
    ensures PhaseTwo(F, A0, D0, SwapAt(a, r, p), SwapAt(d, r, p), c, i, r, L, T)
  {
    TracksSwapRows(F, A0, D0, a, d, c, T, r, p);
    EchelonSwapRows(a, i, r, L, p);
  }

  lemma PhaseTwoDivRow(F: Field, A0: seq<Row>, D0: seq<Row>, a: seq<Row>, d: seq<Row>, c: seq<nat>, i: nat, r: nat, L: nat, T: nat, p: Octet)
    requires Laws(F)
    requires PhaseTwo(F, A0, D0, a, d, c, i, r, L, T) && r < L <= |a[r]| && a[r][r] == p != 0
    ensures PhaseTwo(F, A0, D0, a[r := DivAll(F, a[r], p)], d[r := DivAll(F, d[r], p)], c, i, r, L, T)
    ensures DivAll(F, a[r], p)[r] == 1
  {
    TracksDivRow(F, A0, D0, a, d, c, T, r, p);
    EchelonDivRow(F, a, i, r, L);
  }

  lemma PhaseTwoClear(F: Field, A0: seq<Row>, D0: seq<Row>, a: seq<Row>, d: seq<Row>, c: seq<nat>, i: nat, r: nat, L: nat, T: nat,
                      a': seq<Row>, d': seq<Row>)
    requires Laws(F)
    requires PhaseTwo(F, A0, D0, a, d, c, i, r, L, T) && r < L && IsMatrix(a, L) && a[r][r] == 1
    requires Multiplied(F, a, r, ClearFactors(a, i, r), a', |a|) && Multiplied(F, d, r, ClearFactors(a, i, r), d', |a|)
    ensures PhaseTwo(F, A0, D0, a', d', c, i, r + 1, L, T)
  {
    MultipliedAll(F, a, r, ClearFactors(a, i, r), a');
    MultipliedAll(F, d, r, ClearFactors(a, i, r), d');
    TracksAddMultiples(F, A0, D0, a, d, c, T, r, ClearFactors(a, i, r));
    EchelonClear(F, a, i, r, L);
  }

  lemma PhaseTwoFails(F: Field, A0: seq<Row>, D0: seq<Row>, a: seq<Row>, d: seq<Row>, c: seq<nat>, i: nat, r: nat, L: nat, T: nat)
    requires Laws(F)
    requires PhaseTwo(F, A0, D0, a, d, c, i, r, L, T) && r < L && IsMatrix(a, L)
    requires forall j :: r <= j < |a| ==> a[j][r] == 0
    ensures !TrivialKernel(F, A0, L)
  {
    NoPivotKernel(F, a, i, r, L);
    SameKernel(F, A0, a, c);
  }

  lemma PhaseTwoSucceeds(F: Field, A0: seq<Row>, D0: seq<Row>, a: seq<Row>, d: seq<Row>, c: seq<nat>, i: nat, L: nat, T: nat)
    requires Laws(F)
    requires PhaseTwo(F, A0, D0, a, d, c, i, L, L, T)
    ensures TrivialKernel(F, A0, L)
  {
    EchelonHasTrivialKernel(F, a, i, L);
    SameKernel(F, A0, a, c);
  }

  ghost predicate Sized2(A: Matrix, D: Matrix, L: nat)
    reads A, A.rowIdxes, A.data, D, D.rowIdxes, D.data
  {
    A.Valid() && D.Valid() && A.colNum == L <= A.rowNum == |A.rows| == |D.rows| == D.rowNum
  }

  /** The first row from r on that is not zero in column lead; A.rowNum if there is none. */
  method FindPivot(A: Matrix, r: nat, lead: nat) returns (chosen: nat)
    requires A.Valid() && A.rowNum == |A.rows| && r < A.rowNum && lead < A.colNum
    ensures r <= chosen <= A.rowNum
    ensures forall j :: r <= j < chosen ==> A.rows[j][lead] == 0
    ensures chosen < A.rowNum ==> A.rows[chosen][lead] != 0
  {
    chosen := r;
    var v := A.GetAt(chosen, lead);
    while v == 0
      invariant r <= chosen < A.rowNum && v == A.rows[chosen][lead]
      invariant forall j :: r <= j < chosen ==> A.rows[j][lead] == 0
      decreases A.rowNum - chosen
    {
      chosen := chosen + 1;
      if chosen == A.rowNum {
        return;
      }
      v := A.GetAt(chosen, lead);
    }
  }

  /** Clears the octet of row j in column r, where row r holds one. */
  method ClearRow(F: Field, A: Matrix, D: Matrix, r: nat, j: nat)
    requires Laws(F)
    requires A.Valid() && D.Valid() && A.Footprint() !! D.Footprint() && |A.rows| == |D.rows|
    requires r < |A.rows| && r < A.colNum && j < |A.rows|
    modifies A`rows, A.data, D`rows, D.data
    ensures A.Valid() && D.Valid()
    ensures var f := if j == r then 0 else old(A.rows)[j][r];
      && A.rows == old(A.rows)[j := AddScaled(F, old(A.rows)[j], old(A.rows)[r], f)]
      && D.rows == old(D.rows)[j := AddScaled(F, old(D.rows)[j], old(D.rows)[r], f)]
  {
    AddScaledZero(F, A.rows[j], A.rows[r]);
    AddScaledZero(F, D.rows[j], D.rows[r]);
    if j == r {
      return;
    }
    var multiple := A.GetAt(j, r);
    if multiple != 0 {
      A.XorRows(F, j, r, multiple);
      D.XorRows(F, j, r, multiple);
    }
  }

  /** Clears column r in every row from i on but r. */
  method ClearColumn(F: Field, A: Matrix, D: Matrix, i: nat, r: nat)
    requires Laws(F)
    requires A.Valid() && D.Valid() && A.Footprint() !! D.Footprint() && |A.rows| == |D.rows|
    requires i <= r < |A.rows| && r < A.colNum && A.rowNum == |A.rows|
    modifies A`rows, A.data, D`rows, D.data
    ensures A.Valid() && D.Valid()
    ensures Multiplied(F, old(A.rows), r, ClearFactors(old(A.rows), i, r), A.rows, |A.rows|)
    ensures Multiplied(F, old(D.rows), r, ClearFactors(old(A.rows), i, r), D.rows, |D.rows|)
  {
    ghost var a, d := A.rows, D.rows;
    ghost var f := ClearFactors(a, i, r);
    MultipliedNone(F, a, r, f, i);
    MultipliedNone(F, d, r, f, i);
    for j := i to A.rowNum
      invariant A.Valid() && D.Valid()
      invariant Multiplied(F, a, r, f, A.rows, j) && Multiplied(F, d, r, f, D.rows, j)
    {
      MultipliedNext(F, a, r, f, A.rows, j);
      MultipliedNext(F, d, r, f, D.rows, j);
      ClearRow(F, A, D, r, j);
    }
  }

  /** One column of phase 2: finds a pivot, normalizes its row and clears the column. */
  method PhaseTwoRound(F: Field, A: Matrix, D: Matrix, i: nat, r: nat, L: nat, ghost A0: seq<Row>, ghost D0: seq<Row>, ghost c: seq<nat>)
    returns (ok: bool)
    requires Laws(F)
    requires Sized2(A, D, L) && A.Footprint() !! D.Footprint() && i <= r < L
    requires PhaseTwo(F, A0, D0, A.rows, D.rows, c, i, r, L, D.colNum)
    modifies A`rows, A.rowIdxes, A.data, D`rows, D.rowIdxes, D.data
    ensures Sized2(A, D, L)
    ensures ok ==> PhaseTwo(F, A0, D0, A.rows, D.rows, c, i, r + 1, L, D.colNum)
    ensures !ok ==> !TrivialKernel(F, A0, L)
  {
    var chosen := FindPivot(A, r, r);
    if chosen == A.rowNum {
      PhaseTwoFails(F, A0, D0, A.rows, D.rows, c, i, r, L, D.colNum);
      return false;
    }
    if chosen != r {
      PhaseTwoSwapRows(F, A0, D0, A.rows, D.rows, c, i, r, L, D.colNum, chosen);
      A.SwapRows(r, chosen);
      D.SwapRows(r, chosen);
    }
    var leadval := A.GetAt(r, r);
    if leadval > 1 {
      PhaseTwoDivRow(F, A0, D0, A.rows, D.rows, c, i, r, L, D.colNum, leadval);
      A.DivRow(F, r, leadval);
      D.DivRow(F, r, leadval);
    }
    assert A.rows[r][r] == 1;
    ghost var a, d := A.rows, D.rows;
    ClearColumn(F, A, D, i, r);
    PhaseTwoClear(F, A0, D0, a, d, c, i, r, L, D.colNum, A.rows, D.rows);
    ok := true;
  }

  /** Phase 2: Gaussian elimination on the columns of U. */
  method DecodingSecondly(F: Field, A: Matrix, D: Matrix, i: nat, u: nat, param: Param, ghost A0: seq<Row>, ghost D0: seq<Row>, ghost c: seq<nat>)
    returns (ok: bool)
    requires Laws(F)
    requires Sized2(A, D, param.L) && A.Footprint() !! D.Footprint() && i + u == param.L
    requires PhaseTwo(F, A0, D0, A.rows, D.rows, c, i, i, param.L, D.colNum)
    modifies A`rows, A.rowIdxes, A.data, D`rows, D.rowIdxes, D.data
    ensures Sized2(A, D, param.L)
    ensures ok ==> PhaseTwo(F, A0, D0, A.rows, D.rows, c, i, param.L, param.L, D.colNum)
    ensures !ok ==> !TrivialKernel(F, A0, param.L)
  {
    var toRow, toCol := A.rowNum, param.L;
    var lead := param.L - u;
    var r := i;
    while r < toRow && lead < toCol
      invariant i <= r == lead <= toCol
      invariant Sized2(A, D, param.L)
      invariant PhaseTwo(F, A0, D0, A.rows, D.rows, c, i, r, param.L, D.colNum)
    {
      ok := PhaseTwoRound(F, A, D, i, r, param.L, A0, D0, c);
      if !ok {
        return;
      }
      lead := lead + 1;
      r := r + 1;
    }
    ok := true;
  }
}
