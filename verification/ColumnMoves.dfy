/** The reordering of the columns of V in phase 1 (src/fast_decode.cpp, lines 245-273). */
module ColumnMoves {
  import opened Octets
  import opened Permutations
  import opened LinearAlgebra
  import opened Matrices
  import opened Elimination

  lemma {:induction false} NonZerosUpdate(row: Row, lo: nat, hi: nat, p: nat, v: Octet)
    requires lo <= p < |row| && hi <= |row|
    ensures NonZeros(row[p := v], lo, hi) + (if p < hi && row[p] != 0 then 1 else 0)
         == NonZeros(row, lo, hi) + (if p < hi && v != 0 then 1 else 0)
    decreases hi
  {
    if lo < hi {
      NonZerosUpdate(row, lo, hi - 1, p, v);
    }
  }

  lemma NonZerosSwap(row: Row, lo: nat, hi: nat, p: nat, q: nat)
    requires lo <= p < hi <= |row| && lo <= q < hi
    ensures NonZeros(SwapAt(row, p, q), lo, hi) == NonZeros(row, lo, hi)
  {
    NonZerosUpdate(row, lo, hi, p, row[q]);
    NonZerosUpdate(row[p := row[q]], lo, hi, q, row[p]);
  }

  lemma {:induction false} NonZerosNone(row: Row, lo: nat, hi: nat)
    requires hi <= |row|
    ensures NonZeros(row, lo, hi) == 0 <==> forall q :: lo <= q < hi ==> row[q] == 0
    decreases hi
  {
    if lo < hi {
      NonZerosNone(row, lo, hi - 1);
    }
  }

  lemma {:induction false} NonZerosFirst(row: Row, lo: nat, hi: nat)
    requires lo < hi <= |row|
    ensures NonZeros(row, lo, hi) == (if row[lo] != 0 then 1 else 0) + NonZeros(row, lo + 1, hi)
    decreases hi
  {
    if lo + 1 < hi {
      NonZerosFirst(row, lo, hi - 1);
    }
  }

  lemma {:induction false} NonZerosCongruent(row: Row, row': Row, lo: nat, hi: nat)
    requires hi <= |row| && hi <= |row'| && forall q :: lo <= q < hi ==> row[q] == row'[q]
    ensures NonZeros(row, lo, hi) == NonZeros(row', lo, hi)
    decreases hi
  {
    if lo < hi {
      NonZerosCongruent(row, row', lo, hi - 1);
    }
  }

  lemma SwapPermuted(m: seq<Row>, s: seq<nat>, p: nat, q: nat, L: nat)
    requires IsMatrix(m, L) && IsPermutation(s) && |s| == L && p < L && q < L
    ensures IsPermutation(SwapAt(s, p, q))
    ensures SwapColumnsOf(PermuteColumns(m, s), p, q) == PermuteColumns(m, SwapAt(s, p, q))
  {
    SwapIsPermutation(s, p, q);
    forall j | 0 <= j < |m|
      ensures SwapAt(Permute(m[j], s), p, q) == Permute(m[j], SwapAt(s, p, q))
    {
    }
  }

  /** The columns of A and X and the entries of c are in the order given by s. */
  ghost predicate Reordered(a0: seq<Row>, x0: seq<Row>, c0: seq<nat>, a: seq<Row>, x: seq<Row>, c: seq<nat>, s: seq<nat>, i: nat, vEnd: nat) {
    && MovesOnly(s, i, vEnd) && |s| == |c0| && IsMatrix(a0, |s|) && IsMatrix(x0, |s|)
    && a == PermuteColumns(a0, s) && x == PermuteColumns(x0, s) && c == Permute(c0, s)
  }

  lemma SwapReordered(a0: seq<Row>, x0: seq<Row>, c0: seq<nat>, a: seq<Row>, x: seq<Row>, c: seq<nat>, s: seq<nat>, i: nat, vEnd: nat, p: nat, q: nat)
    requires Reordered(a0, x0, c0, a, x, c, s, i, vEnd) && i <= p < vEnd && i <= q < vEnd
    ensures Reordered(a0, x0, c0, SwapColumnsOf(a, p, q), SwapColumnsOf(x, p, q), SwapAt(c, p, q), SwapAt(s, p, q), i, vEnd)
  {
    SwapIsPermutation(s, p, q);
    SwapPermuted(a0, s, p, q, |s|);
    SwapPermuted(x0, s, p, q, |s|);
    assert SwapAt(c, p, q) == Permute(c0, SwapAt(s, p, q));
  }

  /** Swaps two columns of A and X and the two entries of c. */
  method SwapColumnsAndTrack(A: Matrix, X: Matrix, c: array<nat>, p: nat, q: nat)
    requires A.Valid() && X.Valid() && A.Footprint() !! X.Footprint() && c as object !in A.Footprint() + X.Footprint()
    requires A.colNum == X.colNum == c.Length && p < c.Length && q < c.Length
    modifies A`rows, A.data, X`rows, X.data, c
    ensures A.Valid() && X.Valid()
    ensures A.rows == SwapColumnsOf(old(A.rows), p, q) && X.rows == SwapColumnsOf(old(X.rows), p, q)
    ensures c[..] == SwapAt(old(c[..]), p, q)
  {
    A.SwapColumns(p, q);
    X.SwapColumns(p, q);
    c[p], c[q] := c[q], c[p];
  }

  /** The first column after i where row i is not zero. */
  method FindNonZero(A: Matrix, i: nat, vEnd: nat) returns (j: nat)
    requires A.Valid() && i < |A.rows| && i < vEnd <= A.colNum
    requires NonZeros(A.rows[i], i, vEnd) > 0 && A.rows[i][i] == 0
    ensures i < j < vEnd && A.rows[i][j] != 0
  {
    j := i + 1;
    NonZerosNone(A.rows[i], i, vEnd);
    while j < vEnd
      invariant i < j <= vEnd
      invariant forall q :: i <= q < j ==> A.rows[i][q] == 0
    {
      var v := A.GetAt(i, j);
      if v != 0 {
        break;
      }
      j := j + 1;
    }
  }

  /** Brings one of the non-zero octets of row i to column i. */
  method MoveFirstNonZero(A: Matrix, X: Matrix, c: array<nat>, i: nat, vEnd: nat, ghost s0: seq<nat>, ghost a0: seq<Row>, ghost x0: seq<Row>, ghost c0: seq<nat>)
    returns (ghost s: seq<nat>)
    requires A.Valid() && X.Valid() && A.Footprint() !! X.Footprint() && c as object !in A.Footprint() + X.Footprint()
    requires A.colNum == X.colNum == c.Length && i < |A.rows| && i < vEnd <= c.Length
    requires NonZeros(A.rows[i], i, vEnd) > 0
    requires Reordered(a0, x0, c0, A.rows, X.rows, c[..], s0, i, vEnd)
    modifies A`rows, A.data, X`rows, X.data, c
    ensures A.Valid() && X.Valid() && Reordered(a0, x0, c0, A.rows, X.rows, c[..], s, i, vEnd)
    ensures |A.rows| == old(|A.rows|)
    ensures A.rows[i][i] != 0 && NonZeros(A.rows[i], i, vEnd) == NonZeros(old(A.rows)[i], i, vEnd)
  {
    s := s0;
    var first := A.GetAt(i, i);
    if first == 0 {
      var j := FindNonZero(A, i, vEnd);
      NonZerosSwap(A.rows[i], i, vEnd, i, j);
      SwapReordered(a0, x0, c0, A.rows, X.rows, c[..], s, i, vEnd, i, j);
      s := SwapAt(s, i, j);
      SwapColumnsAndTrack(A, X, c, i, j);
    }
  }

  /** The last tail columns of V take non-zero octets already moved, columns from j + 1 up to them are zero, and
      rest non-zero octets remain in the columns i + 1 to j. */
  ghost predicate TailMoved(row: Row, i: nat, j: nat, vEnd: nat, rest: nat, tail: nat) {
    && i <= j && j + 1 + tail <= vEnd <= |row| && row[i] != 0
    && NonZeros(row, i + 1, j + 1) == rest
    && forall q :: j < q < vEnd - tail ==> row[q] == 0
  }

  lemma TailKeep(row: Row, i: nat, j: nat, vEnd: nat, rest: nat, tail: nat)
    requires TailMoved(row, i, j, vEnd, rest, tail) && j > i && row[j] == 0
    ensures TailMoved(row, i, j - 1, vEnd, rest, tail)
  {
  }

  lemma TailMove(row: Row, i: nat, j: nat, vEnd: nat, rest: nat, tail: nat)
    requires TailMoved(row, i, j, vEnd, rest, tail) && j > i && row[j] != 0
    ensures rest > 0 && TailMoved(SwapAt(row, j, vEnd - 1 - tail), i, j - 1, vEnd, rest - 1, tail + 1)
  {
    NonZerosCongruent(row, SwapAt(row, j, vEnd - 1 - tail), i + 1, j);
  }

  /** Moves one non-zero octet of row i from column j to column swapIdx. */
  method MoveOne(A: Matrix, X: Matrix, c: array<nat>, i: nat, vEnd: nat, j: nat, swapIdx: nat, ghost s0: seq<nat>, ghost a0: seq<Row>, ghost x0: seq<Row>, ghost c0: seq<nat>)
    returns (ghost s: seq<nat>)
    requires A.Valid() && X.Valid() && A.Footprint() !! X.Footprint() && c as object !in A.Footprint() + X.Footprint()
    requires A.colNum == X.colNum == c.Length && i < |A.rows| && i <= j < vEnd <= c.Length && i <= swapIdx < vEnd
    requires Reordered(a0, x0, c0, A.rows, X.rows, c[..], s0, i, vEnd)
    modifies A`rows, A.data, X`rows, X.data, c
    ensures A.Valid() && X.Valid() && Reordered(a0, x0, c0, A.rows, X.rows, c[..], s, i, vEnd)
    ensures |A.rows| == old(|A.rows|) && A.rows[i] == SwapAt(old(A.rows)[i], j, swapIdx)
  {
    s := s0;
    if j != swapIdx {
      SwapReordered(a0, x0, c0, A.rows, X.rows, c[..], s, i, vEnd, j, swapIdx);
      s := SwapAt(s, j, swapIdx);
      SwapColumnsAndTrack(A, X, c, j, swapIdx);
    }
  }

  lemma TailInitially(row: Row, i: nat, vEnd: nat, r: nat)
    requires i < vEnd <= |row| && row[i] != 0 && NonZeros(row, i, vEnd) == r
    ensures r > 0 && TailMoved(row, i, vEnd - 1, vEnd, r - 1, 0)
  {
    NonZerosFirst(row, i, vEnd);
  }

  lemma TailFinally(row: Row, i: nat, j: nat, vEnd: nat, rest: nat, tail: nat)
    requires TailMoved(row, i, j, vEnd, rest, tail) && (j == i || rest == 0)
    ensures rest == 0 && i < vEnd - tail && forall q :: i < q < vEnd - tail ==> row[q] == 0
  {
    NonZerosNone(row, i + 1, j + 1);
  }

  /** One step of the move: the octet in column j, if it is not zero, goes to the next place at the end of V. */
  method MoveTailStep(A: Matrix, X: Matrix, c: array<nat>, i: nat, vEnd: nat, j: nat, rest: nat, tail: nat,
                      ghost s0: seq<nat>, ghost a0: seq<Row>, ghost x0: seq<Row>, ghost c0: seq<nat>)
    returns (ghost s: seq<nat>, moved: nat)
    requires A.Valid() && X.Valid() && A.Footprint() !! X.Footprint() && c as object !in A.Footprint() + X.Footprint()
    requires A.colNum == X.colNum == c.Length && i < |A.rows| && i < j && vEnd <= c.Length
    requires TailMoved(A.rows[i], i, j, vEnd, rest, tail)
    requires Reordered(a0, x0, c0, A.rows, X.rows, c[..], s0, i, vEnd)
    modifies A`rows, A.data, X`rows, X.data, c
    ensures A.Valid() && X.Valid() && Reordered(a0, x0, c0, A.rows, X.rows, c[..], s, i, vEnd)
    ensures |A.rows| == old(|A.rows|) && moved <= rest && TailMoved(A.rows[i], i, j - 1, vEnd, rest - moved, tail + moved)
  {
    var v := A.GetAt(i, j);
    if v != 0 {
      TailMove(A.rows[i], i, j, vEnd, rest, tail);
      s := MoveOne(A, X, c, i, vEnd, j, vEnd - 1 - tail, s0, a0, x0, c0);
      moved := 1;
    } else {
      TailKeep(A.rows[i], i, j, vEnd, rest, tail);
      s, moved := s0, 0;
    }
  }

  /** Moves the rest of the non-zero octets of row i to the last columns of V. */
  method MoveTail(A: Matrix, X: Matrix, c: array<nat>, i: nat, vEnd: nat, rest: nat, ghost s0: seq<nat>, ghost a0: seq<Row>, ghost x0: seq<Row>, ghost c0: seq<nat>)
    returns (ghost s: seq<nat>)
    requires A.Valid() && X.Valid() && A.Footprint() !! X.Footprint() && c as object !in A.Footprint() + X.Footprint()
    requires A.colNum == X.colNum == c.Length && i < |A.rows| && i < vEnd <= c.Length
    requires TailMoved(A.rows[i], i, vEnd - 1, vEnd, rest, 0)
    requires Reordered(a0, x0, c0, A.rows, X.rows, c[..], s0, i, vEnd)
    modifies A`rows, A.data, X`rows, X.data, c
    ensures A.Valid() && X.Valid() && Reordered(a0, x0, c0, A.rows, X.rows, c[..], s, i, vEnd)
    ensures |A.rows| == old(|A.rows|)
    ensures i < vEnd - rest && A.rows[i][i] != 0 && forall q :: i < q < vEnd - rest ==> A.rows[i][q] == 0
  {
    s := s0;
    var cntOfRestNonZero, cntOfTailNonZero := rest, 0;
    var j := vEnd - 1;
    while j > i && cntOfRestNonZero > 0
      invariant cntOfRestNonZero + cntOfTailNonZero == rest && |A.rows| == old(|A.rows|) && j >= i
      invariant A.Valid() && X.Valid() && Reordered(a0, x0, c0, A.rows, X.rows, c[..], s, i, vEnd)
      invariant TailMoved(A.rows[i], i, j, vEnd, cntOfRestNonZero, cntOfTailNonZero)
      decreases j
    {
      var moved;
      s, moved := MoveTailStep(A, X, c, i, vEnd, j, cntOfRestNonZero, cntOfTailNonZero, s, a0, x0, c0);
      cntOfRestNonZero := cntOfRestNonZero - moved;
      cntOfTailNonZero := cntOfTailNonZero + moved;
      j := j - 1;
    }
    TailFinally(A.rows[i], i, j, vEnd, cntOfRestNonZero, cntOfTailNonZero);
  }

  /** Reorders the columns of V so that the r non-zero octets of row i come to column i and to the last
      r - 1 columns of V. */
  method MoveNonZeros(A: Matrix, X: Matrix, c: array<nat>, i: nat, vEnd: nat, r: nat) returns (ghost s: seq<nat>)
    requires A.Valid() && X.Valid() && A.Footprint() !! X.Footprint() && c as object !in A.Footprint() + X.Footprint()
    requires A.colNum == X.colNum == c.Length && i < |A.rows| && i < vEnd <= c.Length
    requires r > 0 && NonZeros(A.rows[i], i, vEnd) == r
    modifies A`rows, A.data, X`rows, X.data, c
    ensures A.Valid() && X.Valid() && Reordered(old(A.rows), old(X.rows), old(c[..]), A.rows, X.rows, c[..], s, i, vEnd)
    ensures |A.rows| == old(|A.rows|)
    ensures i < vEnd - (r - 1) && A.rows[i][i] != 0 && forall q :: i < q < vEnd - (r - 1) ==> A.rows[i][q] == 0
  {
    ghost var a0, x0, c0 := A.rows, X.rows, c[..];
    ReorderedInitially(a0, x0, c0, i, vEnd);
    s := MoveFirstNonZero(A, X, c, i, vEnd, Identity(c.Length), a0, x0, c0);
    TailInitially(A.rows[i], i, vEnd, r);
    s := MoveTail(A, X, c, i, vEnd, r - 1, s, a0, x0, c0);
  }

  lemma ReorderedInitially(a: seq<Row>, x: seq<Row>, c: seq<nat>, i: nat, vEnd: nat)
    requires IsMatrix(a, |c|) && IsMatrix(x, |c|) && i <= vEnd <= |c|
    ensures Reordered(a, x, c, a, x, c, Identity(|c|), i, vEnd)
  {
    var s := Identity(|c|);
    IdentityIsPermutation(|c|);
    assert forall j :: 0 <= j < |a| ==> Permute(a[j], s) == a[j];
    assert forall j :: 0 <= j < |x| ==> Permute(x[j], s) == x[j];
    assert PermuteColumns(a, s) == a && PermuteColumns(x, s) == x;
    assert Permute(c, s) == c;
  }
}
