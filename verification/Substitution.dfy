/** Phases 3 to 5 of the decoder (src/fast_decode.cpp, lines 358-431), on the values of the matrices:
    multiplication by the triangular block of X, elimination of the columns of U, forward substitution. */
module Substitution {
  import opened Octets
  import opened LinearAlgebra
  import opened Matrices
  import opened Elimination

  /** The row start plus the rows lo to hi - 1 of src, scaled by coef. */
  function Accumulate(F: Field, coef: Row, src: seq<Row>, start: Row, lo: nat, hi: nat): (r: Row)
    requires lo <= hi <= |coef| && hi <= |src| && forall j :: 0 <= j < |src| ==> |src[j]| == |start|
    ensures |r| == |start|
    decreases hi
  {
    if hi <= lo then start else AddScaled(F, Accumulate(F, coef, src, start, lo, hi - 1), src[hi - 1], coef[hi - 1])
  }

  lemma {:induction false} AccumulateAt(F: Field, coef: Row, src: seq<Row>, start: Row, lo: nat, hi: nat, t: nat)
    requires Laws(F)
    requires lo <= hi <= |coef| && hi <= |src| && IsMatrix(src, |start|) && t < |start|
    ensures Accumulate(F, coef, src, start, lo, hi)[t]
         == Add(F, start[t], Add(F, Dot(F, coef, Column(src, t), hi), Dot(F, coef, Column(src, t), lo)))
  {
    var y := Column(src, t);
    var p := Dot(F, coef, y, lo);
    if lo == hi {
      AddLaws(F, p, 0, 0);
      AddLaws(F, start[t], 0, 0);
    } else {
      AccumulateAt(F, coef, src, start, lo, hi - 1, t);
      var q, x := Dot(F, coef, y, hi - 1), Mul(F, coef[hi - 1], y[hi - 1]);
      AddLaws(F, start[t], Add(F, q, p), x);
      AddLaws(F, q, p, x);
      AddLaws(F, p, x, 0);
      AddLaws(F, q, x, p);
    }
  }

  /** Phase 4: the columns lo to hi - 1 are eliminated from the first i symbols. */
  function ClearUpper(F: Field, a: seq<Row>, d: seq<Row>, i: nat, lo: nat, hi: nat, T: nat): (r: seq<Row>)
    requires i <= |a| && i <= |d| && lo <= hi <= |d| && IsMatrix(d, T)
    requires forall j :: 0 <= j < i ==> hi <= |a[j]|
    ensures |r| == |d| && IsMatrix(r, T)
  {
    seq(|d|, j requires 0 <= j < |d| => if j < i then Accumulate(F, a[j], d, d[j], lo, hi) else d[j])
  }

  /** Phase 5, the first n steps: row n - 1 is normalized by its pivot and the earlier symbols are taken out. */
  function Forward(F: Field, a: seq<Row>, d: seq<Row>, n: nat, T: nat): (r: seq<Row>)
    requires n <= |a| && n <= |d| && IsMatrix(d, T) && forall j :: 0 <= j < n ==> n <= |a[j]|
    ensures |r| == |d| && IsMatrix(r, T)
  {
    if n == 0 then d else
    var p := Forward(F, a, d, n - 1, T);
    var pivot := a[n - 1][n - 1];
    p[n - 1 := Accumulate(F, DivAll(F, a[n - 1], pivot), p, DivAll(F, p[n - 1], pivot), 0, n - 1)]
  }

  lemma {:induction false} ForwardKeeps(F: Field, a: seq<Row>, d: seq<Row>, n: nat, T: nat)
    requires n <= |a| && n <= |d| && IsMatrix(d, T) && forall j :: 0 <= j < n ==> n <= |a[j]|
    ensures forall j :: n <= j < |d| ==> Forward(F, a, d, n, T)[j] == d[j]
  {
    if n > 0 {
      ForwardKeeps(F, a, d, n - 1, T);
    }
  }

  /** A scalar product with a combination of rows combines the scalar products. */
  lemma {:induction false} CombineDot(F: Field, x: Row, m: seq<Row>, n: nat, L: nat, v: Row, y: Row)
    requires Laws(F)
    requires n <= |x| && n <= |m| && n <= |y| && IsMatrix(m, L) && |v| == L
    requires forall k :: 0 <= k < n ==> y[k] == Dot(F, m[k], v, L)
    ensures Dot(F, Combine(F, x, m, n, L), v, L) == Dot(F, x, y, n)
  {
    if n == 0 {
      DotExtend(F, Zeros(L), v, 0, L);
    } else {
      CombineDot(F, x, m, n - 1, L, v, y);
      DotAddScaled(F, Combine(F, x, m, n - 1, L), m[n - 1], x[n - 1], v, L);
    }
  }

  /** Phase 3 keeps the solutions. */
  lemma MulTopSolves(F: Field, x: seq<Row>, a: seq<Row>, d: seq<Row>, i: nat, L: nat, T: nat, t: nat, v: Row)
    requires Laws(F)
    requires i <= |x| && i <= |a| == |d| && IsMatrix(a, L) && IsMatrix(d, T) && t < T && |v| == L
    requires forall j :: 0 <= j < i ==> i <= |x[j]|
    requires Solves(F, a, Column(d, t), v)
    ensures Solves(F, MulTop(F, x, a, i, L), Column(MulTop(F, x, d, i, T), t), v)
  {
    var a', d' := MulTop(F, x, a, i, L), MulTop(F, x, d, i, T);
    forall j | 0 <= j < |a'|
      ensures Dot(F, a'[j], v, L) == d'[j][t]
    {
      assert forall k :: 0 <= k < i ==> Column(d, t)[k] == Dot(F, a[k], v, L);
      if j < i {
        CombineDot(F, x[j], a, i, L, v, Column(d, t));
        CombineEntry(F, x[j], d, i, T, t);
      } else {
        assert Dot(F, a[j], v, L) == Column(d, t)[j];
      }
    }
  }

  /** Phase 3 leaves a lower triangular block with non-zero diagonal. */
  lemma MulTopTriangular(F: Field, x: seq<Row>, a: seq<Row>, i: nat, L: nat)
    requires Laws(F)
    requires LowerTriangular(x, i) && Diagonalized(a, i, i) && IsMatrix(a, L) && i <= L
    ensures LowerTriangular(MulTop(F, x, a, i, L), i)
  {
    var a' := MulTop(F, x, a, i, L);
    forall j, q | 0 <= j < i && 0 <= q < i
      ensures a'[j][q] == Mul(F, x[j][q], a[q][q])
    {
      CombineEntry(F, x[j], a, i, L, q);
      DotSingle(F, x[j], Column(a, q), q, i);
    }
    forall j | 0 <= j < i
      ensures a'[j][j] != 0
    {
      if Mul(F, x[j][j], a[j][j]) == 0 {
        MulLaws(F, x[j][j], a[j][j], 0);
        NoZeroDivisors(F, x[j][j], a[j][j]);
      }
    }
    forall j, q | 0 <= j < q < i
      ensures a'[j][q] == 0
    {
      MulUnits(F, a[q][q]);
    }
  }

  /** Phase 4 leaves, in each upper symbol, the scalar product of the triangular part alone. */
  lemma ClearUpperAt(F: Field, a: seq<Row>, d: seq<Row>, i: nat, L: nat, T: nat, t: nat, v: Row, j: nat)
    requires Laws(F)
    requires i <= L <= |a| == |d| && IsMatrix(a, L) && IsMatrix(d, T) && t < T && |v| == L && j < i
    requires Solves(F, a, Column(d, t), v)
    requires forall k :: i <= k < L ==> d[k][t] == v[k]
    ensures ClearUpper(F, a, d, i, i, L, T)[j][t] == Dot(F, a[j], v, i)
  {
    var y := Column(d, t);
    AccumulateAt(F, a[j], d, d[j], i, L, t);
    assert Dot(F, a[j], v, L) == y[j];
    DotTail(F, a[j], v, y, i, L);
    var p, q := Dot(F, a[j], v, L), Dot(F, a[j], v, i);
    AddLaws(F, p, p, q);
    AddLaws(F, q, 0, 0);
  }

  /** The part of a scalar product from lo on depends only on the factors from lo on. */
  lemma {:induction false} DotTail(F: Field, a: Row, v: Row, y: Row, lo: nat, n: nat)
    requires Laws(F)
    requires lo <= n <= |a| && n <= |v| && n <= |y|
    requires forall k :: lo <= k < n ==> v[k] == y[k]
    ensures Add(F, Dot(F, a, v, n), Dot(F, a, v, lo)) == Add(F, Dot(F, a, y, n), Dot(F, a, y, lo))
    decreases n
  {
    if lo == n {
      AddLaws(F, Dot(F, a, v, n), 0, 0);
      AddLaws(F, Dot(F, a, y, n), 0, 0);
    } else {
      DotTail(F, a, v, y, lo, n - 1);
      var x := Mul(F, a[n - 1], v[n - 1]);
      MoveTerm(F, Dot(F, a, v, n - 1), x, Dot(F, a, v, lo));
      MoveTerm(F, Dot(F, a, y, n - 1), x, Dot(F, a, y, lo));
    }
  }

  lemma MoveTerm(F: Field, s: Octet, x: Octet, p: Octet)
    requires Laws(F)
    ensures Add(F, Add(F, s, x), p) == Add(F, Add(F, s, p), x)
  {
    AddLaws(F, s, x, p);
    AddLaws(F, x, p, 0);
    AddLaws(F, s, p, x);
  }

  /** Phase 5 is a complete forward substitution: it recovers the unknowns. */
  lemma {:induction false} ForwardAt(F: Field, a: seq<Row>, d: seq<Row>, n: nat, i: nat, T: nat, t: nat, v: Row)
    requires Laws(F)
    requires n <= i && LowerTriangular(a, i) && i <= |d| && IsMatrix(d, T) && t < T && i <= |v|
    requires forall j :: 0 <= j < i ==> d[j][t] == Dot(F, a[j], v, i)
    ensures forall j :: 0 <= j < n ==> Forward(F, a, d, n, T)[j][t] == v[j]
  {
    if n > 0 {
      var p := Forward(F, a, d, n - 1, T);
      assert p[n - 1] == d[n - 1] by {
        ForwardKeeps(F, a, d, n - 1, T);
      }
      assert forall j :: 0 <= j < n - 1 ==> p[j][t] == v[j] by {
        ForwardAt(F, a, d, n - 1, i, T, t, v);
      }
      ForwardStep(F, a[n - 1], p, n - 1, i, T, t, v);
    }
  }

  lemma ForwardStep(F: Field, row: Row, p: seq<Row>, n: nat, i: nat, T: nat, t: nat, v: Row)
    requires Laws(F)
    requires n < i <= |row| && i <= |v| && i <= |p| && IsMatrix(p, T) && t < T
    requires row[n] != 0 && forall q :: n < q < i ==> row[q] == 0
    requires p[n][t] == Dot(F, row, v, i)
    requires forall j :: 0 <= j < n ==> p[j][t] == v[j]
    ensures Accumulate(F, DivAll(F, row, row[n]), p, DivAll(F, p[n], row[n]), 0, n)[t] == v[n]
  {
    var coef := DivAll(F, row, row[n]);
    var y := Column(p, t);
    AccumulateAt(F, coef, p, DivAll(F, p[n], row[n]), 0, n, t);
    DotDivAll(F, row, row[n], v, i);
    DivZero(F, row[n]);
    DivSelf(F, row[n]);
    DotExtend(F, coef, v, n + 1, i);
    MulUnits(F, v[n]);
    DotCongruent(F, coef, v, coef, y, n);
    var s := Dot(F, coef, v, n);
    AddLaws(F, s, v[n], s);
    AddLaws(F, s, 0, 0);
    AddLaws(F, v[n], s, s);
    AddLaws(F, s, v[n], 0);
    AddCancels(F, v[n], s);
  }

  /** Phases 3 to 5 together, from the echelon form of phase 2 and the triangular block of X. */
  function Substitute(F: Field, x: seq<Row>, a: seq<Row>, d: seq<Row>, i: nat, L: nat, T: nat): (r: seq<Row>)
    requires i <= L <= |a| == |d| && i <= |x| && IsMatrix(a, L) && IsMatrix(d, T)
    requires forall j :: 0 <= j < i ==> i <= |x[j]|
    ensures |r| == |d| && IsMatrix(r, T)
  {
    var a' := MulTop(F, x, a, i, L);
    Forward(F, a', ClearUpper(F, a', MulTop(F, x, d, i, T), i, i, L, T), i, T)
  }

  /** Whatever solves the echelon system is what substitution computes. */
  lemma SubstituteSolves(F: Field, x: seq<Row>, a: seq<Row>, d: seq<Row>, i: nat, L: nat, T: nat, t: nat, v: Row)
    requires Laws(F)
    requires Echelon(a, i, L, L) && |a| == |d| && IsMatrix(d, T) && LowerTriangular(x, i)
    requires t < T && |v| == L && Solves(F, a, Column(d, t), v)
    ensures forall k :: 0 <= k < L ==> Substitute(F, x, a, d, i, L, T)[k][t] == v[k]
  {
    var a', d' := MulTop(F, x, a, i, L), MulTop(F, x, d, i, T);
    EchelonLower(F, a, i, L, Column(d, t), v);
    MulTopSolves(F, x, a, d, i, L, T, t, v);
    MulTopTriangular(F, x, a, i, L);
    var e := ClearUpper(F, a', d', i, i, L, T);
    forall j | 0 <= j < i
      ensures e[j][t] == Dot(F, a'[j], v, i)
    {
      ClearUpperAt(F, a', d', i, L, T, t, v, j);
    }
    ForwardAt(F, a', e, i, i, T, t, v);
    ForwardKeeps(F, a', e, i, T);
  }
}
