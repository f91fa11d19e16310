/** What the phases of the decoder (src/fast_decode.cpp; RFC 6330, section 5.4.2) achieve, stated on the
    values of the matrices: which entries are zero, how the shadow matrix X relates to A, which systems
    have the same solutions, and when a non-zero kernel vector exists. */
module Elimination {
  import opened Octets
  import opened Permutations
  import opened LinearAlgebra
  import opened Matrices

  /** The matrix has no kernel but zero: its n columns are independent. */
  ghost predicate TrivialKernel(F: Field, A: seq<Row>, n: nat) {
    forall v: Row :: |v| == n && Solves(F, A, Zeros(|A|), v) ==> v == Zeros(n)
  }

  /** At octet position t of the symbols, (a, d) has the solutions of (A0, D0), reordered by c. */
  ghost predicate SameColumn(F: Field, A0: seq<Row>, D0: seq<Row>, a: seq<Row>, d: seq<Row>, c: seq<nat>, T: nat, t: nat) {
    t < T && IsMatrix(D0, T) && IsMatrix(d, T) && SameSystem(F, A0, Column(D0, t), a, Column(d, t), c)
  }

  /** At every octet position t of the symbols, (a, d) has the solutions of (A0, D0), and the matrices
      have the same kernel, with the unknowns reordered by c. */
  ghost predicate Tracks(F: Field, A0: seq<Row>, D0: seq<Row>, a: seq<Row>, d: seq<Row>, c: seq<nat>, T: nat) {
    && |D0| == |A0| == |a| == |d| && IsMatrix(D0, T) && IsMatrix(d, T) && IsMatrix(a, |c|) && IsPermutation(c)
    && SameSystem(F, A0, Zeros(|a|), a, Zeros(|a|), c)
    && forall t: nat {:trigger SameColumn(F, A0, D0, a, d, c, T, t)} :: t < T ==> SameColumn(F, A0, D0, a, d, c, T, t)
  }

  lemma TracksInitially(F: Field, A0: seq<Row>, D0: seq<Row>, L: nat, T: nat)
    requires |A0| == |D0| && IsMatrix(A0, L) && IsMatrix(D0, T)
    ensures Tracks(F, A0, D0, A0, D0, Identity(L), T)
  {
    SameInitially(F, A0, Zeros(|A0|), L);
    forall t: nat | t < T
      ensures SameColumn(F, A0, D0, A0, D0, Identity(L), T, t)
    {
      SameInitially(F, A0, Column(D0, t), L);
    }
  }

  lemma SameInitially(F: Field, A0: seq<Row>, d: Row, L: nat)
    requires |A0| == |d| && IsMatrix(A0, L)
    ensures SameSystem(F, A0, d, A0, d, Identity(L))
  {
    IdentityIsPermutation(L);
    forall v: Row | |v| == L
      ensures SameAt(F, A0, d, A0, d, Identity(L), v)
    {
      assert Permute(v, Identity(L)) == v;
    }
  }

  lemma TracksSwapRows(F: Field, A0: seq<Row>, D0: seq<Row>, a: seq<Row>, d: seq<Row>, c: seq<nat>, T: nat, i: nat, j: nat)
    requires Tracks(F, A0, D0, a, d, c, T) && i < |a| && j < |a|
    ensures Tracks(F, A0, D0, SwapAt(a, i, j), SwapAt(d, i, j), c, T)
  {
    SameSwapRows(F, A0, Zeros(|a|), a, Zeros(|a|), c, i, j);
    assert SwapAt(Zeros(|a|), i, j) == Zeros(|a|);
    forall t: nat | t < T
      ensures SameColumn(F, A0, D0, SwapAt(a, i, j), SwapAt(d, i, j), c, T, t)
    {
      assert SameColumn(F, A0, D0, a, d, c, T, t);
      SameSwapRows(F, A0, Column(D0, t), a, Column(d, t), c, i, j);
      assert SwapAt(Column(d, t), i, j) == Column(SwapAt(d, i, j), t);
    }
  }

  lemma TracksPermuteColumns(F: Field, A0: seq<Row>, D0: seq<Row>, a: seq<Row>, d: seq<Row>, c: seq<nat>, T: nat, s: seq<nat>)
    requires Laws(F)
    requires Tracks(F, A0, D0, a, d, c, T) && IsPermutation(s) && |s| == |c|
    ensures Tracks(F, A0, D0, PermuteColumns(a, s), d, Permute(c, s), T)
  {
    SamePermuteColumns(F, A0, Zeros(|a|), a, Zeros(|a|), c, s);
    forall t: nat | t < T
      ensures SameColumn(F, A0, D0, PermuteColumns(a, s), d, Permute(c, s), T, t)
    {
      assert SameColumn(F, A0, D0, a, d, c, T, t);
      SamePermuteColumns(F, A0, Column(D0, t), a, Column(d, t), c, s);
    }
  }

  lemma TracksAddMultiples(F: Field, A0: seq<Row>, D0: seq<Row>, a: seq<Row>, d: seq<Row>, c: seq<nat>, T: nat, i: nat, f: Row)
    requires Laws(F)
    requires Tracks(F, A0, D0, a, d, c, T) && i < |a| == |f| && f[i] == 0
    ensures Tracks(F, A0, D0, AddMultiples(F, a, i, f), AddMultiples(F, d, i, f), c, T)
  {
    SameAddMultiples(F, A0, Zeros(|a|), a, Zeros(|a|), c, i, f);
    AddMultiplesToZeros(F, |a|, i, f);
    forall t: nat | t < T
      ensures SameColumn(F, A0, D0, AddMultiples(F, a, i, f), AddMultiples(F, d, i, f), c, T, t)
    {
      assert SameColumn(F, A0, D0, a, d, c, T, t);
      SameAddMultiples(F, A0, Column(D0, t), a, Column(d, t), c, i, f);
      assert AddMultiplesTo(F, Column(d, t), i, f) == Column(AddMultiples(F, d, i, f), t);
    }
  }

  lemma AddMultiplesToZeros(F: Field, n: nat, i: nat, f: Row)
    requires Laws(F) && i < n == |f|
    ensures AddMultiplesTo(F, Zeros(n), i, f) == Zeros(n)
  {
    forall j | 0 <= j < n
      ensures Add(F, 0, Mul(F, f[j], 0)) == 0
    {
      MulUnits(F, f[j]);
      AddLaws(F, 0, 0, 0);
    }
  }

  lemma TracksDivRow(F: Field, A0: seq<Row>, D0: seq<Row>, a: seq<Row>, d: seq<Row>, c: seq<nat>, T: nat, i: nat, p: Octet)
    requires Laws(F)
    requires Tracks(F, A0, D0, a, d, c, T) && i < |a| && p != 0
    ensures Tracks(F, A0, D0, a[i := DivAll(F, a[i], p)], d[i := DivAll(F, d[i], p)], c, T)
  {
    SameDivRow(F, A0, Zeros(|a|), a, Zeros(|a|), c, i, p);
    DivZero(F, p);
    assert Zeros(|a|)[i := 0] == Zeros(|a|);
    var a', d' := a[i := DivAll(F, a[i], p)], d[i := DivAll(F, d[i], p)];
    forall t: nat | t < T
      ensures SameColumn(F, A0, D0, a', d', c, T, t)
    {
      assert SameColumn(F, A0, D0, a, d, c, T, t);
      SameDivRow(F, A0, Column(D0, t), a, Column(d, t), c, i, p);
      assert Column(d, t)[i := Div(F, Column(d, t)[i], p)] == Column(d[i := DivAll(F, d[i], p)], t);
    }
  }

  lemma DivZero(F: Field, p: Octet)
    requires Laws(F) && p != 0
    ensures Div(F, 0, p) == 0
  {
    DivIsMul(F, 0, p);
    MulUnits(F, Div(F, 1, p));
  }

  /** The state of A in phase 1, when the columns i to vEnd - 1 of the rows from i on are the part V still
      to be processed: the finished rows are zero left of vEnd but for a non-zero diagonal, and the other
      rows are zero left of i. */
  ghost predicate Diagonalized(a: seq<Row>, i: nat, vEnd: nat) {
    && i <= vEnd && i <= |a| && (forall j :: 0 <= j < |a| ==> vEnd <= |a[j]|)
    && (forall k :: 0 <= k < i ==> a[k][k] != 0)
    && (forall k, q :: 0 <= k < i && 0 <= q < vEnd && q != k ==> a[k][q] == 0)
    && (forall j, q :: i <= j < |a| && 0 <= q < i ==> a[j][q] == 0)
  }

  function Min(a: nat, b: nat): nat {
    if a < b then a else b
  }

  /** Row j of X, in column q, is row j of A plus the combination of the rows before it with the coefficients w. */
  ghost predicate ShadowAt(F: Field, x: seq<Row>, a: seq<Row>, w: seq<Row>, i: nat, L: nat, j: nat, q: nat)
    requires |x| == |a| == |w| && IsMatrix(x, L) && IsMatrix(a, L) && IsMatrix(w, |a|) && j < |a| && q < L
  {
    x[j][q] == Add(F, a[j][q], Dot(F, w[j], Column(a, q), Min(i, j)))
  }

  /** X is W times A, for the unit lower triangular matrix whose entries below the diagonal, in the first i
      columns, are those of w. */
  ghost predicate Shadows(F: Field, x: seq<Row>, a: seq<Row>, w: seq<Row>, i: nat, L: nat) {
    && |x| == |a| == |w| && IsMatrix(x, L) && IsMatrix(a, L) && IsMatrix(w, |a|)
    && forall j: nat, q: nat {:trigger ShadowAt(F, x, a, w, i, L, j, q)} :: j < |a| && q < L ==> ShadowAt(F, x, a, w, i, L, j, q)
  }

  lemma ShadowsInitially(F: Field, a: seq<Row>, L: nat)
    requires Laws(F)
    requires IsMatrix(a, L)
    ensures Shadows(F, a, a, seq(|a|, _ => Zeros(|a|)), 0, L)
  {
    var w := seq(|a|, _ => Zeros(|a|));
    forall j: nat, q: nat | j < |a| && q < L
      ensures ShadowAt(F, a, a, w, 0, L, j, q)
    {
      AddLaws(F, a[j][q], 0, 0);
    }
  }

  lemma ShadowsSwapRows(F: Field, x: seq<Row>, a: seq<Row>, w: seq<Row>, i: nat, L: nat, p: nat)
    requires Shadows(F, x, a, w, i, L) && i <= p < |a|
    ensures Shadows(F, SwapAt(x, i, p), SwapAt(a, i, p), SwapAt(w, i, p), i, L)
  {
    var x', a', w' := SwapAt(x, i, p), SwapAt(a, i, p), SwapAt(w, i, p);
    forall j: nat, q: nat | j < |a| && q < L
      ensures ShadowAt(F, x', a', w', i, L, j, q)
    {
      var j' := if j == i then p else if j == p then i else j;
      assert ShadowAt(F, x, a, w, i, L, j', q);
      DotCongruent(F, w[j'], Column(a, q), w'[j], Column(a', q), Min(i, j));
    }
  }

  lemma ShadowsPermuteColumns(F: Field, x: seq<Row>, a: seq<Row>, w: seq<Row>, i: nat, L: nat, s: seq<nat>)
    requires Shadows(F, x, a, w, i, L) && IsPermutation(s) && |s| == L
    ensures Shadows(F, PermuteColumns(x, s), PermuteColumns(a, s), w, i, L)
  {
    var x', a' := PermuteColumns(x, s), PermuteColumns(a, s);
    forall j: nat, q: nat | j < |a| && q < L
      ensures ShadowAt(F, x', a', w, i, L, j, q)
    {
      assert ShadowAt(F, x, a, w, i, L, j, s[q]);
      assert Column(a', q) == Column(a, s[q]);
    }
  }

  /** The factors that clear column i below row i. */
  function Factors(F: Field, a: seq<Row>, i: nat): (f: Row)
    requires i < |a| && forall j :: 0 <= j < |a| ==> i < |a[j]|
    ensures |f| == |a| && forall j {:trigger f[j]} :: 0 <= j < |a| ==> f[j] == if j <= i then 0 else Div(F, a[j][i], a[i][i])
  {
    seq(|a|, j requires 0 <= j < |a| => if j <= i then 0 else Div(F, a[j][i], a[i][i]))
  }

  ghost function ExtendFactors(w: seq<Row>, i: nat, f: Row): (r: seq<Row>)
    requires |w| == |f| && i < |f| && IsMatrix(w, |f|)
    ensures |r| == |w| && IsMatrix(r, |f|)
    ensures forall j {:trigger r[j]} :: 0 <= j < |w| ==> r[j] == w[j][i := f[j]]
  {
    seq(|w|, j requires 0 <= j < |w| => w[j][i := f[j]])
  }

  lemma ShadowsEliminate(F: Field, x: seq<Row>, a: seq<Row>, w: seq<Row>, i: nat, L: nat)
    requires Laws(F)
    requires Shadows(F, x, a, w, i, L) && i < |a| && i < L
    ensures Shadows(F, x, AddMultiples(F, a, i, Factors(F, a, i)), ExtendFactors(w, i, Factors(F, a, i)), i + 1, L)
  {
    var f := Factors(F, a, i);
    var a', w' := AddMultiples(F, a, i, f), ExtendFactors(w, i, f);
    var i' := i + 1;
    forall j: nat, q: nat | j < |a| && q < L
      ensures ShadowAt(F, x, a', w', i', L, j, q)
    {
      ShadowsEliminateAt(F, x, a, w, i, L, j, q);
    }
  }

  lemma ShadowsEliminateAt(F: Field, x: seq<Row>, a: seq<Row>, w: seq<Row>, i: nat, L: nat, j: nat, q: nat)
    requires Laws(F)
    requires Shadows(F, x, a, w, i, L) && i < |a| && i < L && j < |a| && q < L
    ensures var f := Factors(F, a, i); var a' := AddMultiples(F, a, i, f);
      x[j][q] == Add(F, a'[j][q], Dot(F, ExtendFactors(w, i, f)[j], Column(a', q), Min(i + 1, j)))
  {
    var f := Factors(F, a, i);
    var a', w' := AddMultiples(F, a, i, f), ExtendFactors(w, i, f);
    assert ShadowAt(F, x, a, w, i, L, j, q);
    forall k | 0 <= k <= i
      ensures a'[k] == a[k]
    {
      AddScaledZero(F, a[k], a[i]);
    }
    DotCongruent(F, w[j], Column(a, q), w'[j], Column(a', q), Min(i, j));
    if j > i {
      var s, b := Dot(F, w[j], Column(a, q), i), Mul(F, f[j], a[i][q]);
      AddLaws(F, a[j][q], b, Add(F, s, b));
      AddLaws(F, b, s, b);
      AddLaws(F, s, b, b);
      AddCancels(F, s, b);
    }
  }

  lemma DiagonalizedSwapRows(a: seq<Row>, i: nat, vEnd: nat, p: nat)
    requires Diagonalized(a, i, vEnd) && i <= p < |a|
    ensures Diagonalized(SwapAt(a, i, p), i, vEnd)
  {
  }

  /** A permutation that moves only the columns of V. */
  ghost predicate MovesOnly(s: seq<nat>, i: nat, vEnd: nat) {
    && IsPermutation(s) && i <= vEnd <= |s|
    && (forall k :: 0 <= k < |s| && !(i <= k < vEnd) ==> s[k] == k)
    && (forall k :: i <= k < vEnd ==> i <= s[k] < vEnd)
  }

  lemma DiagonalizedPermuteColumns(a: seq<Row>, i: nat, vEnd: nat, s: seq<nat>)
    requires Diagonalized(a, i, vEnd) && MovesOnly(s, i, vEnd) && IsMatrix(a, |s|)
    ensures Diagonalized(PermuteColumns(a, s), i, vEnd)
  {
  }

  /** Clearing column i below a row whose other non-zero entries in V lie from vEnd' on. */
  lemma DiagonalizedEliminate(F: Field, a: seq<Row>, i: nat, vEnd: nat, vEnd': nat)
    requires Laws(F)
    requires Diagonalized(a, i, vEnd) && i < vEnd' <= vEnd && i < |a| && IsMatrix(a, |a[i]|)
    requires a[i][i] != 0 && forall q :: i < q < vEnd' ==> a[i][q] == 0
    ensures Diagonalized(AddMultiples(F, a, i, Factors(F, a, i)), i + 1, vEnd')
  {
    var f := Factors(F, a, i);
    var a' := AddMultiples(F, a, i, f);
    forall k | 0 <= k <= i
      ensures a'[k] == a[k]
    {
      AddScaledZero(F, a[k], a[i]);
    }
    forall j, q | i < j < |a| && 0 <= q <= i
      ensures a'[j][q] == 0
    {
      MulUnits(F, f[j]);
      AddLaws(F, a[j][q], 0, 0);
      if q == i {
        DivIsMul(F, a[j][i], a[i][i]);
        MulLaws(F, f[j], a[i][i], 0);
        AddCancels(F, a[j][i], a[j][i]);
      }
    }
  }

  /** X restricted to the first i rows and columns is lower triangular with the diagonal of A. */
  ghost predicate LowerTriangular(x: seq<Row>, i: nat) {
    && i <= |x| && (forall j :: 0 <= j < i ==> i <= |x[j]| && x[j][j] != 0)
    && (forall j, q :: 0 <= j < q < i ==> x[j][q] == 0)
  }

  lemma ShadowIsTriangular(F: Field, x: seq<Row>, a: seq<Row>, w: seq<Row>, i: nat, L: nat)
    requires Laws(F)
    requires Shadows(F, x, a, w, i, L) && Diagonalized(a, i, i) && i <= L
    ensures LowerTriangular(x, i)
  {
    forall j, q | 0 <= j < i && j <= q < i
      ensures x[j][q] == a[j][q]
    {
      assert ShadowAt(F, x, a, w, i, L, j, q);
      DotExtend(F, w[j], Column(a, q), 0, j);
      AddLaws(F, a[j][q], 0, 0);
    }
  }

  /** The state of A in phase 2 (here i is also the first column of U): the rows from i on are zero left of
      column i and hold the columns i to r - 1 of the identity. */
  ghost predicate Echelon(a: seq<Row>, i: nat, r: nat, L: nat) {
    && i <= r <= L <= |a| && IsMatrix(a, L) && Diagonalized(a, i, i)
    && forall j, k :: i <= j < |a| && i <= k < r ==> a[j][k] == if j == k then 1 else 0
  }

  lemma EchelonSwapRows(a: seq<Row>, i: nat, r: nat, L: nat, p: nat)
    requires Echelon(a, i, r, L) && r <= p < |a|
    ensures Echelon(SwapAt(a, r, p), i, r, L)
  {
  }

  lemma EchelonDivRow(F: Field, a: seq<Row>, i: nat, r: nat, L: nat)
    requires Laws(F)
    requires Echelon(a, i, r, L) && r < L && a[r][r] != 0
    ensures Echelon(a[r := DivAll(F, a[r], a[r][r])], i, r, L)
    ensures Div(F, a[r][r], a[r][r]) == 1
  {
    var p := a[r][r];
    DivZero(F, p);
    DivSelf(F, p);
  }

  lemma DivSelf(F: Field, p: Octet)
    requires Laws(F) && p != 0
    ensures Div(F, p, p) == 1
  {
    DivIsMul(F, p, p);
    DivIsMul(F, 1, p);
    MulLaws(F, Div(F, 1, p), p, 0);
  }

  /** The factors that clear column r in every row from i on but r. */
  function ClearFactors(a: seq<Row>, i: nat, r: nat): (f: Row)
    requires r < |a| && forall j :: 0 <= j < |a| ==> r < |a[j]|
    ensures |f| == |a| && forall j {:trigger f[j]} :: 0 <= j < |a| ==> f[j] == if j < i || j == r then 0 else a[j][r]
  {
    seq(|a|, j requires 0 <= j < |a| => if j < i || j == r then 0 else a[j][r])
  }

  lemma EchelonClear(F: Field, a: seq<Row>, i: nat, r: nat, L: nat)
    requires Laws(F)
    requires Echelon(a, i, r, L) && r < L && a[r][r] == 1
    ensures Echelon(AddMultiples(F, a, r, ClearFactors(a, i, r)), i, r + 1, L)
  {
    var f := ClearFactors(a, i, r);
    var a' := AddMultiples(F, a, r, f);
    forall j | 0 <= j < i
      ensures a'[j] == a[j]
    {
      AddScaledZero(F, a[j], a[r]);
    }
    forall j, k | i <= j < |a| && 0 <= k < r
      ensures a'[j][k] == a[j][k]
    {
      MulUnits(F, f[j]);
      AddLaws(F, a[j][k], 0, 0);
    }
    forall j | i <= j < |a|
      ensures a'[j][r] == if j == r then 1 else 0
    {
      MulUnits(F, f[j]);
      AddLaws(F, a[j][r], 0, 0);
      AddCancels(F, a[j][r], a[j][r]);
    }
  }

  /** The solution of an echelon system is read off the lower rows. */
  lemma EchelonLower(F: Field, a: seq<Row>, i: nat, L: nat, d: Row, v: Row)
    requires Laws(F)
    requires Echelon(a, i, L, L) && |v| == L && Solves(F, a, d, v)
    ensures forall j :: i <= j < L ==> v[j] == d[j]
  {
    forall j | i <= j < L
      ensures v[j] == d[j]
    {
      DotSingle(F, a[j], v, j, L);
      MulUnits(F, v[j]);
    }
  }

  lemma EchelonHasTrivialKernel(F: Field, a: seq<Row>, i: nat, L: nat)
    requires Laws(F)
    requires Echelon(a, i, L, L)
    ensures TrivialKernel(F, a, L)
  {
    forall v: Row | |v| == L && Solves(F, a, Zeros(|a|), v)
      ensures v == Zeros(L)
    {
      EchelonLower(F, a, i, L, Zeros(|a|), v);
      forall j | 0 <= j < i
        ensures v[j] == 0
      {
        DotSingle(F, a[j], v, j, L);
        NoZeroDivisors(F, v[j], a[j][j]);
      }
    }
  }

  /** A zero column gives a kernel vector. */
  lemma ZeroColumnKernel(F: Field, a: seq<Row>, q: nat, L: nat)
    requires Laws(F)
    requires IsMatrix(a, L) && q < L && forall j :: 0 <= j < |a| ==> a[j][q] == 0
    ensures !TrivialKernel(F, a, L)
  {
    var v := Zeros(L)[q := 1];
    forall j | 0 <= j < |a|
      ensures Dot(F, a[j], v, L) == 0
    {
      DotExtend(F, a[j], v, 0, L);
    }
    assert Solves(F, a, Zeros(|a|), v);
    assert v[q] != Zeros(L)[q];
  }

  /** No pivot in column r gives a kernel vector: column r is a combination of the columns before it. */
  ghost function DependentTail(a: seq<Row>, i: nat, r: nat, L: nat): (z: Row)
    requires Echelon(a, i, r, L) && r < L
    ensures |z| == L
    ensures forall k {:trigger z[k]} :: 0 <= k < L ==> z[k] == if k == r then 1 else if i <= k < r then a[k][r] else 0
  {
    seq(L, k requires 0 <= k < L => if k == r then 1 else if i <= k < r then a[k][r] else 0)
  }

  ghost function Dependency(F: Field, a: seq<Row>, i: nat, r: nat, L: nat): (v: Row)
    requires Echelon(a, i, r, L) && r < L
    ensures |v| == L
    ensures forall k :: 0 <= k < L ==>
      v[k] == if k < i then Div(F, Dot(F, a[k], DependentTail(a, i, r, L), L), a[k][k]) else DependentTail(a, i, r, L)[k]
  {
    var z := DependentTail(a, i, r, L);
    seq(L, k requires 0 <= k < L => if k < i then Div(F, Dot(F, a[k], z, L), a[k][k]) else z[k])
  }

  lemma DependencyUpper(F: Field, a: seq<Row>, i: nat, r: nat, L: nat, j: nat)
    requires Laws(F)
    requires Echelon(a, i, r, L) && r < L && j < i
    ensures Dot(F, a[j], Dependency(F, a, i, r, L), L) == 0
  {
    var z, v := DependentTail(a, i, r, L), Dependency(F, a, i, r, L);
    var s := Dot(F, a[j], z, L);
    DivIsMul(F, s, a[j][j]);
    DotReplace(F, a[j], z, v, j, L);
    AddCancels(F, s, s);
  }

  /** Changing one factor from zero adds one product; changes where the other factor is zero do not matter. */
  lemma {:induction false} DotReplace(F: Field, a: Row, z: Row, v: Row, p: nat, n: nat)
    requires Laws(F)
    requires n <= |a| && n <= |z| && n <= |v| && p < |a| && p < |z| && p < |v| && z[p] == 0
    requires forall k :: 0 <= k < n && k != p ==> a[k] == 0 || z[k] == v[k]
    ensures Dot(F, a, v, n) == if p < n then Add(F, Dot(F, a, z, n), Mul(F, a[p], v[p])) else Dot(F, a, z, n)
  {
    if n > 0 {
      DotReplace(F, a, z, v, p, n - 1);
      var s, x, y := Dot(F, a, z, n - 1), Mul(F, a[p], v[p]), Mul(F, a[n - 1], v[n - 1]);
      MulUnits(F, v[n - 1]);
      MulUnits(F, z[n - 1]);
      MulUnits(F, a[n - 1]);
      AddLaws(F, s, 0, 0);
      AddLaws(F, s, x, y);
      AddLaws(F, x, y, 0);
      AddLaws(F, s, y, x);
    }
  }

  lemma DependencyLower(F: Field, a: seq<Row>, i: nat, r: nat, L: nat, j: nat)
    requires Laws(F)
    requires Echelon(a, i, r, L) && r < L && i <= j < |a|
    requires j >= r ==> a[j][r] == 0
    ensures Dot(F, a[j], Dependency(F, a, i, r, L), L) == 0
  {
    var v := Dependency(F, a, i, r, L);
    if j < r {
      DotExtend(F, a[j], v, r + 1, L);
      DotSingle(F, a[j], v, j, r);
      MulUnits(F, v[j]);
      MulUnits(F, a[j][r]);
      AddCancels(F, a[j][r], a[j][r]);
    } else {
      DotExtend(F, a[j], v, 0, L);
    }
  }

  lemma NoPivotKernel(F: Field, a: seq<Row>, i: nat, r: nat, L: nat)
    requires Laws(F)
    requires Echelon(a, i, r, L) && r < L
    requires forall j :: r <= j < |a| ==> a[j][r] == 0
    ensures !TrivialKernel(F, a, L)
  {
    var v := Dependency(F, a, i, r, L);
    forall j | 0 <= j < |a|
      ensures Dot(F, a[j], v, L) == 0
    {
      if j < i {
        DependencyUpper(F, a, i, r, L, j);
      } else {
        DependencyLower(F, a, i, r, L, j);
      }
    }
    assert Solves(F, a, Zeros(|a|), v);
    assert v[r] != Zeros(L)[r];
  }

  lemma KernelForward(F: Field, A0: seq<Row>, a: seq<Row>, c: seq<nat>, v: Row)
    requires |A0| == |a| && SameSystem(F, A0, Zeros(|a|), a, Zeros(|a|), c)
    requires TrivialKernel(F, a, |c|) && |v| == |c| && Solves(F, A0, Zeros(|a|), v)
    ensures v == Zeros(|c|)
  {
    assert SameAt(F, A0, Zeros(|a|), a, Zeros(|a|), c, v);
    var w := Permute(v, c);
    forall x: nat | x < |c|
      ensures v[x] == 0
    {
      var k := Hits(c, x);
      assert w[k] == Zeros(|c|)[k];
    }
  }

  lemma KernelBackward(F: Field, A0: seq<Row>, a: seq<Row>, c: seq<nat>, w: Row)
    requires |A0| == |a| && SameSystem(F, A0, Zeros(|a|), a, Zeros(|a|), c)
    requires TrivialKernel(F, A0, |c|) && |w| == |c| && Solves(F, a, Zeros(|a|), w)
    ensures w == Zeros(|c|)
  {
    var v := Unpermute(w, c);
    assert Permute(v, c) == w by {
      forall k | 0 <= k < |c| ensures v[c[k]] == w[k] {
        UnpermuteAt(w, c, k);
      }
    }
    assert SameAt(F, A0, Zeros(|a|), a, Zeros(|a|), c, v);
  }

  /** Matrices whose homogeneous systems have the same solutions up to order have kernels of the same kind. */
  lemma SameKernel(F: Field, A0: seq<Row>, a: seq<Row>, c: seq<nat>)
    requires |A0| == |a| && SameSystem(F, A0, Zeros(|a|), a, Zeros(|a|), c)
    ensures TrivialKernel(F, A0, |c|) <==> TrivialKernel(F, a, |c|)
  {
    if TrivialKernel(F, a, |c|) {
      forall v: Row | |v| == |c| && Solves(F, A0, Zeros(|A0|), v)
        ensures v == Zeros(|c|)
      {
        KernelForward(F, A0, a, c, v);
      }
    }
    if TrivialKernel(F, A0, |c|) {
      forall w: Row | |w| == |c| && Solves(F, a, Zeros(|a|), w)
        ensures w == Zeros(|c|)
      {
        KernelBackward(F, A0, a, c, w);
      }
    }
  }
}
