/** Linear systems over the octets: rows, scalar products, the row and column operations of the
    decoder, and the lemmas that each of them keeps the solutions of a system. */
module LinearAlgebra {
  import opened Octets
  import opened Permutations

  type Row = seq<Octet>

  /** The rows of a matrix all have n columns. */
  ghost predicate IsMatrix(m: seq<Row>, n: nat) {
    forall j :: 0 <= j < |m| ==> |m[j]| == n
  }

  /** The scalar product of the first n entries. */
  function Dot(F: Field, a: Row, v: Row, n: nat): Octet
    requires n <= |a| && n <= |v|
  {
    if n == 0 then 0 else Add(F, Dot(F, a, v, n - 1), Mul(F, a[n - 1], v[n - 1]))
  }

  function Zeros(n: nat): (r: Row)
    ensures |r| == n && forall k {:trigger r[k]} :: 0 <= k < n ==> r[k] == 0
  {
    seq(n, _ => 0)
  }

  function Column(m: seq<Row>, q: nat): (r: Row)
    requires forall j :: 0 <= j < |m| ==> q < |m[j]|
    ensures |r| == |m| && forall j {:trigger r[j]} :: 0 <= j < |m| ==> r[j] == m[j][q]
  {
    seq(|m|, j requires 0 <= j < |m| => m[j][q])
  }

  /** Row a plus factor times row b. */
  function AddScaled(F: Field, a: Row, b: Row, factor: Octet): (r: Row)
    requires |a| == |b|
    ensures |r| == |a|
    ensures forall k {:trigger r[k]} :: 0 <= k < |a| ==> r[k] == Add(F, a[k], Mul(F, factor, b[k]))
  {
    seq(|a|, k requires 0 <= k < |a| => Add(F, a[k], Mul(F, factor, b[k])))
  }

  function DivAll(F: Field, a: Row, factor: Octet): (r: Row)
    ensures |r| == |a|
    ensures forall k {:trigger r[k]} :: 0 <= k < |a| ==> r[k] == Div(F, a[k], factor)
  {
    seq(|a|, k requires 0 <= k < |a| => Div(F, a[k], factor))
  }

  /** Row i times f[j] is added to every row j. */
  function AddMultiples(F: Field, m: seq<Row>, i: nat, f: Row): (r: seq<Row>)
    requires i < |m| == |f| && forall j :: 0 <= j < |m| ==> |m[j]| == |m[i]|
    ensures |r| == |m|
    ensures forall j {:trigger r[j]} :: 0 <= j < |m| ==> r[j] == AddScaled(F, m[j], m[i], f[j])
  {
    seq(|m|, j requires 0 <= j < |m| => AddScaled(F, m[j], m[i], f[j]))
  }

  function PermuteColumns(m: seq<Row>, s: seq<nat>): (r: seq<Row>)
    requires forall j, k :: 0 <= j < |m| && 0 <= k < |s| ==> s[k] < |m[j]|
    ensures |r| == |m|
    ensures forall j {:trigger r[j]} :: 0 <= j < |m| ==> r[j] == Permute(m[j], s)
  {
    seq(|m|, j requires 0 <= j < |m| => Permute(m[j], s))
  }

  /** The linear combination of the first n rows of m with coefficients x. */
  function Combine(F: Field, x: Row, m: seq<Row>, n: nat, width: nat): (r: Row)
    requires n <= |x| && n <= |m| && forall j :: 0 <= j < |m| ==> |m[j]| == width
    ensures |r| == width
  {
    if n == 0 then Zeros(width) else AddScaled(F, Combine(F, x, m, n - 1, width), m[n - 1], x[n - 1])
  }

  /** v solves the system whose matrix is A and whose right-hand side is d. */
  ghost predicate Solves(F: Field, A: seq<Row>, d: Row, v: Row) {
    && |A| == |d| && IsMatrix(A, |v|)
    && forall j :: 0 <= j < |A| ==> Dot(F, A[j], v, |v|) == d[j]
  }

  lemma {:induction false} DotCongruent(F: Field, a: Row, v: Row, b: Row, w: Row, n: nat)
    requires n <= |a| && n <= |v| && n <= |b| && n <= |w|
    requires forall k :: 0 <= k < n ==> a[k] == b[k] && v[k] == w[k]
    ensures Dot(F, a, v, n) == Dot(F, b, w, n)
  {
    if n > 0 {
      DotCongruent(F, a, v, b, w, n - 1);
    }
  }

  /** Terms that vanish do not change the sum. */
  lemma {:induction false} DotExtend(F: Field, a: Row, v: Row, m: nat, n: nat)
    requires Laws(F)
    requires m <= n <= |a| && n <= |v|
    requires forall k :: m <= k < n ==> a[k] == 0 || v[k] == 0
    ensures Dot(F, a, v, n) == Dot(F, a, v, m)
  {
    if m < n {
      DotExtend(F, a, v, m, n - 1);
      MulUnits(F, a[n - 1]);
      MulUnits(F, v[n - 1]);
      AddLaws(F, Dot(F, a, v, m), 0, 0);
    }
  }

  /** A sum with at most one non-zero term. */
  lemma DotSingle(F: Field, a: Row, v: Row, p: nat, n: nat)
    requires Laws(F)
    requires p < n <= |a| && n <= |v|
    requires forall k :: 0 <= k < n && k != p ==> a[k] == 0 || v[k] == 0
    ensures Dot(F, a, v, n) == Mul(F, a[p], v[p])
  {
    DotExtend(F, a, v, p + 1, n);
    DotExtend(F, a, v, 0, p);
    AddLaws(F, Mul(F, a[p], v[p]), 0, 0);
  }

  lemma AddSwap(F: Field, a: Octet, b: Octet, c: Octet, d: Octet)
    requires Laws(F)
    ensures Add(F, Add(F, a, b), Add(F, c, d)) == Add(F, Add(F, a, c), Add(F, b, d))
  {
    AddLaws(F, Add(F, a, b), c, d);
    AddLaws(F, a, b, c);
    AddLaws(F, b, c, 0);
    AddLaws(F, a, c, b);
    AddLaws(F, Add(F, a, c), b, d);
  }

  lemma {:induction false} DotAddScaled(F: Field, a: Row, b: Row, factor: Octet, v: Row, n: nat)
    requires Laws(F)
    requires n <= |a| == |b| && n <= |v|
    ensures Dot(F, AddScaled(F, a, b, factor), v, n) == Add(F, Dot(F, a, v, n), Mul(F, factor, Dot(F, b, v, n)))
  {
    if n == 0 {
      MulUnits(F, factor);
      AddLaws(F, 0, 0, 0);
    } else {
      DotAddScaled(F, a, b, factor, v, n - 1);
      AddScaledTerm(F, Dot(F, a, v, n - 1), Dot(F, b, v, n - 1), a[n - 1], b[n - 1], v[n - 1], factor);
    }
  }

  lemma AddScaledTerm(F: Field, s: Octet, t: Octet, x: Octet, y: Octet, p: Octet, f: Octet)
    requires Laws(F)
    ensures Add(F, Add(F, s, Mul(F, f, t)), Mul(F, Add(F, x, Mul(F, f, y)), p))
         == Add(F, Add(F, s, Mul(F, x, p)), Mul(F, f, Add(F, t, Mul(F, y, p))))
  {
    var z := Mul(F, f, y);
    MulLaws(F, p, x, z);
    MulLaws(F, Add(F, x, z), p, 0);
    MulLaws(F, x, p, 0);
    MulLaws(F, z, p, 0);
    MulLaws(F, f, y, p);
    MulLaws(F, f, t, Mul(F, y, p));
    AddSwap(F, s, Mul(F, f, t), Mul(F, x, p), Mul(F, f, Mul(F, y, p)));
  }

  lemma {:induction false} DotDivAll(F: Field, a: Row, factor: Octet, v: Row, n: nat)
    requires Laws(F)
    requires n <= |a| && n <= |v| && factor != 0
    ensures Dot(F, DivAll(F, a, factor), v, n) == Div(F, Dot(F, a, v, n), factor)
  {
    var c := Div(F, 1, factor);
    DivIsMul(F, Dot(F, a, v, n), factor);
    if n == 0 {
      MulUnits(F, c);
    } else {
      DotDivAll(F, a, factor, v, n - 1);
      var s, x, p := Dot(F, a, v, n - 1), a[n - 1], v[n - 1];
      DivIsMul(F, s, factor);
      DivIsMul(F, x, factor);
      MulLaws(F, c, x, p);
      MulLaws(F, c, s, Mul(F, x, p));
    }
  }

  function Remove<T>(s: seq<T>, p: nat): (r: seq<T>)
    requires p < |s|
    ensures |r| == |s| - 1
    ensures forall k {:trigger r[k]} :: 0 <= k < |r| ==> r[k] == if k < p then s[k] else s[k + 1]
  {
    s[..p] + s[p + 1..]
  }

  lemma {:induction false} DotRemove(F: Field, a: Row, v: Row, p: nat, n: nat)
    requires Laws(F)
    requires p < n <= |a| && n <= |v|
    ensures Dot(F, a, v, n) == Add(F, Dot(F, Remove(a, p), Remove(v, p), n - 1), Mul(F, a[p], v[p]))
  {
    if p == n - 1 {
      DotCongruent(F, a, v, Remove(a, p), Remove(v, p), n - 1);
    } else {
      DotRemove(F, a, v, p, n - 1);
      var s, x, y := Dot(F, Remove(a, p), Remove(v, p), n - 2), Mul(F, a[p], v[p]), Mul(F, a[n - 1], v[n - 1]);
      AddLaws(F, s, x, y);
      AddLaws(F, x, y, 0);
      AddLaws(F, s, y, x);
    }
  }

  lemma RemoveTop(s: seq<nat>, p: nat)
    requires IsPermutation(s) && p < |s| && s[p] == |s| - 1
    ensures IsPermutation(Remove(s, p))
  {
    var r := Remove(s, p);
    forall k | 0 <= k < |r|
      ensures r[k] < |r|
    {
      assert Differ(s, if k < p then k else k + 1, p);
    }
    forall j: nat, k: nat
      ensures Differ(r, j, k)
    {
      assert Differ(s, if j < p then j else j + 1, if k < p then k else k + 1);
    }
  }

  lemma RemovePermute<T>(a: seq<T>, s: seq<nat>, p: nat)
    requires p < |s| && forall k :: 0 <= k < |s| ==> s[k] < |a|
    ensures Remove(Permute(a, s), p) == Permute(a, Remove(s, p))
  {
  }

  /** Reordering both factors in the same way does not change a scalar product. */
  lemma {:induction false} DotPermute(F: Field, a: Row, v: Row, s: seq<nat>)
    requires Laws(F)
    requires IsPermutation(s) && |s| <= |a| && |s| <= |v|
    ensures Dot(F, Permute(a, s), Permute(v, s), |s|) == Dot(F, a, v, |s|)
    decreases |s|
  {
    if s != [] {
      var n := |s|;
      var p := Hits(s, n - 1);
      var s' := Remove(s, p);
      RemoveTop(s, p);
      RemovePermute(a, s, p);
      RemovePermute(v, s, p);
      DotPermute(F, a, v, s');
      DotRemove(F, Permute(a, s), Permute(v, s), p, n);
    }
  }

  /** The effect of AddMultiples on a right-hand side. */
  function AddMultiplesTo(F: Field, d: Row, i: nat, f: Row): (r: Row)
    requires i < |d| == |f|
    ensures |r| == |d|
    ensures forall j {:trigger r[j]} :: 0 <= j < |d| ==> r[j] == Add(F, d[j], Mul(F, f[j], d[i]))
  {
    seq(|d|, j requires 0 <= j < |d| => Add(F, d[j], Mul(F, f[j], d[i])))
  }

  lemma SolvesAddMultiples(F: Field, A: seq<Row>, d: Row, i: nat, f: Row, v: Row)
    requires Laws(F)
    requires i < |A| == |f| == |d| && f[i] == 0 && IsMatrix(A, |v|)
    ensures Solves(F, AddMultiples(F, A, i, f), AddMultiplesTo(F, d, i, f), v) <==> Solves(F, A, d, v)
  {
    var A', d' := AddMultiples(F, A, i, f), AddMultiplesTo(F, d, i, f);
    forall j | 0 <= j < |A|
      ensures Dot(F, A'[j], v, |v|) == Add(F, Dot(F, A[j], v, |v|), Mul(F, f[j], Dot(F, A[i], v, |v|)))
    {
      DotAddScaled(F, A[j], A[i], f[j], v, |v|);
    }
    MulUnits(F, d[i]);
    MulUnits(F, Dot(F, A[i], v, |v|));
    AddLaws(F, d[i], 0, 0);
    AddLaws(F, Dot(F, A[i], v, |v|), 0, 0);
    if Solves(F, A', d', v) {
      forall j | 0 <= j < |A|
        ensures Dot(F, A[j], v, |v|) == d[j]
      {
        assert Dot(F, A'[i], v, |v|) == d'[i];
        assert Dot(F, A'[j], v, |v|) == d'[j];
        AddCancels(F, Dot(F, A[j], v, |v|), Mul(F, f[j], d[i]));
        AddCancels(F, d[j], Mul(F, f[j], d[i]));
      }
    }
  }

  lemma SolvesDivRow(F: Field, A: seq<Row>, d: Row, i: nat, p: Octet, v: Row)
    requires Laws(F)
    requires i < |A| == |d| && p != 0 && IsMatrix(A, |v|)
    ensures Solves(F, A[i := DivAll(F, A[i], p)], d[i := Div(F, d[i], p)], v) <==> Solves(F, A, d, v)
  {
    var A', d' := A[i := DivAll(F, A[i], p)], d[i := Div(F, d[i], p)];
    DotDivAll(F, A[i], p, v, |v|);
    DivIsMul(F, d[i], p);
    DivIsMul(F, Dot(F, A[i], v, |v|), p);
    if Solves(F, A', d', v) {
      forall j | 0 <= j < |A|
        ensures Dot(F, A[j], v, |v|) == d[j]
      {
        assert Dot(F, A'[j], v, |v|) == d'[j];
      }
    }
    if Solves(F, A, d, v) {
      forall j | 0 <= j < |A|
        ensures Dot(F, A'[j], v, |v|) == d'[j]
      {
        assert Dot(F, A[j], v, |v|) == d[j];
      }
    }
  }

  lemma SolvesSwapRows(F: Field, A: seq<Row>, d: Row, i: nat, j: nat, v: Row)
    requires i < |A| == |d| && j < |A| && IsMatrix(A, |v|)
    ensures Solves(F, SwapAt(A, i, j), SwapAt(d, i, j), v) <==> Solves(F, A, d, v)
  {
    SolvesSwapRowsOneWay(F, A, d, i, j, v);
    assert SwapAt(SwapAt(A, i, j), i, j) == A;
    assert SwapAt(SwapAt(d, i, j), i, j) == d;
    SolvesSwapRowsOneWay(F, SwapAt(A, i, j), SwapAt(d, i, j), i, j, v);
  }

  lemma SolvesSwapRowsOneWay(F: Field, A: seq<Row>, d: Row, i: nat, j: nat, v: Row)
    requires i < |A| == |d| && j < |A| && IsMatrix(A, |v|)
    ensures Solves(F, A, d, v) ==> Solves(F, SwapAt(A, i, j), SwapAt(d, i, j), v)
  {
    if Solves(F, A, d, v) {
      var A', d' := SwapAt(A, i, j), SwapAt(d, i, j);
      forall k | 0 <= k < |A|
        ensures Dot(F, A'[k], v, |v|) == d'[k]
      {
        assert Dot(F, A[i], v, |v|) == d[i];
        assert Dot(F, A[j], v, |v|) == d[j];
        assert Dot(F, A[k], v, |v|) == d[k];
      }
    }
  }

  lemma SolvesPermuteColumns(F: Field, A: seq<Row>, d: Row, s: seq<nat>, v: Row)
    requires Laws(F)
    requires |A| == |d| && |s| == |v| && IsPermutation(s) && IsMatrix(A, |v|)
    ensures Solves(F, PermuteColumns(A, s), d, Permute(v, s)) <==> Solves(F, A, d, v)
  {
    var A' := PermuteColumns(A, s);
    forall j | 0 <= j < |A|
      ensures Dot(F, A'[j], Permute(v, s), |v|) == Dot(F, A[j], v, |v|)
    {
      DotPermute(F, A[j], v, s);
    }
  }

  /** v solves (A0, d0) exactly when v reordered by c solves (A, d). */
  ghost predicate SameAt(F: Field, A0: seq<Row>, d0: Row, A: seq<Row>, d: Row, c: seq<nat>, v: Row)
    requires IsPermutation(c) && |v| == |c|
  {
    Solves(F, A0, d0, v) <==> Solves(F, A, d, Permute(v, c))
  }

  /** The system (A, d) has the solutions of (A0, d0), with the unknowns reordered by c. */
  ghost predicate SameSystem(F: Field, A0: seq<Row>, d0: Row, A: seq<Row>, d: Row, c: seq<nat>) {
    && IsPermutation(c) && |A| == |d| && IsMatrix(A, |c|)
    && forall v: Row {:trigger SameAt(F, A0, d0, A, d, c, v)} :: |v| == |c| ==> SameAt(F, A0, d0, A, d, c, v)
  }

  ghost predicate EquivalentAt(F: Field, A: seq<Row>, d: Row, A': seq<Row>, d': Row, w: Row) {
    Solves(F, A, d, w) <==> Solves(F, A', d', w)
  }

  /** (A, d) and (A', d') have the same solutions. */
  ghost predicate Equivalent(F: Field, A: seq<Row>, d: Row, A': seq<Row>, d': Row, n: nat) {
    && |A'| == |d'| && IsMatrix(A', n)
    && forall w: Row {:trigger EquivalentAt(F, A, d, A', d', w)} :: |w| == n ==> EquivalentAt(F, A, d, A', d', w)
  }

  lemma SameStep(F: Field, A0: seq<Row>, d0: Row, A: seq<Row>, d: Row, A': seq<Row>, d': Row, c: seq<nat>)
    requires SameSystem(F, A0, d0, A, d, c)
    requires Equivalent(F, A, d, A', d', |c|)
    ensures SameSystem(F, A0, d0, A', d', c)
  {
    forall v: Row | |v| == |c|
      ensures SameAt(F, A0, d0, A', d', c, v)
    {
      assert SameAt(F, A0, d0, A, d, c, v);
      assert EquivalentAt(F, A, d, A', d', Permute(v, c));
    }
  }

  lemma SameAddMultiples(F: Field, A0: seq<Row>, d0: Row, A: seq<Row>, d: Row, c: seq<nat>, i: nat, f: Row)
    requires Laws(F)
    requires SameSystem(F, A0, d0, A, d, c)
    requires i < |A| == |f| && f[i] == 0
    ensures SameSystem(F, A0, d0, AddMultiples(F, A, i, f), AddMultiplesTo(F, d, i, f), c)
  {
    EquivalentAddMultiples(F, A, d, i, f, |c|);
    SameStep(F, A0, d0, A, d, AddMultiples(F, A, i, f), AddMultiplesTo(F, d, i, f), c);
  }

  lemma EquivalentAddMultiples(F: Field, A: seq<Row>, d: Row, i: nat, f: Row, n: nat)
    requires Laws(F)
    requires i < |A| == |f| == |d| && f[i] == 0 && IsMatrix(A, n)
    ensures Equivalent(F, A, d, AddMultiples(F, A, i, f), AddMultiplesTo(F, d, i, f), n)
  {
    var A', d' := AddMultiples(F, A, i, f), AddMultiplesTo(F, d, i, f);
    forall w: Row | |w| == n
      ensures EquivalentAt(F, A, d, A', d', w)
    {
      SolvesAddMultiples(F, A, d, i, f, w);
    }
  }

  lemma SameDivRow(F: Field, A0: seq<Row>, d0: Row, A: seq<Row>, d: Row, c: seq<nat>, i: nat, p: Octet)
    requires Laws(F)
    requires SameSystem(F, A0, d0, A, d, c)
    requires i < |A| && p != 0
    ensures SameSystem(F, A0, d0, A[i := DivAll(F, A[i], p)], d[i := Div(F, d[i], p)], c)
  {
    var A', d' := A[i := DivAll(F, A[i], p)], d[i := Div(F, d[i], p)];
    forall w: Row | |w| == |c|
      ensures EquivalentAt(F, A, d, A', d', w)
    {
      SolvesDivRow(F, A, d, i, p, w);
    }
    SameStep(F, A0, d0, A, d, A', d', c);
  }

  lemma SameSwapRows(F: Field, A0: seq<Row>, d0: Row, A: seq<Row>, d: Row, c: seq<nat>, i: nat, j: nat)
    requires SameSystem(F, A0, d0, A, d, c)
    requires i < |A| && j < |A|
    ensures SameSystem(F, A0, d0, SwapAt(A, i, j), SwapAt(d, i, j), c)
  {
    EquivalentSwapRows(F, A, d, i, j, |c|);
    SameStep(F, A0, d0, A, d, SwapAt(A, i, j), SwapAt(d, i, j), c);
  }

  lemma EquivalentSwapRows(F: Field, A: seq<Row>, d: Row, i: nat, j: nat, n: nat)
    requires i < |A| == |d| && j < |A| && IsMatrix(A, n)
    ensures Equivalent(F, A, d, SwapAt(A, i, j), SwapAt(d, i, j), n)
  {
    var A', d' := SwapAt(A, i, j), SwapAt(d, i, j);
    forall w: Row | |w| == n
      ensures EquivalentAt(F, A, d, A', d', w)
    {
      SolvesSwapRows(F, A, d, i, j, w);
    }
  }

  lemma SamePermuteColumns(F: Field, A0: seq<Row>, d0: Row, A: seq<Row>, d: Row, c: seq<nat>, s: seq<nat>)
    requires Laws(F)
    requires SameSystem(F, A0, d0, A, d, c)
    requires IsPermutation(s) && |s| == |c|
    ensures SameSystem(F, A0, d0, PermuteColumns(A, s), d, Permute(c, s))
  {
    PermuteIsPermutation(c, s);
    forall v: Row | |v| == |c|
      ensures SameAt(F, A0, d0, PermuteColumns(A, s), d, Permute(c, s), v)
    {
      assert SameAt(F, A0, d0, A, d, c, v);
      SolvesPermuteColumns(F, A, d, s, Permute(v, c));
      assert Permute(Permute(v, c), s) == Permute(v, Permute(c, s));
    }
  }
}
