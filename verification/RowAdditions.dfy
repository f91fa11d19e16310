/** A row added, in multiples, to the rows of a matrix one after the other. */
module RowAdditions {
  import opened Octets
  import opened LinearAlgebra
  import opened Matrices

  ghost predicate MultipliedAt(F: Field, m: seq<Row>, i: nat, f: Row, r: seq<Row>, n: nat, j: nat)
    requires i < |m| == |f| == |r| && IsMatrix(m, |m[i]|) && j < |m|
  {
    r[j] == if j < n then AddScaled(F, m[j], m[i], f[j]) else m[j]
  }

  /** The first n rows of r are those of AddMultiples, the others those of m. */
  ghost predicate Multiplied(F: Field, m: seq<Row>, i: nat, f: Row, r: seq<Row>, n: nat) {
    && i < |m| == |f| == |r| && IsMatrix(m, |m[i]|)
    && forall j: nat {:trigger MultipliedAt(F, m, i, f, r, n, j)} :: j < |m| ==> MultipliedAt(F, m, i, f, r, n, j)
  }

  lemma MultipliedNone(F: Field, m: seq<Row>, i: nat, f: Row, n: nat)
    requires Laws(F)
    requires i < |m| == |f| && IsMatrix(m, |m[i]|) && n <= |m| && forall k :: 0 <= k < n ==> f[k] == 0
    ensures Multiplied(F, m, i, f, m, n)
  {
    forall j: nat | j < |m|
      ensures MultipliedAt(F, m, i, f, m, n, j)
    {
      AddScaledZero(F, m[j], m[i]);
    }
  }

  lemma MultipliedNext(F: Field, m: seq<Row>, i: nat, f: Row, r: seq<Row>, n: nat)
    requires Laws(F)
    requires Multiplied(F, m, i, f, r, n) && n < |m| && f[i] == 0
    ensures r[n] == m[n] && r[i] == m[i]
    ensures Multiplied(F, m, i, f, r[n := AddScaled(F, r[n], r[i], f[n])], n + 1)
  {
    assert MultipliedAt(F, m, i, f, r, n, n) && MultipliedAt(F, m, i, f, r, n, i);
    AddScaledZero(F, m[i], m[i]);
    var r', n' := r[n := AddScaled(F, r[n], r[i], f[n])], n + 1;
    forall j: nat | j < |m|
      ensures MultipliedAt(F, m, i, f, r', n', j)
    {
      assert MultipliedAt(F, m, i, f, r, n, j);
    }
  }

  lemma MultipliedAll(F: Field, m: seq<Row>, i: nat, f: Row, r: seq<Row>)
    requires Multiplied(F, m, i, f, r, |m|)
    ensures r == AddMultiples(F, m, i, f)
  {
    forall j: nat | j < |m|
      ensures r[j] == AddMultiples(F, m, i, f)[j]
    {
      assert MultipliedAt(F, m, i, f, r, |m|, j);
    }
  }
}
