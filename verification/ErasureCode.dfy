/** The erasure code as a whole: symbols that encode one block of intermediate symbols give that block back, and
    with it every encoding symbol. */
module ErasureCode {
  import opened Octets
  import opened LinearAlgebra
  import opened Elimination
  import opened Params
  import opened Options
  import opened EncodingSymbols
  import opened Fec

  /** Rows of A that do not stand for a source symbol: constraints and padding. */
  ghost predicate IsConstraint(param: Param, j: nat) {
    j < param.L && !(param.S + param.H <= j < param.S + param.H + param.K)
  }

  /** The row of a source symbol in the precomputed matrix is the one its tuple gives. */
  ghost predicate Precomputed(code: Code)
    requires ValidCoding(code)
  {
    forall i: nat :: i < code.param.K ==>
      code.repo.A[code.param.S + code.param.H + i] == SymbolRow(code.repo, code.tables, code.param, i)
  }

  ghost predicate ConstraintAt(F: Field, code: Code, C: seq<Row>, j: nat, t: nat)
    requires ValidCoding(code) && |C| == code.param.L && IsMatrix(C, code.param.T)
    requires j < code.param.L && t < code.param.T
  {
    Dot(F, code.repo.A[j], Column(C, t), code.param.L) == 0
  }

  /** The intermediate symbols C meet the constraints of the code. */
  ghost predicate IsBlock(F: Field, code: Code, C: seq<Row>)
    requires ValidCoding(code)
  {
    && |C| == code.param.L && IsMatrix(C, code.param.T)
    && forall j: nat, t: nat {:trigger ConstraintAt(F, code, C, j, t)} ::
         IsConstraint(code.param, j) && t < code.param.T ==> ConstraintAt(F, code, C, j, t)
  }

  /** The received symbols are encoding symbols of C. */
  ghost predicate Encodes(F: Field, code: Code, C: seq<Row>, r: Received)
    requires ValidCoding(code) && |C| == code.param.L && IsMatrix(C, code.param.T)
  {
    && (forall i: nat {:trigger r.src[i]} :: i < |r.src| && r.src[i].Some? ==>
          r.src[i].value == Encode(F, code.repo, code.tables, code.param, C, i))
    && (forall k: nat {:trigger r.rep[k]} :: k < |r.rep| ==>
          r.rep[k].data == Encode(F, code.repo, code.tables, code.param, C, r.rep[k].esi))
  }

  /** The row of a repair symbol holds for C. */
  lemma RepairRowHolds(F: Field, code: Code, r: Received, C: seq<Row>, x: Symbol, t: nat)
    requires Laws(F) && ValidCoding(code) && IsBlock(F, code, C) && Encodes(F, code, C, r)
    requires (exists k :: 0 <= k < |r.rep| && r.rep[k] == x) && |x.data| == code.param.T && t < code.param.T
    ensures Dot(F, SymbolRow(code.repo, code.tables, code.param, x.esi), Column(C, t), code.param.L) == x.data[t]
  {
    var k: nat :| k < |r.rep| && r.rep[k] == x;
    SymbolRowEncodes(F, code.repo, code.tables, code.param, C, x.esi, t);
  }

  /** The row of a source symbol that is there holds for C. */
  lemma SourceRowHolds(F: Field, code: Code, r: Received, C: seq<Row>, i: nat, t: nat)
    requires Laws(F) && ValidCoding(code) && IsReceived(code, r) && Precomputed(code) && IsBlock(F, code, C) && Encodes(F, code, C, r)
    requires i < code.param.K && r.src[i].Some? && t < |r.src[i].value| == code.param.T
    ensures Dot(F, code.repo.A[code.param.S + code.param.H + i], Column(C, t), code.param.L) == r.src[i].value[t]
  {
    SymbolRowEncodes(F, code.repo, code.tables, code.param, C, i, t);
  }

  /** What is in row j of the system. */
  lemma RowContents(code: Code, r: Received, j: nat)
    requires ValidCoding(code) && IsReceived(code, r) && j < code.param.L + Extra(code, r)
    ensures RepairAt(code, r, j).Some? ==>
              RowOfA(code, r, j) == SymbolRow(code.repo, code.tables, code.param, RepairAt(code, r, j).value.esi)
              && RowOfD(code, r, j) == RepairAt(code, r, j).value.data
    ensures RepairAt(code, r, j).None? ==> j < code.param.L && RowOfA(code, r, j) == code.repo.A[j]
    ensures RepairAt(code, r, j).None? && IsConstraint(code.param, j) ==> RowOfD(code, r, j) == Zeros(code.param.T)
    ensures RepairAt(code, r, j).None? && !IsConstraint(code.param, j) ==>
              j >= code.param.S + code.param.H && r.src[j - code.param.S - code.param.H] == Some(RowOfD(code, r, j))
  {
  }

  /** Each row of the system holds for C: constraints, source rows, and rows of ones at the indexes of a repair symbol. */
  lemma RowHolds(F: Field, code: Code, r: Received, C: seq<Row>, j: nat, t: nat)
    requires Laws(F) && ValidCoding(code) && IsReceived(code, r) && Precomputed(code)
    requires IsBlock(F, code, C) && Encodes(F, code, C, r) && j < code.param.L + Extra(code, r) && t < code.param.T
    ensures Dot(F, RowOfA(code, r, j), Column(C, t), code.param.L) == RowOfD(code, r, j)[t]
  {
    RowContents(code, r, j);
    if RepairAt(code, r, j).Some? {
      RepairRowHolds(F, code, r, C, RepairAt(code, r, j).value, t);
    } else if IsConstraint(code.param, j) {
      assert ConstraintAt(F, code, C, j, t);
    } else {
      SourceRowHolds(F, code, r, C, j - code.param.S - code.param.H, t);
    }
  }

  lemma BlockSolves(F: Field, code: Code, r: Received, C: seq<Row>, t: nat)
    requires Laws(F) && ValidCoding(code) && IsReceived(code, r) && Precomputed(code)
    requires IsBlock(F, code, C) && Encodes(F, code, C, r) && t < code.param.T
    ensures Solves(F, BuiltA(code, r), Column(BuiltD(code, r), t), Column(C, t))
  {
    var a, d := BuiltA(code, r), BuiltD(code, r);
    forall j | 0 <= j < |a|
      ensures Dot(F, a[j], Column(C, t), code.param.L) == Column(d, t)[j]
    {
      RowHolds(F, code, r, C, j, t);
    }
  }

  /** Decoding gives back the block that was encoded, whichever symbols arrived. */
  lemma DecodedBlock(F: Field, code: Code, r: Received, C: seq<Row>, rows: seq<Row>)
    requires Laws(F) && ValidCoding(code) && IsReceived(code, r) && Precomputed(code)
    requires IsBlock(F, code, C) && Encodes(F, code, C, r) && Decodes(F, code, r, true, rows)
    ensures rows == C
  {
    var L, T := code.param.L, code.param.T;
    forall t: nat | t < T
      ensures Column(rows, t) == Column(C, t)
    {
      BlockSolves(F, code, r, C, t);
    }
    forall y: nat | y < L
      ensures rows[y] == C[y]
    {
      forall t: nat | t < T
        ensures rows[y][t] == C[y][t]
      {
        assert Column(rows, t)[y] == Column(C, t)[y];
      }
    }
  }

  lemma {:induction false} DotCommutes(F: Field, a: Row, v: Row, n: nat)
    requires Laws(F) && n <= |a| && n <= |v|
    ensures Dot(F, a, v, n) == Dot(F, v, a, n)
  {
    if n > 0 {
      DotCommutes(F, a, v, n - 1);
      MulLaws(F, a[n - 1], v[n - 1], 0);
    }
  }

  /** A scalar product with a sum of vectors. */
  lemma DotSum(F: Field, a: Row, v: Row, w: Row, n: nat)
    requires Laws(F) && n <= |a| && n <= |v| == |w|
    ensures Dot(F, a, AddScaled(F, v, w, 1), n) == Add(F, Dot(F, a, v, n), Dot(F, a, w, n))
  {
    DotCommutes(F, a, AddScaled(F, v, w, 1), n);
    DotAddScaled(F, v, w, 1, a, n);
    DotCommutes(F, a, v, n);
    DotCommutes(F, a, w, n);
    MulUnits(F, Dot(F, w, a, n));
  }

  /** The difference of two solutions is in the kernel. */
  lemma SolutionsAgree(F: Field, A: seq<Row>, d: Row, v: Row, w: Row, n: nat)
    requires Laws(F) && |v| == |w| == n && Solves(F, A, d, v) && Solves(F, A, d, w) && TrivialKernel(F, A, n)
    ensures v == w
  {
    var z := AddScaled(F, v, w, 1);
    forall j | 0 <= j < |A|
      ensures Dot(F, A[j], z, n) == 0
    {
      DotSum(F, A[j], v, w, n);
      AddCancels(F, d[j], d[j]);
    }
    assert Solves(F, A, Zeros(|A|), z);
    forall k | 0 <= k < n
      ensures v[k] == w[k]
    {
      assert z[k] == 0;
      MulUnits(F, w[k]);
      AddCancels(F, v[k], w[k]);
    }
  }

  /** C with v added to the first octet column. */
  ghost function Shifted(F: Field, C: seq<Row>, v: Row): (r: seq<Row>)
    requires |C| == |v| && forall y :: 0 <= y < |C| ==> |C[y]| > 0
    ensures |r| == |C| && forall y {:trigger r[y]} :: 0 <= y < |C| ==> r[y] == C[y][0 := Add(F, C[y][0], v[y])]
  {
    seq(|C|, y requires 0 <= y < |C| => C[y][0 := Add(F, C[y][0], v[y])])
  }

  lemma ShiftedDot(F: Field, C: seq<Row>, v: Row, a: Row, L: nat, T: nat, t: nat)
    requires Laws(F) && |C| == |v| == |a| == L && IsMatrix(C, T) && t < T && Dot(F, a, v, L) == 0
    ensures IsMatrix(Shifted(F, C, v), T)
    ensures Dot(F, a, Column(Shifted(F, C, v), t), L) == Dot(F, a, Column(C, t), L)
  {
    if t == 0 {
      forall y | 0 <= y < L
        ensures Column(Shifted(F, C, v), 0)[y] == AddScaled(F, Column(C, 0), v, 1)[y]
      {
        MulUnits(F, v[y]);
      }
      assert Column(Shifted(F, C, v), 0) == AddScaled(F, Column(C, 0), v, 1);
      DotSum(F, a, Column(C, 0), v, L);
      AddLaws(F, Dot(F, a, Column(C, 0), L), 0, 0);
    } else {
      assert Column(Shifted(F, C, v), t) == Column(C, t);
    }
  }

  /** An encoding symbol whose row is orthogonal to v is the same for the shifted block. */
  lemma ShiftedEncode(F: Field, code: Code, C: seq<Row>, v: Row, esi: nat)
    requires Laws(F) && ValidCoding(code) && |C| == code.param.L == |v| && IsMatrix(C, code.param.T) && code.param.T > 0
    requires Dot(F, SymbolRow(code.repo, code.tables, code.param, esi), v, code.param.L) == 0
    ensures IsMatrix(Shifted(F, C, v), code.param.T)
    ensures Encode(F, code.repo, code.tables, code.param, Shifted(F, C, v), esi) == Encode(F, code.repo, code.tables, code.param, C, esi)
  {
    var e', e := Encode(F, code.repo, code.tables, code.param, Shifted(F, C, v), esi), Encode(F, code.repo, code.tables, code.param, C, esi);
    forall t: nat | t < code.param.T
      ensures e'[t] == e[t]
    {
      ShiftedDot(F, C, v, SymbolRow(code.repo, code.tables, code.param, esi), code.param.L, code.param.T, t);
      SymbolRowEncodes(F, code.repo, code.tables, code.param, Shifted(F, C, v), esi, t);
      SymbolRowEncodes(F, code.repo, code.tables, code.param, C, esi, t);
    }
  }

  /** A kernel vector is orthogonal to every row of the system. */
  lemma KernelAtRow(F: Field, code: Code, r: Received, v: Row, j: nat)
    requires ValidCoding(code) && IsReceived(code, r) && |v| == code.param.L && j < code.param.L + Extra(code, r)
    requires Solves(F, BuiltA(code, r), Zeros(|BuiltA(code, r)|), v)
    ensures Dot(F, RowOfA(code, r, j), v, code.param.L) == 0
  {
    var a := BuiltA(code, r);
    assert a[j] == RowOfA(code, r, j);
  }

  /** It is orthogonal to the row of every received symbol. */
  lemma KernelAtSource(F: Field, code: Code, r: Received, v: Row, i: nat)
    requires ValidCoding(code) && IsReceived(code, r) && Precomputed(code) && |v| == code.param.L
    requires Solves(F, BuiltA(code, r), Zeros(|BuiltA(code, r)|), v) && i < code.param.K && r.src[i].Some?
    ensures Dot(F, SymbolRow(code.repo, code.tables, code.param, i), v, code.param.L) == 0
  {
    var j := code.param.S + code.param.H + i;
    KernelAtRow(F, code, r, v, j);
    SourceRowOfA(code, r, i);
  }

  lemma SourceRowOfA(code: Code, r: Received, i: nat)
    requires ValidCoding(code) && IsReceived(code, r) && Precomputed(code) && i < code.param.K && r.src[i].Some?
    ensures RowOfA(code, r, code.param.S + code.param.H + i) == SymbolRow(code.repo, code.tables, code.param, i)
  {
    SourceIsNotRepair(code, r, i, code.param.S + code.param.H + i);
  }

  lemma KernelAtRepair(F: Field, code: Code, r: Received, v: Row, k: nat)
    requires ValidCoding(code) && IsReceived(code, r) && |v| == code.param.L
    requires Solves(F, BuiltA(code, r), Zeros(|BuiltA(code, r)|), v) && k < |r.rep|
    ensures Dot(F, SymbolRow(code.repo, code.tables, code.param, r.rep[k].esi), v, code.param.L) == 0
  {
    var j := RowOfRepair(code, r, k);
    KernelAtRow(F, code, r, v, j);
  }

  lemma KernelAtConstraint(F: Field, code: Code, r: Received, v: Row, j: nat)
    requires ValidCoding(code) && IsReceived(code, r) && |v| == code.param.L
    requires Solves(F, BuiltA(code, r), Zeros(|BuiltA(code, r)|), v) && IsConstraint(code.param, j)
    ensures Dot(F, code.repo.A[j], v, code.param.L) == 0
  {
    RowContents(code, r, j);
    KernelAtRow(F, code, r, v, j);
  }

  /** A kernel vector turns the block into another one with the same received symbols. */
  lemma ShiftedBlock(F: Field, code: Code, r: Received, C: seq<Row>, v: Row)
    requires Laws(F) && ValidCoding(code) && IsReceived(code, r) && Precomputed(code) && code.param.T > 0
    requires IsBlock(F, code, C) && Encodes(F, code, C, r)
    requires |v| == code.param.L && Solves(F, BuiltA(code, r), Zeros(|BuiltA(code, r)|), v)
    ensures IsBlock(F, code, Shifted(F, C, v)) && Encodes(F, code, Shifted(F, C, v), r)
  {
    var C' := Shifted(F, C, v);
    forall j: nat, t: nat | IsConstraint(code.param, j) && t < code.param.T
      ensures ConstraintAt(F, code, C', j, t)
    {
      KernelAtConstraint(F, code, r, v, j);
      ShiftedDot(F, C, v, code.repo.A[j], code.param.L, code.param.T, t);
      assert ConstraintAt(F, code, C, j, t);
    }
    forall i: nat | i < |r.src| && r.src[i].Some?
      ensures r.src[i].value == Encode(F, code.repo, code.tables, code.param, C', i)
    {
      KernelAtSource(F, code, r, v, i);
      ShiftedEncode(F, code, C, v, i);
    }
    forall k: nat | k < |r.rep|
      ensures r.rep[k].data == Encode(F, code.repo, code.tables, code.param, C', r.rep[k].esi)
    {
      KernelAtRepair(F, code, r, v, k);
      ShiftedEncode(F, code, C, v, r.rep[k].esi);
    }
  }

  /** Two blocks with the same received symbols are equal when the kernel is trivial. */
  lemma BlocksAgree(F: Field, code: Code, r: Received, C: seq<Row>, C': seq<Row>)
    requires Laws(F) && ValidCoding(code) && IsReceived(code, r) && Precomputed(code)
    requires IsBlock(F, code, C) && Encodes(F, code, C, r) && IsBlock(F, code, C') && Encodes(F, code, C', r)
    requires TrivialKernel(F, BuiltA(code, r), code.param.L)
    ensures C == C'
  {
    forall t: nat | t < code.param.T
      ensures Column(C, t) == Column(C', t)
    {
      BlockSolves(F, code, r, C, t);
      BlockSolves(F, code, r, C', t);
      SolutionsAgree(F, BuiltA(code, r), Column(BuiltD(code, r), t), Column(C, t), Column(C', t), code.param.L);
    }
    forall y: nat | y < code.param.L
      ensures C[y] == C'[y]
    {
      forall t: nat | t < code.param.T
        ensures C[y][t] == C'[y][t]
      {
        assert Column(C, t)[y] == Column(C', t)[y];
      }
    }
  }

  ghost predicate BlockOf(F: Field, code: Code, C: seq<Row>, r: Received)
    requires ValidCoding(code)
  {
    IsBlock(F, code, C) && Encodes(F, code, C, r)
  }

  /** TryDecode succeeds exactly when the received symbols determine the block: when it gives up, some other block
      has the same symbols at every number that arrived. */
  lemma DecodableIffDetermined(F: Field, code: Code, r: Received, C: seq<Row>)
    requires Laws(F) && ValidCoding(code) && IsReceived(code, r) && Precomputed(code) && code.param.T > 0
    requires BlockOf(F, code, C, r)
    ensures TrivialKernel(F, BuiltA(code, r), code.param.L)
       <==> forall C' {:trigger BlockOf(F, code, C', r)} :: BlockOf(F, code, C', r) ==> C' == C
  {
    var a, L := BuiltA(code, r), code.param.L;
    if TrivialKernel(F, a, L) {
      forall C' | BlockOf(F, code, C', r)
        ensures C' == C
      {
        BlocksAgree(F, code, r, C, C');
      }
    } else {
      var v: Row :| |v| == L && Solves(F, a, Zeros(|a|), v) && v != Zeros(L);
      ShiftedBlock(F, code, r, C, v);
      assert BlockOf(F, code, Shifted(F, C, v), r);
      ShiftedDiffers(F, C, v);
    }
  }

  lemma ShiftedDiffers(F: Field, C: seq<Row>, v: Row)
    requires Laws(F) && |C| == |v| && v != Zeros(|v|) && forall y :: 0 <= y < |C| ==> |C[y]| > 0
    ensures Shifted(F, C, v) != C
  {
    var y :| 0 <= y < |v| && v[y] != 0;
    var x := C[y][0];
    AddLaws(F, x, x, v[y]);
    AddLaws(F, v[y], 0, 0);
    assert Shifted(F, C, v)[y][0] == Add(F, x, v[y]);
  }

  lemma DecodeOutcome(F: Field, code: Code, r: Received, C: seq<Row>, success: bool, rows: seq<Row>)
    requires Laws(F) && ValidCoding(code) && IsReceived(code, r) && Precomputed(code)
    requires IsBlock(F, code, C) && Encodes(F, code, C, r) && Decodes(F, code, r, success, rows)
    ensures success ==> rows == C
    ensures code.param.T > 0 ==> (success <==> forall C' {:trigger BlockOf(F, code, C', r)} :: BlockOf(F, code, C', r) ==> C' == C)
  {
    if success {
      DecodedBlock(F, code, r, C, rows);
    }
    if code.param.T > 0 {
      DecodableIffDetermined(F, code, r, C);
    }
  }

  /** Decodes from an array of symbols and recovers the symbol with a given number; it fails only when another block has
      the same symbols. */
  method DecodeAndRecover(F: Field, code: Code, symbols: seq<Option<Row>>, validSymbolNum: nat, esi: nat, data: array<Octet>,
                          ghost C: seq<Row>)
    returns (success: bool)
    requires Laws(F) && ValidCoding(code) && Precomputed(code) && IsArray(code, symbols)
    requires validSymbolNum == |Repairs(symbols, 0, |symbols|)| && data.Length == code.param.T
    requires IsBlock(F, code, C) && Encodes(F, code, C, FromArray(symbols, code.param.K))
    modifies data
    ensures success ==> data[..] == Encode(F, code.repo, code.tables, code.param, C, esi)
    ensures data.Length > 0 ==>
              (success <==> forall C' {:trigger BlockOf(F, code, C', FromArray(symbols, code.param.K))} ::
                 BlockOf(F, code, C', FromArray(symbols, code.param.K)) ==> C' == C)
  {
    var D;
    success, D := TryDecode(F, code, symbols, validSymbolNum);
    DecodeOutcome(F, code, FromArray(symbols, code.param.K), C, success, D.rows);
    if success {
      RecoverSymbol(F, code.repo, code.tables, code.param, D, esi, data);
    }
  }
}
