/** Encoding symbols as sums of intermediate symbols (src/fast_fec.cpp, lines 276-284, 462-484, 571-593), and the
    matrix rows that stand for them. */
module EncodingSymbols {
  import opened Octets
  import opened LinearAlgebra
  import opened Matrices
  import opened Params
  import opened Tuples

  /** The precomputed data of a code: the matrix A and the cached index lists, by internal symbol id. */
  datatype Repo = Repo(A: seq<Row>, cache: map<nat, seq<nat>>)

  /** The cached lists are proper index lists; the sizes fit together. */
  ghost predicate ValidRepo(repo: Repo, tables: RandTables, param: Param) {
    && tables.Valid() && ValidCode(param)
    && |repo.A| == param.L == param.S + param.H + param.KP && IsMatrix(repo.A, param.L) && 1 <= param.K <= param.KP
    && (forall isi :: isi in repo.cache ==> IsIndexList(param.L, repo.cache[isi]))
  }

  /** The intermediate symbols that make up the symbol with internal id isi. */
  ghost function SymbolIndexes(repo: Repo, tables: RandTables, param: Param, isi: nat): (s: seq<nat>)
    requires ValidRepo(repo, tables, param)
    ensures IsIndexList(param.L, s)
  {
    if isi in repo.cache then repo.cache[isi] else
    StandardTupleIsValid(tables, param, isi);
    TupleIndexesDistinct(param, StandardTuple(tables, param, isi));
    TupleIndexes(param, StandardTuple(tables, param, isi))
  }

  /** The indexes from the cache, or generated. */
  method GetIntermediateSymbolIdx(repo: Repo, tables: RandTables, param: Param, isi: nat) returns (idxes: seq<nat>)
    requires ValidRepo(repo, tables, param)
    ensures idxes == SymbolIndexes(repo, tables, param, isi)
  {
    if isi in repo.cache {
      idxes := repo.cache[isi];
    } else {
      var tuple := GenTuple(tables, param, isi);
      var idxesBuf := new nat[256];
      var numOfIdxes := GetIntermediateSymbolIdxFromTuple(param, tuple, idxesBuf);
      idxes := idxesBuf[..numOfIdxes];
    }
  }

  /** The matrix row with ones at the given columns. */
  ghost function Indicator(L: nat, s: seq<nat>): (r: Row)
    ensures |r| == L
    ensures forall q {:trigger r[q]} :: 0 <= q < L ==> r[q] == if q in s then 1 else 0
  {
    seq(L, q => if q in s then 1 else 0)
  }

  /** The sum of the entries of v at the given indexes. */
  function SumAt(F: Field, v: Row, s: seq<nat>): Octet
    requires forall k :: 0 <= k < |s| ==> s[k] < |v|
  {
    if s == [] then 0 else Add(F, SumAt(F, v, s[..|s| - 1]), v[s[|s| - 1]])
  }

  /** Setting ones in a zero row agrees with adding up symbols, because no index occurs twice. */
  lemma {:induction false} IndicatorDot(F: Field, L: nat, s: seq<nat>, v: Row)
    requires Laws(F)
    requires |v| == L && (forall k :: 0 <= k < |s| ==> s[k] < L) && (forall j, k :: 0 <= j < k < |s| ==> s[j] != s[k])
    ensures Dot(F, Indicator(L, s), v, L) == SumAt(F, v, s)
    decreases |s|
  {
    if s == [] {
      DotExtend(F, Indicator(L, s), v, 0, L);
    } else {
      var s', x := s[..|s| - 1], s[|s| - 1];
      IndicatorDot(F, L, s', v);
      assert x !in s';
      DotSetOne(F, Indicator(L, s'), Indicator(L, s), v, x, L);
    }
  }

  lemma {:induction false} DotSetOne(F: Field, a: Row, b: Row, v: Row, x: nat, n: nat)
    requires Laws(F)
    requires n <= |a| == |b| == |v| && x < |a| && a[x] == 0 && b[x] == 1
    requires forall k :: 0 <= k < |a| && k != x ==> a[k] == b[k]
    ensures Dot(F, b, v, n) == if x < n then Add(F, Dot(F, a, v, n), v[x]) else Dot(F, a, v, n)
  {
    if n > 0 {
      DotSetOne(F, a, b, v, x, n - 1);
      var s, y := Dot(F, a, v, n - 1), Mul(F, a[n - 1], v[n - 1]);
      if x == n - 1 {
        MulUnits(F, v[x]);
        AddLaws(F, s, 0, 0);
      } else if x < n - 1 {
        AddLaws(F, s, v[x], y);
        AddLaws(F, v[x], y, 0);
        AddLaws(F, s, y, v[x]);
      }
    }
  }

  /** The sum of the symbols at the given indexes. */
  function SumSymbols(F: Field, symbols: seq<Row>, s: seq<nat>, T: nat): (r: Row)
    requires IsMatrix(symbols, T) && forall k :: 0 <= k < |s| ==> s[k] < |symbols|
    ensures |r| == T
  {
    if s == [] then Zeros(T) else AddScaled(F, SumSymbols(F, symbols, s[..|s| - 1], T), symbols[s[|s| - 1]], 1)
  }

  lemma {:induction false} SumSymbolsAt(F: Field, symbols: seq<Row>, s: seq<nat>, T: nat, t: nat)
    requires Laws(F)
    requires IsMatrix(symbols, T) && (forall k :: 0 <= k < |s| ==> s[k] < |symbols|) && t < T
    ensures SumSymbols(F, symbols, s, T)[t] == SumAt(F, Column(symbols, t), s)
    decreases |s|
  {
    if s != [] {
      SumSymbolsAt(F, symbols, s[..|s| - 1], T, t);
      MulUnits(F, symbols[s[|s| - 1]][t]);
    }
  }

  /** The encoding symbol with a given id, made from the intermediate symbols C. */
  ghost function Encode(F: Field, repo: Repo, tables: RandTables, param: Param, C: seq<Row>, esi: nat): Row
    requires ValidRepo(repo, tables, param) && |C| == param.L && IsMatrix(C, param.T)
  {
    SumSymbols(F, C, SymbolIndexes(repo, tables, param, param.ESIToISI(esi)), param.T)
  }

  /** The row of A that stands for the symbol with a given id. */
  ghost function SymbolRow(repo: Repo, tables: RandTables, param: Param, esi: nat): Row
    requires ValidRepo(repo, tables, param)
  {
    Indicator(param.L, SymbolIndexes(repo, tables, param, param.ESIToISI(esi)))
  }

  /** The row of a symbol, as an equation: its product with the intermediate symbols is the encoding symbol. */
  lemma SymbolRowEncodes(F: Field, repo: Repo, tables: RandTables, param: Param, C: seq<Row>, esi: nat, t: nat)
    requires Laws(F)
    requires ValidRepo(repo, tables, param) && |C| == param.L && IsMatrix(C, param.T) && t < param.T
    ensures Dot(F, SymbolRow(repo, tables, param, esi), Column(C, t), param.L) == Encode(F, repo, tables, param, C, esi)[t]
  {
    var s := SymbolIndexes(repo, tables, param, param.ESIToISI(esi));
    IndicatorDot(F, param.L, s, Column(C, t));
    SumSymbolsAt(F, C, s, param.T, t);
  }

  lemma {:induction false} IndicatorNext(L: nat, s: seq<nat>, c: nat)
    requires c < |s| && s[c] < L
    ensures Indicator(L, s[..c])[s[c] := 1] == Indicator(L, s[..c + 1])
  {
    assert s[..c + 1] == s[..c] + [s[c]];
  }

  /** Sets ones at the given columns of a zero row. */
  method SetOnes(A: Matrix, row: nat, s: seq<nat>)
    requires A.Valid() && row < |A.rows| && A.rows[row] == Zeros(A.colNum) && forall k :: 0 <= k < |s| ==> s[k] < A.colNum
    modifies A`rows, A.data
    ensures A.Valid() && A.rows == old(A.rows)[row := Indicator(A.colNum, s)]
  {
    assert A.rows[row] == Indicator(A.colNum, s[..0]);
    for c := 0 to |s|
      invariant A.Valid() && A.rows == old(A.rows)[row := Indicator(A.colNum, s[..c])]
    {
      IndicatorNext(A.colNum, s, c);
      A.SetOne(row, s[c]);
    }
    assert s[..|s|] == s;
  }

  /** Turns a zero row of A into the row of the symbol with the given id. */
  method SetSymbolRow(repo: Repo, tables: RandTables, param: Param, A: Matrix, row: nat, esi: nat)
    requires ValidRepo(repo, tables, param) && A.Valid() && A.colNum == param.L
    requires row < |A.rows| && A.rows[row] == Zeros(A.colNum)
    modifies A`rows, A.data
    ensures A.Valid() && A.rows == old(A.rows)[row := SymbolRow(repo, tables, param, esi)]
  {
    var idxes := GetIntermediateSymbolIdx(repo, tables, param, param.ESIToISI(esi));
    SetOnes(A, row, idxes);
  }

  /** Sums the symbols of the given id into data: the first is copied, the others are added. */
  method RecoverSymbol(F: Field, repo: Repo, tables: RandTables, param: Param, D: Matrix, esi: nat, data: array<Octet>)
    requires Laws(F)
    requires ValidRepo(repo, tables, param) && D.Valid() && |D.rows| == param.L && D.colNum == param.T == data.Length
    requires data as object !in D.Footprint()
    modifies data
    ensures data[..] == Encode(F, repo, tables, param, D.rows, esi)
    ensures esi < param.K ==> data[..] == SumSymbols(F, D.rows, SymbolIndexes(repo, tables, param, esi), param.T)
    ensures esi >= param.K ==> data[..] == SumSymbols(F, D.rows, SymbolIndexes(repo, tables, param, param.KP + (esi - param.K)), param.T)
  {
    var s := GetIntermediateSymbolIdx(repo, tables, param, param.ESIToISI(esi));
    SumInto(F, D, s, data);
  }

  /** data := the sum of the symbols of D with the given indexes. */
  method SumInto(F: Field, D: Matrix, s: seq<nat>, data: array<Octet>)
    requires Laws(F)
    requires D.Valid() && D.colNum == data.Length && data as object !in D.Footprint()
    requires s != [] && forall k :: 0 <= k < |s| ==> s[k] < |D.rows|
    modifies data
    ensures data[..] == SumSymbols(F, D.rows, s, D.colNum)
  {
    CopySymbol(F, D, s, data);
    for c := 1 to |s|
      invariant D.Valid()
      invariant data[..] == SumSymbols(F, D.rows, s[..c], D.colNum)
    {
      AddSymbol(F, D, s[c], data);
      assert s[..c + 1][..c] == s[..c];
    }
    assert s[..|s|] == s;
  }

  /** data := the symbol with index s[0], which is the sum of the symbols s[..1]. */
  method CopySymbol(F: Field, D: Matrix, s: seq<nat>, data: array<Octet>)
    requires Laws(F)
    requires D.Valid() && D.colNum == data.Length && data as object !in D.Footprint()
    requires s != [] && forall k :: 0 <= k < |s| ==> s[k] < |D.rows|
    modifies data
    ensures data[..] == SumSymbols(F, D.rows, s[..1], D.colNum)
  {
    ghost var row := D.rows[s[0]];
    for k := 0 to data.Length
      invariant D.Valid()
      invariant forall q :: 0 <= q < k ==> data[q] == row[q]
    {
      data[k] := D.GetAt(s[0], k);
    }
    ghost var sum := AddScaled(F, Zeros(D.colNum), row, 1);
    assert s[..1][..0] == [];
    forall q | 0 <= q < data.Length
      ensures data[q] == sum[q]
    {
      MulUnits(F, row[q]);
      AddLaws(F, 0, row[q], 0);
      AddLaws(F, row[q], 0, 0);
    }
    assert data[..] == sum;
  }

  /** data := data + symbol x. */
  method AddSymbol(F: Field, D: Matrix, x: nat, data: array<Octet>)
    requires Laws(F)
    requires D.Valid() && D.colNum == data.Length && data as object !in D.Footprint() && x < |D.rows|
    modifies data
    ensures data[..] == AddScaled(F, old(data[..]), D.rows[x], 1)
  {
    ghost var sum := AddScaled(F, data[..], D.rows[x], 1);
    for k := 0 to data.Length
      invariant D.Valid()
      invariant forall q :: 0 <= q < data.Length ==> data[q] == if q < k then sum[q] else old(data[q])
    {
      var v := D.GetAt(x, k);
      MulUnits(F, v);
      data[k] := Add(F, data[k], v);
    }
    assert data[..] == sum;
  }
}
