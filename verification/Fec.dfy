/** Decoding from received symbols (src/fast_fec.cpp, lines 170-456): how both forms of TryDecode lay the symbols
    out as a linear system, and what follows for the symbols recovered from its solution. */
module Fec {
  import opened Octets
  import opened LinearAlgebra
  import opened Matrices
  import opened Elimination
  import opened FirstPhase
  import opened Decoder
  import opened Params
  import opened Options
  import opened Tuples
  import opened EncodingSymbols

  datatype Code = Code(repo: Repo, tables: RandTables, param: Param)

  datatype Symbol = Symbol(esi: nat, data: Row)

  /** What was received: the source symbols by number, and the repair symbols in the order of their numbers. */
  datatype Received = Received(src: seq<Option<Row>>, rep: seq<Symbol>)

  ghost predicate ValidCoding(code: Code) {
    ValidRepo(code.repo, code.tables, code.param) && ValidSizes(code.param)
  }

  /** How many of the first i source symbols are missing. */
  function Missing(src: seq<Option<Row>>, i: nat): (n: nat)
    requires i <= |src|
    ensures n <= i
  {
    if i == 0 then 0 else Missing(src, i - 1) + if src[i - 1].None? then 1 else 0
  }

  lemma {:induction false} MissingMonotone(src: seq<Option<Row>>, i: nat, j: nat)
    requires i <= j <= |src|
    ensures Missing(src, i) <= Missing(src, j)
  {
    if i < j {
      MissingMonotone(src, i, j - 1);
    }
  }

  /** All symbols that are there have T octets. */
  ghost predicate SizedSymbols(symbols: seq<Option<Row>>, T: nat) {
    forall k :: 0 <= k < |symbols| && symbols[k].Some? ==> |symbols[k].value| == T
  }

  ghost predicate SizedRepairs(rep: seq<Symbol>, T: nat) {
    forall k :: 0 <= k < |rep| ==> |rep[k].data| == T
  }

  /** There are K source symbols, and enough repair symbols for those that are missing. */
  ghost predicate IsReceived(code: Code, r: Received) {
    && |r.src| == code.param.K && Missing(r.src, code.param.K) <= |r.rep|
    && SizedSymbols(r.src, code.param.T) && SizedRepairs(r.rep, code.param.T)
  }

  /** How many rows the system has beyond L. */
  ghost function Extra(code: Code, r: Received): nat
    requires IsReceived(code, r)
  {
    |r.rep| - Missing(r.src, code.param.K)
  }

  /** The repair symbol in row j: repair symbols first replace the missing source symbols in order, and the
      others follow after row L. */
  ghost function RepairAt(code: Code, r: Received, j: nat): (x: Option<Symbol>)
    requires ValidCoding(code) && IsReceived(code, r)
    ensures x.Some? ==> |x.value.data| == code.param.T
    ensures x.Some? ==> exists k :: 0 <= k < |r.rep| && r.rep[k] == x.value
  {
    var p, top := code.param, code.param.S + code.param.H;
    if top <= j < top + p.K && r.src[j - top].None? then
      MissingMonotone(r.src, j - top + 1, p.K);
      Some(r.rep[Missing(r.src, j - top)])
    else if p.L <= j < p.L + Extra(code, r) then
      Some(r.rep[Missing(r.src, p.K) + (j - p.L)])
    else None
  }

  /** Row j of the matrix: the row of the repair symbol there, or else the precomputed row. */
  ghost function RowOfA(code: Code, r: Received, j: nat): (row: Row)
    requires ValidCoding(code) && IsReceived(code, r) && j < code.param.L + Extra(code, r)
    ensures |row| == code.param.L
  {
    match RepairAt(code, r, j)
    case Some(x) => SymbolRow(code.repo, code.tables, code.param, x.esi)
    case None => code.repo.A[j]
  }

  /** Row j of the right-hand sides: the symbol there, or zeros for the constraint and padding rows. */
  ghost function RowOfD(code: Code, r: Received, j: nat): (row: Row)
    requires ValidCoding(code) && IsReceived(code, r) && j < code.param.L + Extra(code, r)
    ensures |row| == code.param.T
  {
    var top := code.param.S + code.param.H;
    match RepairAt(code, r, j)
    case Some(x) => x.data
    case None => if top <= j < top + code.param.K then r.src[j - top].value else Zeros(code.param.T)
  }

  ghost function BuiltA(code: Code, r: Received): (a: seq<Row>)
    requires ValidCoding(code) && IsReceived(code, r)
    ensures |a| == code.param.L + Extra(code, r) && IsMatrix(a, code.param.L)
  {
    seq(code.param.L + Extra(code, r), j requires 0 <= j < code.param.L + Extra(code, r) => RowOfA(code, r, j))
  }

  ghost function BuiltD(code: Code, r: Received): (d: seq<Row>)
    requires ValidCoding(code) && IsReceived(code, r)
    ensures |d| == code.param.L + Extra(code, r) && IsMatrix(d, code.param.T)
  {
    seq(code.param.L + Extra(code, r), j requires 0 <= j < code.param.L + Extra(code, r) => RowOfD(code, r, j))
  }

  /** Row j before any symbol is placed. */
  ghost function InitialRow(code: Code, j: nat): Row
    requires ValidCoding(code)
  {
    if j < code.param.L then code.repo.A[j] else Zeros(code.param.L)
  }

  ghost predicate FilledAt(code: Code, r: Received, a: seq<Row>, d: seq<Row>, m: nat, j: nat)
    requires ValidCoding(code) && IsReceived(code, r) && |a| == |d| == code.param.L + Extra(code, r) && j < |a|
  {
    && (j < m ==> a[j] == RowOfA(code, r, j) && d[j] == RowOfD(code, r, j))
    && (j >= m ==> a[j] == InitialRow(code, j))
  }

  /** The first m rows are in place, and the others of A as they were. */
  ghost predicate Filled(code: Code, r: Received, a: seq<Row>, d: seq<Row>, m: nat)
    requires ValidCoding(code) && IsReceived(code, r)
  {
    && |a| == |d| == code.param.L + Extra(code, r)
    && forall j: nat {:trigger FilledAt(code, r, a, d, m, j)} :: j < |a| ==> FilledAt(code, r, a, d, m, j)
  }

  lemma FilledNext(code: Code, r: Received, a: seq<Row>, d: seq<Row>, m: nat, a': seq<Row>, d': seq<Row>)
    requires ValidCoding(code) && IsReceived(code, r) && Filled(code, r, a, d, m) && m < |a|
    requires a' == a[m := RowOfA(code, r, m)] && d' == d[m := RowOfD(code, r, m)]
    ensures Filled(code, r, a', d', m + 1)
  {
    var n := m + 1;
    forall j: nat | j < |a|
      ensures FilledAt(code, r, a', d', n, j)
    {
      assert FilledAt(code, r, a, d, m, j);
      FilledNextAt(code, r, a, d, m, a', d', n, j);
    }
  }

  lemma FilledNextAt(code: Code, r: Received, a: seq<Row>, d: seq<Row>, m: nat, a': seq<Row>, d': seq<Row>, n: nat, j: nat)
    requires ValidCoding(code) && IsReceived(code, r) && |a| == |d| == code.param.L + Extra(code, r) && m < |a| && j < |a| && n == m + 1
    requires FilledAt(code, r, a, d, m, j) && a' == a[m := RowOfA(code, r, m)] && d' == d[m := RowOfD(code, r, m)]
    ensures FilledAt(code, r, a', d', n, j)
  {
  }

  lemma SourceIsNotRepair(code: Code, r: Received, i: nat, j: nat)
    requires ValidCoding(code) && IsReceived(code, r) && i < code.param.K && r.src[i].Some? && j == code.param.S + code.param.H + i
    ensures j < code.param.L && RepairAt(code, r, j) == None
  {
  }

  lemma FilledPresent(code: Code, r: Received, a: seq<Row>, d: seq<Row>, i: nat, m: nat, data: Row)
    requires ValidCoding(code) && IsReceived(code, r) && i < code.param.K && r.src[i] == Some(data)
    requires Filled(code, r, a, d, m) && m == code.param.S + code.param.H + i
    ensures m < |d| && Filled(code, r, a, d[m := data], m + 1)
  {
    assert FilledAt(code, r, a, d, m, m);
    PresentRow(code, r, i, m, data);
    FilledNext(code, r, a, d, m, a, d[m := data]);
  }

  lemma PresentRow(code: Code, r: Received, i: nat, m: nat, data: Row)
    requires ValidCoding(code) && IsReceived(code, r) && i < code.param.K && r.src[i] == Some(data) && m == code.param.S + code.param.H + i
    ensures m < code.param.L && RowOfA(code, r, m) == InitialRow(code, m) && RowOfD(code, r, m) == data
  {
    SourceIsNotRepair(code, r, i, m);
  }

  lemma FilledZero(code: Code, r: Received, a: seq<Row>, d: seq<Row>, m: nat)
    requires ValidCoding(code) && IsReceived(code, r) && Filled(code, r, a, d, m)
    requires m < code.param.S + code.param.H || code.param.S + code.param.H + code.param.K <= m < code.param.L
    ensures Filled(code, r, a, d[m := Zeros(code.param.T)], m + 1)
  {
    assert FilledAt(code, r, a, d, m, m);
    FilledNext(code, r, a, d, m, a, d[m := Zeros(code.param.T)]);
  }

  /** The number of the repair symbol that goes into row m, which has one. */
  ghost function RepairNumber(code: Code, r: Received, m: nat): (k: nat)
    requires IsReceived(code, r) && code.param.S + code.param.H + code.param.K <= code.param.L
    requires code.param.S + code.param.H <= m && (m < code.param.S + code.param.H + code.param.K || code.param.L <= m)
    ensures m < code.param.L ==> k == Missing(r.src, m - code.param.S - code.param.H)
    ensures m >= code.param.L ==> k == Missing(r.src, code.param.K) + (m - code.param.L)
  {
    if m < code.param.L then Missing(r.src, m - code.param.S - code.param.H) else Missing(r.src, code.param.K) + (m - code.param.L)
  }

  /** Row m holds a repair symbol. */
  ghost predicate IsRepairRow(code: Code, r: Received, m: nat)
    requires ValidCoding(code) && IsReceived(code, r)
    ensures IsRepairRow(code, r, m) ==> code.param.S + code.param.H <= m && (m < code.param.S + code.param.H + code.param.K || code.param.L <= m)
  {
    RepairAt(code, r, m).Some?
  }

  /** Further down are later repair symbols: no symbol is in two rows. */
  lemma RepairRowsInOrder(code: Code, r: Received, m: nat, n: nat)
    requires ValidCoding(code) && IsReceived(code, r) && IsRepairRow(code, r, m) && IsRepairRow(code, r, n)
    ensures RepairNumber(code, r, m) < |r.rep| && RepairAt(code, r, m) == Some(r.rep[RepairNumber(code, r, m)])
    ensures m < n ==> RepairNumber(code, r, m) < RepairNumber(code, r, n)
  {
    var top, K := code.param.S + code.param.H, code.param.K;
    if m < code.param.L {
      MissingMonotone(r.src, m - top + 1, K);
      if m < n < code.param.L {
        MissingMonotone(r.src, m - top + 1, n - top);
      }
    }
  }

  /** Every repair symbol is in exactly one row. */
  lemma RowOfRepair(code: Code, r: Received, k: nat) returns (j: nat)
    requires ValidCoding(code) && IsReceived(code, r) && k < |r.rep|
    ensures j < code.param.L + Extra(code, r) && IsRepairRow(code, r, j) && RepairNumber(code, r, j) == k
    ensures RepairAt(code, r, j) == Some(r.rep[k])
    ensures forall m: nat {:trigger IsRepairRow(code, r, m)} :: IsRepairRow(code, r, m) && RepairNumber(code, r, m) == k ==> m == j
  {
    if k < Missing(r.src, code.param.K) {
      var i := MissingNumber(r.src, code.param.K, k);
      j := code.param.S + code.param.H + i;
    } else {
      j := code.param.L + (k - Missing(r.src, code.param.K));
    }
    forall m: nat | IsRepairRow(code, r, m) && RepairNumber(code, r, m) == k
      ensures m == j
    {
      RepairRowsInOrder(code, r, m, j);
      RepairRowsInOrder(code, r, j, m);
    }
  }

  /** The k-th missing source symbol. */
  lemma {:induction false} MissingNumber(src: seq<Option<Row>>, n: nat, k: nat) returns (i: nat)
    requires n <= |src| && k < Missing(src, n)
    ensures i < n && src[i].None? && Missing(src, i) == k
  {
    if Missing(src, n - 1) == k {
      i := n - 1;
    } else {
      i := MissingNumber(src, n - 1, k);
    }
  }

  lemma FilledRepair(code: Code, r: Received, a: seq<Row>, d: seq<Row>, m: nat, x: Symbol)
    requires ValidCoding(code) && IsReceived(code, r) && Filled(code, r, a, d, m) && code.param.S + code.param.H <= m
    requires m < code.param.L ==> m < code.param.S + code.param.H + code.param.K && r.src[m - code.param.S - code.param.H].None?
    requires RepairNumber(code, r, m) < |r.rep| && r.rep[RepairNumber(code, r, m)] == x
    ensures m < |a| && Filled(code, r, a[m := SymbolRow(code.repo, code.tables, code.param, x.esi)], d[m := x.data], m + 1)
  {
    assert RepairAt(code, r, m) == Some(x);
    FilledNext(code, r, a, d, m, a[m := SymbolRow(code.repo, code.tables, code.param, x.esi)], d[m := x.data]);
  }

  /** Beyond the first L rows A starts with zeros. */
  lemma FilledStart(code: Code, r: Received, a: seq<Row>, d: seq<Row>, m: nat)
    requires ValidCoding(code) && IsReceived(code, r) && Filled(code, r, a, d, m) && code.param.L <= m < |a|
    ensures a[m] == Zeros(code.param.L)
  {
    assert FilledAt(code, r, a, d, m, m);
  }

  lemma FilledAll(code: Code, r: Received, a: seq<Row>, d: seq<Row>, m: nat)
    requires ValidCoding(code) && IsReceived(code, r) && Filled(code, r, a, d, m) && m == |a|
    ensures a == BuiltA(code, r) && d == BuiltD(code, r)
  {
    var a', d' := BuiltA(code, r), BuiltD(code, r);
    forall j | 0 <= j < |a|
      ensures a[j] == a'[j]
    {
      assert FilledAt(code, r, a, d, m, j);
    }
    forall j | 0 <= j < |a|
      ensures d[j] == d'[j]
    {
      assert FilledAt(code, r, a, d, m, j);
    }
  }

  /** The storage of the system. */
  ghost predicate Storage(code: Code, r: Received, A: Matrix, D: Matrix)
    requires ValidCoding(code) && IsReceived(code, r)
    reads A, A.rowIdxes, A.data, D, D.rowIdxes, D.data
  {
    && A.Footprint() !! D.Footprint() && A.colNum == code.param.L && D.colNum == code.param.T
    && |A.rows| == |D.rows| == A.rowNum == D.rowNum == code.param.L + Extra(code, r)
    && A.Valid() && D.Valid()
  }

  /** The first m rows of the system are in place. */
  ghost predicate InPlace(code: Code, r: Received, A: Matrix, D: Matrix, m: nat)
    requires ValidCoding(code) && IsReceived(code, r)
    reads A, A.rowIdxes, A.data, D, D.rowIdxes, D.data
  {
    InPlaceBehind(code, r, A, D, m, m + 2)
  }

  /** Says the same for every depth, so that only InPlaceMeans can tell what InPlace stands for. */
  ghost predicate InPlaceBehind(code: Code, r: Received, A: Matrix, D: Matrix, m: nat, depth: nat)
    requires ValidCoding(code) && IsReceived(code, r)
    reads A, A.rowIdxes, A.data, D, D.rowIdxes, D.data
    decreases depth
  {
    if depth == 0 then Storage(code, r, A, D) && Filled(code, r, A.rows, D.rows, m) else
    InPlaceBehind(code, r, A, D, m, depth - 1)
  }

  lemma {:induction false} BehindMeans(code: Code, r: Received, A: Matrix, D: Matrix, m: nat, depth: nat)
    requires ValidCoding(code) && IsReceived(code, r)
    ensures InPlaceBehind(code, r, A, D, m, depth) <==> Storage(code, r, A, D) && Filled(code, r, A.rows, D.rows, m)
    decreases depth
  {
    if depth > 0 {
      BehindMeans(code, r, A, D, m, depth - 1);
    }
  }

  lemma InPlaceMeans(code: Code, r: Received, A: Matrix, D: Matrix, m: nat)
    requires ValidCoding(code) && IsReceived(code, r)
    ensures InPlace(code, r, A, D, m) <==> Storage(code, r, A, D) && Filled(code, r, A.rows, D.rows, m)
  {
    BehindMeans(code, r, A, D, m, m + 2);
  }

  /** Zeroes the symbol of row m, which is a constraint or padding row. */
  method ZeroSymbol(code: Code, ghost r: Received, A: Matrix, D: Matrix, m: nat)
    requires ValidCoding(code) && IsReceived(code, r) && InPlace(code, r, A, D, m)
    requires m < code.param.S + code.param.H || code.param.S + code.param.H + code.param.K <= m < code.param.L
    modifies D`rows, D.data
    ensures InPlace(code, r, A, D, m + 1)
  {
    InPlaceMeans(code, r, A, D, m);
    FilledZero(code, r, A.rows, D.rows, m);
    D.StoreRow(m, Zeros(D.colNum));
    InPlaceMeans(code, r, A, D, m + 1);
  }

  /** Zeroes the symbols of the rows lo to hi - 1, which are constraint or padding rows. */
  method ZeroSymbols(code: Code, ghost r: Received, A: Matrix, D: Matrix, lo: nat, hi: nat)
    requires ValidCoding(code) && IsReceived(code, r) && InPlace(code, r, A, D, lo) && lo <= hi <= code.param.L
    requires hi <= code.param.S + code.param.H || code.param.S + code.param.H + code.param.K <= lo
    modifies D`rows, D.data
    ensures InPlace(code, r, A, D, hi)
  {
    for m := lo to hi
      invariant InPlace(code, r, A, D, m)
    {
      ZeroSymbol(code, r, A, D, m);
    }
  }

  /** Places source symbol i. */
  method PlacePresent(code: Code, ghost r: Received, A: Matrix, D: Matrix, i: nat, data: Row)
    requires ValidCoding(code) && IsReceived(code, r) && InPlace(code, r, A, D, code.param.S + code.param.H + i)
    requires i < code.param.K && r.src[i] == Some(data) && |data| == code.param.T
    modifies D`rows, D.data
    ensures InPlace(code, r, A, D, code.param.S + code.param.H + i + 1)
  {
    InPlaceMeans(code, r, A, D, code.param.S + code.param.H + i);
    FilledPresent(code, r, A.rows, D.rows, i, code.param.S + code.param.H + i, data);
    D.StoreRow(code.param.S + code.param.H + i, data);
    InPlaceMeans(code, r, A, D, code.param.S + code.param.H + i + 1);
  }

  /** Puts a repair symbol in row m of the system, where A is still zero. */
  method PlaceRepair(code: Code, A: Matrix, D: Matrix, m: nat, esi: nat, data: Row)
    requires ValidCoding(code) && A.Valid() && D.Valid() && A.Footprint() !! D.Footprint()
    requires A.colNum == code.param.L && D.colNum == |data| && m < |A.rows| && m < |D.rows| && A.rows[m] == Zeros(A.colNum)
    modifies A`rows, A.data, D`rows, D.data
    ensures A.Valid() && D.Valid()
    ensures A.rows == old(A.rows)[m := SymbolRow(code.repo, code.tables, code.param, esi)] && D.rows == old(D.rows)[m := data]
  {
    D.StoreRow(m, data);
    SetSymbolRow(code.repo, code.tables, code.param, A, m, esi);
  }

  /** The same where A is not zero yet. */
  method ReplaceWithRepair(code: Code, A: Matrix, D: Matrix, m: nat, esi: nat, data: Row)
    requires ValidCoding(code) && A.Valid() && D.Valid() && A.Footprint() !! D.Footprint()
    requires A.colNum == code.param.L && D.colNum == |data| && m < |A.rows| && m < |D.rows|
    modifies A`rows, A.data, D`rows, D.data
    ensures A.Valid() && D.Valid()
    ensures A.rows == old(A.rows)[m := SymbolRow(code.repo, code.tables, code.param, esi)] && D.rows == old(D.rows)[m := data]
  {
    A.StoreRow(m, Zeros(A.colNum));
    PlaceRepair(code, A, D, m, esi, data);
  }

  /** Places a repair symbol in row m instead of the missing source symbol i. */
  method PlaceMissing(code: Code, ghost r: Received, A: Matrix, D: Matrix, ghost i: nat, m: nat, ghost next: nat, esi: nat, data: Row)
    requires ValidCoding(code) && IsReceived(code, r) && InPlace(code, r, A, D, m) && m == code.param.S + code.param.H + i && next == m + 1
    requires i < code.param.K && |data| == code.param.T && r.src[i].None? && Missing(r.src, i) < |r.rep| && r.rep[Missing(r.src, i)] == Symbol(esi, data)
    modifies A`rows, A.data, D`rows, D.data
    ensures InPlace(code, r, A, D, next) && m < |old(D.rows)| && D.rows == old(D.rows)[m := data]
  {
    InPlaceMeans(code, r, A, D, m);
    FilledRepair(code, r, A.rows, D.rows, m, Symbol(esi, data));
    ReplaceWithRepair(code, A, D, m, esi, data);
    InPlaceMeans(code, r, A, D, next);
  }

  /** Adds a row to the system for a repair symbol. */
  method PlaceExtra(code: Code, ghost r: Received, A: Matrix, D: Matrix, m: nat, ghost next: nat, esi: nat, data: Row)
    requires ValidCoding(code) && IsReceived(code, r) && InPlace(code, r, A, D, m)
    requires code.param.L <= m < code.param.L + Extra(code, r) && next == m + 1
    requires |data| == code.param.T && r.rep[RepairNumber(code, r, m)] == Symbol(esi, data)
    modifies A`rows, A.data, D`rows, D.data
    ensures InPlace(code, r, A, D, next)
  {
    InPlaceMeans(code, r, A, D, m);
    FilledStart(code, r, A.rows, D.rows, m);
    FilledRepair(code, r, A.rows, D.rows, m, Symbol(esi, data));
    PlaceRepair(code, A, D, m, esi, data);
    InPlaceMeans(code, r, A, D, next);
  }

  /** The symbols that are present among those numbered lo to hi - 1. */
  function Repairs(symbols: seq<Option<Row>>, lo: nat, hi: nat): (rep: seq<Symbol>)
    requires hi <= |symbols|
  {
    if hi <= lo then [] else
    Repairs(symbols, lo, hi - 1) + if symbols[hi - 1].Some? then [Symbol(hi - 1, symbols[hi - 1].value)] else []
  }

  lemma {:induction false} RepairsPrefix(symbols: seq<Option<Row>>, lo: nat, mid: nat, hi: nat)
    requires mid <= hi <= |symbols|
    ensures Repairs(symbols, lo, mid) <= Repairs(symbols, lo, hi)
  {
    if mid < hi {
      RepairsPrefix(symbols, lo, mid, hi - 1);
    }
  }

  lemma {:induction false} RepairsSized(symbols: seq<Option<Row>>, lo: nat, hi: nat, T: nat)
    requires hi <= |symbols| && SizedSymbols(symbols, T)
    ensures SizedRepairs(Repairs(symbols, lo, hi), T)
    decreases hi
  {
    if lo < hi {
      RepairsSized(symbols, lo, hi - 1, T);
    }
  }

  /** What an array of symbols, by number, says was received. */
  function FromArray(symbols: seq<Option<Row>>, K: nat): Received
    requires K <= |symbols|
  {
    Received(symbols[..K], Repairs(symbols, K, |symbols|))
  }

  /** What TryDecode asks of an array: at least K of its symbols are there. */
  ghost predicate IsArray(code: Code, symbols: seq<Option<Row>>) {
    && code.param.K <= |symbols|
    && SizedSymbols(symbols, code.param.T)
    && Missing(symbols[..code.param.K], code.param.K) <= |Repairs(symbols, code.param.K, |symbols|)|
  }

  /** The array is a well-formed one that says r was received. */
  ghost predicate Describes(code: Code, symbols: seq<Option<Row>>, r: Received) {
    && code.param.K <= |symbols| && |r.src| == code.param.K
    && IsArray(code, symbols) && r == FromArray(symbols, code.param.K)
  }

  lemma FromArrayIsReceived(code: Code, symbols: seq<Option<Row>>)
    requires IsArray(code, symbols)
    ensures IsReceived(code, FromArray(symbols, code.param.K))
  {
    RepairsSized(symbols, code.param.K, |symbols|, code.param.T);
  }

  /** A repair symbol is left for every missing source symbol. */
  method NextRepair(code: Code, symbols: seq<Option<Row>>, repairEsi: nat, ghost i: nat) returns (esi: nat)
    requires IsArray(code, symbols) && code.param.K <= repairEsi <= |symbols|
    requires i < code.param.K && symbols[i].None?
    requires |Repairs(symbols, code.param.K, repairEsi)| == Missing(symbols[..code.param.K], i)
    ensures repairEsi <= esi < |symbols| && symbols[esi].Some?
    ensures Repairs(symbols, code.param.K, esi) == Repairs(symbols, code.param.K, repairEsi)
  {
    MissingMonotone(symbols[..code.param.K], i + 1, code.param.K);
    esi := repairEsi;
    while esi < |symbols| && symbols[esi].None?
      invariant repairEsi <= esi <= |symbols|
      invariant Repairs(symbols, code.param.K, esi) == Repairs(symbols, code.param.K, repairEsi)
    {
      esi := esi + 1;
    }
  }

  /** The repair symbol numbered esi, and its place among all repair symbols. */
  lemma RepairPlace(symbols: seq<Option<Row>>, lo: nat, esi: nat)
    requires lo <= esi < |symbols| && symbols[esi].Some?
    ensures |Repairs(symbols, lo, esi)| < |Repairs(symbols, lo, |symbols|)|
    ensures Repairs(symbols, lo, |symbols|)[|Repairs(symbols, lo, esi)|] == Symbol(esi, symbols[esi].value)
    ensures |Repairs(symbols, lo, esi + 1)| == |Repairs(symbols, lo, esi)| + 1
  {
    RepairsPrefix(symbols, lo, esi + 1, |symbols|);
  }

  /** The repair symbol numbered esi, in what was received. */
  lemma DescribedRepair(code: Code, symbols: seq<Option<Row>>, esi: nat, r: Received)
    requires Describes(code, symbols, r) && code.param.K <= esi < |symbols| && symbols[esi].Some?
    ensures |Repairs(symbols, code.param.K, esi)| < |r.rep| && |symbols[esi].value| == code.param.T
    ensures r.rep[|Repairs(symbols, code.param.K, esi)|] == Symbol(esi, symbols[esi].value)
    ensures |Repairs(symbols, code.param.K, esi + 1)| == |Repairs(symbols, code.param.K, esi)| + 1
  {
    RepairPlace(symbols, code.param.K, esi);
  }

  lemma DescribedEnd(code: Code, symbols: seq<Option<Row>>, r: Received)
    requires Describes(code, symbols, r)
    ensures |Repairs(symbols, code.param.K, |symbols|)| == |r.rep|
  {
  }

  /** Places source symbol i, or the next repair symbol in its stead. */
  method PlaceSource(code: Code, symbols: seq<Option<Row>>, A: Matrix, D: Matrix, i: nat, repairEsi: nat, ghost r: Received) returns (nextEsi: nat)
    requires ValidCoding(code) && Describes(code, symbols, r) && IsReceived(code, r)
    requires i < code.param.K <= repairEsi <= |symbols| && InPlace(code, r, A, D, code.param.S + code.param.H + i)
    requires |Repairs(symbols, code.param.K, repairEsi)| == Missing(r.src, i)
    modifies A`rows, A.data, D`rows, D.data
    ensures InPlace(code, r, A, D, code.param.S + code.param.H + i + 1)
    ensures code.param.K <= nextEsi <= |symbols| && |Repairs(symbols, code.param.K, nextEsi)| == Missing(r.src, i + 1)
  {
    if symbols[i].Some? {
      PlacePresent(code, r, A, D, i, symbols[i].value);
      nextEsi := repairEsi;
    } else {
      var esi := NextRepair(code, symbols, repairEsi, i);
      DescribedRepair(code, symbols, esi, r);
      PlaceMissing(code, r, A, D, i, code.param.S + code.param.H + i, code.param.S + code.param.H + i + 1, esi, symbols[esi].value);
      nextEsi := esi + 1;
    }
  }

  /** Places the repair symbols that replaced no source symbol in the rows from L on, and returns the row after them. */
  method PlaceRest(code: Code, symbols: seq<Option<Row>>, A: Matrix, D: Matrix, repairEsi: nat, ghost r: Received) returns (addi: nat)
    requires ValidCoding(code) && Describes(code, symbols, r) && IsReceived(code, r)
    requires code.param.K <= repairEsi <= |symbols| && InPlace(code, r, A, D, code.param.L)
    requires |Repairs(symbols, code.param.K, repairEsi)| == Missing(r.src, code.param.K)
    modifies A`rows, A.data, D`rows, D.data
    ensures InPlace(code, r, A, D, addi) && addi == code.param.L + Extra(code, r)
  {
    addi := code.param.L;
    for esi := repairEsi to |symbols|
      invariant code.param.L <= addi && InPlace(code, r, A, D, addi)
      invariant |Repairs(symbols, code.param.K, esi)| == Missing(r.src, code.param.K) + addi - code.param.L
    {
      addi := PlaceRestAt(code, symbols, A, D, esi, addi, r);
    }
    DescribedEnd(code, symbols, r);
  }

  /** Places symbol esi in row addi if it was received. */
  method PlaceRestAt(code: Code, symbols: seq<Option<Row>>, A: Matrix, D: Matrix, esi: nat, addi: nat, ghost r: Received) returns (next: nat)
    requires ValidCoding(code) && Describes(code, symbols, r) && IsReceived(code, r)
    requires code.param.K <= esi < |symbols| && code.param.L <= addi && InPlace(code, r, A, D, addi)
    requires |Repairs(symbols, code.param.K, esi)| == Missing(r.src, code.param.K) + addi - code.param.L
    modifies A`rows, A.data, D`rows, D.data
    ensures code.param.L <= next && InPlace(code, r, A, D, next)
    ensures |Repairs(symbols, code.param.K, esi + 1)| == Missing(r.src, code.param.K) + next - code.param.L
  {
    next := addi;
    if symbols[esi].Some? {
      DescribedRepair(code, symbols, esi, r);
      PlaceExtra(code, r, A, D, addi, addi + 1, esi, symbols[esi].value);
      next := addi + 1;
    }
  }

  /** The solved system, as both forms of TryDecode promise it. */
  ghost predicate Decodes(F: Field, code: Code, r: Received, success: bool, rows: seq<Row>)
    requires ValidCoding(code) && IsReceived(code, r)
  {
    && (success <==> TrivialKernel(F, BuiltA(code, r), code.param.L))
    && (success ==> Recovered(F, BuiltA(code, r), BuiltD(code, r), rows, code.param.L, code.param.T))
  }

  /** The precomputed matrix with extra zero rows, and unset symbols. */
  method Construct(code: Code, delta: nat, ghost r: Received) returns (A: Matrix, D: Matrix)
    requires ValidCoding(code) && IsReceived(code, r) && delta == Extra(code, r)
    ensures fresh(A.Footprint()) && fresh(D.Footprint())
    ensures D.colNum == code.param.T && InPlace(code, r, A, D, 0)
  {
    A := new Matrix.FromRows(code.repo.A, delta, code.param.L);
    D := new Matrix(code.param.L + delta, code.param.T);
    FilledInitially(code, r, A.rows, D.rows);
    InPlaceMeans(code, r, A, D, 0);
  }

  lemma FilledInitially(code: Code, r: Received, a: seq<Row>, d: seq<Row>)
    requires ValidCoding(code) && IsReceived(code, r)
    requires a == code.repo.A + seq(Extra(code, r), _ => Zeros(code.param.L)) && |d| == |a|
    ensures Filled(code, r, a, d, 0)
  {
  }

  lemma AllInPlace(code: Code, r: Received, A: Matrix, D: Matrix, m: nat)
    requires ValidCoding(code) && IsReceived(code, r) && InPlace(code, r, A, D, m) && m == code.param.L + Extra(code, r)
    ensures A.Valid() && D.Valid() && A.Footprint() !! D.Footprint() && A.colNum == code.param.L && D.colNum == code.param.T
    ensures |A.rows| == |D.rows| == A.rowNum == D.rowNum && A.rows == BuiltA(code, r) && D.rows == BuiltD(code, r)
  {
    InPlaceMeans(code, r, A, D, m);
    FilledAll(code, r, A.rows, D.rows, m);
  }

  /** Decodes the system, and the recovered symbols are left in D. */
  method Solve(F: Field, code: Code, A: Matrix, D: Matrix, ghost r: Received) returns (success: bool)
    requires Laws(F) && ValidCoding(code) && IsReceived(code, r)
    requires InPlace(code, r, A, D, code.param.L + Extra(code, r))
    modifies A`rows, A.rowIdxes, A.data, D`rows, D.rowIdxes, D.data
    ensures D.Valid() && Decodes(F, code, r, success, D.rows)
  {
    AllInPlace(code, r, A, D, code.param.L + Extra(code, r));
    ghost var run;
    success, run := Decoding(F, A, D, code.param);
  }

  /** Decodes from an array of symbols by number, in which missing symbols are null. */
  method TryDecode(F: Field, code: Code, symbols: seq<Option<Row>>, validSymbolNum: nat) returns (success: bool, D: Matrix)
    requires Laws(F) && ValidCoding(code) && IsArray(code, symbols)
    requires validSymbolNum == |Repairs(symbols, 0, |symbols|)|
    ensures fresh(D.Footprint()) && D.Valid() && D.colNum == code.param.T && IsReceived(code, FromArray(symbols, code.param.K))
    ensures Decodes(F, code, FromArray(symbols, code.param.K), success, D.rows)
  {
    var param := code.param;
    ghost var r := FromArray(symbols, param.K);
    FromArrayIsReceived(code, symbols);
    PresentCount(symbols, param.K);
    var A;
    A, D := Construct(code, validSymbolNum - param.K, r);
    LayOutArray(code, symbols, A, D, r);
    success := Solve(F, code, A, D, r);
  }

  /** Present and missing source symbols are K together. */
  lemma {:induction false} PresentCount(symbols: seq<Option<Row>>, K: nat)
    requires K <= |symbols|
    ensures |Repairs(symbols, 0, |symbols|)| == K - Missing(symbols[..K], K) + |Repairs(symbols, K, |symbols|)|
  {
    RepairsSplit(symbols, K, |symbols|);
    PresentBelow(symbols, K, K);
  }

  lemma {:induction false} RepairsSplit(symbols: seq<Option<Row>>, mid: nat, hi: nat)
    requires mid <= hi <= |symbols|
    ensures Repairs(symbols, 0, hi) == Repairs(symbols, 0, mid) + Repairs(symbols, mid, hi)
    decreases hi
  {
    if mid < hi {
      RepairsSplit(symbols, mid, hi - 1);
    }
  }

  lemma {:induction false} PresentBelow(symbols: seq<Option<Row>>, i: nat, K: nat)
    requires i <= K <= |symbols|
    ensures |Repairs(symbols, 0, i)| == i - Missing(symbols[..K], i)
  {
    if i > 0 {
      PresentBelow(symbols, i - 1, K);
    }
  }

  /** Writes every row of the system. */
  method LayOutArray(code: Code, symbols: seq<Option<Row>>, A: Matrix, D: Matrix, ghost r: Received)
    requires ValidCoding(code) && Describes(code, symbols, r) && IsReceived(code, r) && InPlace(code, r, A, D, 0)
    modifies A`rows, A.data, D`rows, D.data
    ensures InPlace(code, r, A, D, code.param.L + Extra(code, r))
  {
    var param := code.param;
    ZeroSymbols(code, r, A, D, 0, param.S + param.H);
    var repairEsi := PlaceSources(code, symbols, A, D, r);
    ZeroSymbols(code, r, A, D, param.S + param.H + param.K, param.L);
    var addi := PlaceRest(code, symbols, A, D, repairEsi, r);
  }

  /** Places the K source symbols or their substitutes. */
  method PlaceSources(code: Code, symbols: seq<Option<Row>>, A: Matrix, D: Matrix, ghost r: Received) returns (repairEsi: nat)
    requires ValidCoding(code) && Describes(code, symbols, r) && IsReceived(code, r)
    requires InPlace(code, r, A, D, code.param.S + code.param.H)
    modifies A`rows, A.data, D`rows, D.data
    ensures InPlace(code, r, A, D, code.param.S + code.param.H + code.param.K)
    ensures code.param.K <= repairEsi <= |symbols| && |Repairs(symbols, code.param.K, repairEsi)| == Missing(r.src, code.param.K)
  {
    repairEsi := code.param.K;
    for i := 0 to code.param.K
      invariant InPlace(code, r, A, D, code.param.S + code.param.H + i)
      invariant code.param.K <= repairEsi <= |symbols| && |Repairs(symbols, code.param.K, repairEsi)| == Missing(r.src, i)
    {
      repairEsi := PlaceSource(code, symbols, A, D, i, repairEsi, r);
    }
  }
}
