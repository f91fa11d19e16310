/** The matrices and symbol vectors of src/fast_calc.h: a two-dimensional buffer addressed through a row
    index, so that swapping rows swaps indices while swapping columns moves octets in every buffer row.
    A Vector of symbols is a matrix too, with one row for each symbol. */
module Matrices {
  import opened Octets
  import opened Permutations
  import opened LinearAlgebra

  /** Where index k goes when p and q are swapped. */
  function Swapped(k: nat, p: nat, q: nat): nat {
    if k == p then q else if k == q then p else k
  }

  function SwapColumnsOf(m: seq<Row>, p: nat, q: nat): (r: seq<Row>)
    requires forall j :: 0 <= j < |m| ==> p < |m[j]| && q < |m[j]|
    ensures |r| == |m|
    ensures forall j {:trigger r[j]} :: 0 <= j < |m| ==> r[j] == SwapAt(m[j], p, q)
  {
    seq(|m|, j requires 0 <= j < |m| => SwapAt(m[j], p, q))
  }

  /** How many of the columns lo to hi - 1 are not zero. */
  function NonZeros(row: Row, lo: nat, hi: nat): (n: nat)
    requires hi <= |row|
    ensures n <= if lo <= hi then hi - lo else 0
  {
    if hi <= lo then 0 else NonZeros(row, lo, hi - 1) + if row[hi - 1] != 0 then 1 else 0
  }

  /** How many of the columns lo to hi - 1 are one. */
  function Ones(row: Row, lo: nat, hi: nat): (n: nat)
    requires hi <= |row|
    ensures n <= NonZeros(row, lo, hi)
  {
    if hi <= lo then 0 else Ones(row, lo, hi - 1) + if row[hi - 1] == 1 then 1 else 0
  }

  /** The sum of the octets in the columns lo to hi - 1, taken as numbers. */
  function RowSum(row: Row, lo: nat, hi: nat): nat
    requires hi <= |row|
  {
    if hi <= lo then 0 else RowSum(row, lo, hi - 1) + row[hi - 1] as nat
  }

  /** The top rows of m replaced by their products with the top rows of x. */
  function MulTop(F: Field, x: seq<Row>, m: seq<Row>, n: nat, width: nat): (r: seq<Row>)
    requires n <= |x| && n <= |m| && IsMatrix(m, width)
    requires forall j :: 0 <= j < n ==> n <= |x[j]|
    ensures |r| == |m| && IsMatrix(r, width)
  {
    seq(|m|, j requires 0 <= j < |m| => if j < n then Combine(F, x[j], m, n, width) else m[j])
  }

  /** The same with only the first r rows replaced. */
  ghost function MulFirst(F: Field, x: seq<Row>, m: seq<Row>, r: nat, n: nat, width: nat): (p: seq<Row>)
    requires r <= n <= |x| && n <= |m| && IsMatrix(m, width)
    requires forall j :: 0 <= j < n ==> n <= |x[j]|
    ensures |p| == |m| && IsMatrix(p, width)
    ensures forall j {:trigger p[j]} :: 0 <= j < |m| ==> p[j] == if j < r then Combine(F, x[j], m, n, width) else m[j]
  {
    seq(|m|, j requires 0 <= j < |m| => if j < r then Combine(F, x[j], m, n, width) else m[j])
  }

  /** An entry of a linear combination of rows is a scalar product with a column. */
  lemma {:induction false} CombineEntry(F: Field, x: Row, m: seq<Row>, n: nat, width: nat, q: nat)
    requires Laws(F)
    requires n <= |x| && n <= |m| && IsMatrix(m, width) && q < width
    ensures Combine(F, x, m, n, width)[q] == Dot(F, x, Column(m, q), n)
  {
    if n > 0 {
      CombineEntry(F, x, m, n - 1, width, q);
    }
  }

  lemma AddScaledZero(F: Field, a: Row, b: Row)
    requires Laws(F)
    requires |a| == |b|
    ensures AddScaled(F, a, b, 0) == a
  {
    forall k | 0 <= k < |a|
      ensures AddScaled(F, a, b, 0)[k] == a[k]
    {
      MulUnits(F, b[k]);
      AddLaws(F, a[k], 0, 0);
    }
  }

  lemma DivAllOne(F: Field, a: Row)
    requires Laws(F)
    ensures DivAll(F, a, 1) == a
  {
    forall k | 0 <= k < |a|
      ensures Div(F, a[k], 1) == a[k]
    {
      DivIsMul(F, a[k], 1);
      MulUnits(F, Div(F, a[k], 1));
    }
  }

  /** Row i of a buffer. */
  ghost function BufferRow(data: array2<Octet>, i: nat): (row: Row)
    requires i < data.Length0
    reads data
    ensures |row| == data.Length1 && forall k {:trigger row[k]} :: 0 <= k < |row| ==> row[k] == data[i, k]
  {
    seq(data.Length1, k requires 0 <= k < data.Length1 reads data => data[i, k])
  }

  class Matrix {
    const rowNum: nat
    const colNum: nat
    const rowIdxes: array<int>
    const data: array2<Octet>
    ghost var rows: seq<Row>

    /** Row j has a buffer row, and column q of it is stored there. */
    ghost predicate CellAt(j: nat, q: nat)
      reads this, rowIdxes, data
      requires j < |rows| <= rowIdxes.Length && q < colNum <= |rows[j]| && colNum == data.Length1
    {
      0 <= rowIdxes[j] < data.Length0 && rows[j][q] == data[rowIdxes[j], q]
    }

    ghost predicate IndexAt(j: nat, k: nat)
      reads rowIdxes
      requires j < rowIdxes.Length && k < rowIdxes.Length
    {
      0 <= rowIdxes[j] < rowNum && (j != k ==> rowIdxes[j] != rowIdxes[k])
    }

    /** rows are the logical rows: those whose index is not -1. Different rows have different buffer rows. */
    ghost predicate Valid()
      reads this, rowIdxes, data
    {
      && rowIdxes.Length == rowNum && data.Length0 == rowNum && data.Length1 == colNum
      && |rows| <= rowNum && IsMatrix(rows, colNum)
      && (forall j: nat, k: nat {:trigger IndexAt(j, k)} :: j < |rows| && k < |rows| ==> IndexAt(j, k))
      && (forall j: nat, q: nat {:trigger CellAt(j, q)} :: j < |rows| && q < colNum ==> CellAt(j, q))
      && (forall j :: |rows| <= j < rowNum ==> rowIdxes[j] == -1)
    }

    ghost function Footprint(): set<object> {
      {this, rowIdxes, data}
    }

    /** A matrix with the rows in buffer order, whose contents are not set. */
    constructor (rowNum: nat, colNum: nat)
      ensures Valid() && fresh(Footprint())
      ensures this.rowNum == rowNum && this.colNum == colNum && |rows| == rowNum
    {
      this.rowNum := rowNum;
      this.colNum := colNum;
      this.rowIdxes := new int[rowNum](i => i);
      this.data := new Octet[rowNum, colNum];
      new;
      rows := seq(rowNum, i requires 0 <= i < rowNum reads data => BufferRow(data, i));
    }

    /** A copy with its own buffers. */
    constructor Clone(m: Matrix)
      requires m.Valid()
      ensures Valid() && fresh(Footprint())
      ensures rowNum == m.rowNum && colNum == m.colNum && rows == m.rows
    {
      rowNum := m.rowNum;
      colNum := m.colNum;
      rowIdxes := new int[m.rowNum](i requires 0 <= i < m.rowIdxes.Length reads m.rowIdxes => m.rowIdxes[i]);
      data := new Octet[m.rowNum, m.colNum]((i, j) requires 0 <= i < m.data.Length0 && 0 <= j < m.data.Length1 reads m.data => m.data[i, j]);
      rows := m.rows;
      new;
      forall j: nat, k: nat | j < |rows| && k < |rows|
        ensures IndexAt(j, k)
      {
        assert m.IndexAt(j, k);
      }
      forall j: nat, q: nat | j < |rows| && q < colNum
        ensures CellAt(j, q)
      {
        assert m.CellAt(j, q);
      }
    }

    /** The rows of m followed by extra zero rows. */
    constructor FromRows(m: seq<Row>, extra: nat, colNum: nat)
      requires IsMatrix(m, colNum)
      ensures Valid() && fresh(Footprint())
      ensures rowNum == |m| + extra && this.colNum == colNum
      ensures rows == m + seq(extra, _ => Zeros(colNum))
    {
      this.rowNum := |m| + extra;
      this.colNum := colNum;
      this.rowIdxes := new int[|m| + extra](i => i);
      this.data := new Octet[|m| + extra, colNum]((i, j) => if 0 <= i < |m| && 0 <= j < |m[i]| then m[i][j] else 0);
      this.rows := m + seq(extra, _ => Zeros(colNum));
      new;
    }

    /** Overwrites a row. */
    method StoreRow(row: nat, value: Row)
      requires Valid() && row < |rows| && |value| == colNum
      modifies this`rows, data
      ensures Valid() && rows == old(rows)[row := value]
    {
      assert IndexAt(row, row);
      var target := rowIdxes[row];
      for k := 0 to colNum
        invariant rows == old(rows)
        invariant forall p: nat, q: nat {:trigger data[p, q]} :: p < rowNum && q < colNum ==>
          data[p, q] == if p == target && q < k then value[q] else old(data[p, q])
      {
        data[target, k] := value[k];
      }
      rows := rows[row := value];
      forall j: nat, k: nat | j < |rows| && k < |rows|
        ensures IndexAt(j, k)
      {
        assert old(IndexAt(j, k));
      }
      forall j: nat, q: nat | j < |rows| && q < colNum
        ensures CellAt(j, q)
      {
        assert old(CellAt(j, q)) && old(IndexAt(j, row));
      }
    }

    method SetOne(row: nat, col: nat)
      requires Valid() && row < |rows| && col < colNum
      modifies this`rows, data
      ensures Valid() && rows == old(rows)[row := old(rows)[row][col := 1]]
    {
      assert IndexAt(row, row);
      data[rowIdxes[row], col] := 1;
      rows := rows[row := rows[row][col := 1]];
      forall j: nat, k: nat | j < |rows| && k < |rows|
        ensures IndexAt(j, k)
      {
        assert old(IndexAt(j, k));
      }
      forall j: nat, q: nat | j < |rows| && q < colNum
        ensures CellAt(j, q)
      {
        assert old(CellAt(j, q)) && old(IndexAt(j, row));
      }
    }

    method GetAt(row: nat, col: nat) returns (v: Octet)
      requires Valid() && row < |rows| && col < colNum
      ensures v == rows[row][col]
    {
      assert CellAt(row, col) && IndexAt(row, row);
      v := data[rowIdxes[row], col];
    }

    method SwapRows(row1: nat, row2: nat)
      requires Valid() && row1 < |rows| && row2 < |rows|
      modifies this`rows, rowIdxes
      ensures Valid() && rows == SwapAt(old(rows), row1, row2)
    {
      var tmpIdx := rowIdxes[row1];
      rowIdxes[row1] := rowIdxes[row2];
      rowIdxes[row2] := tmpIdx;
      rows := SwapAt(rows, row1, row2);
      forall j: nat, k: nat | j < |rows| && k < |rows|
        ensures IndexAt(j, k)
      {
        assert old(IndexAt(Swapped(j, row1, row2), Swapped(k, row1, row2)));
      }
      forall j: nat, q: nat | j < |rows| && q < colNum
        ensures CellAt(j, q)
      {
        assert old(CellAt(Swapped(j, row1, row2), q));
      }
    }

    /** Columns are swapped in every buffer row, whatever the row order. */
    method SwapColumns(col1: nat, col2: nat)
      requires Valid() && col1 < colNum && col2 < colNum
      modifies this`rows, data
      ensures Valid() && rows == SwapColumnsOf(old(rows), col1, col2)
    {
      if col1 != col2 {
        for i := 0 to rowNum
          invariant rows == old(rows)
          invariant forall r: nat, q: nat {:trigger data[r, q]} :: r < rowNum && q < colNum ==>
            data[r, q] == old(data[r, if i <= r then q else Swapped(q, col1, col2)])
        {
          var tmp := data[i, col1];
          data[i, col1] := data[i, col2];
          data[i, col2] := tmp;
        }
      }
      rows := SwapColumnsOf(rows, col1, col2);
      forall j: nat, k: nat | j < |rows| && k < |rows|
        ensures IndexAt(j, k)
      {
        assert old(IndexAt(j, k));
      }
      forall j: nat, q: nat | j < |rows| && q < colNum
        ensures CellAt(j, q)
      {
        assert old(CellAt(j, Swapped(q, col1, col2)));
      }
    }

    /** Row row1 plus factor times row row2. */
    method XorRows(F: Field, row1: nat, row2: nat, factor: Octet)
      requires Laws(F)
      requires Valid() && row1 < |rows| && row2 < |rows| && row1 != row2
      modifies this`rows, data
      ensures Valid() && rows == old(rows)[row1 := AddScaled(F, old(rows)[row1], old(rows)[row2], factor)]
    {
      ghost var a, b := rows[row1], rows[row2];
      if factor == 0 {
        AddScaledZero(F, a, b);
        return;
      }
      assert IndexAt(row1, row2) && IndexAt(row2, row1);
      var target, src := rowIdxes[row1], rowIdxes[row2];
      ghost var value := AddScaled(F, a, b, factor);
      for k := 0 to colNum
        invariant rows == old(rows)
        invariant forall p: nat, q: nat {:trigger data[p, q]} :: p < rowNum && q < colNum ==>
          data[p, q] == if p == target && q < k then value[q] else old(data[p, q])
      {
        assert old(CellAt(row1, k)) && old(CellAt(row2, k));
        if factor == 1 {
          MulUnits(F, b[k]);
          data[target, k] := Add(F, data[target, k], data[src, k]);
        } else {
          data[target, k] := Add(F, data[target, k], Mul(F, factor, data[src, k]));
        }
      }
      rows := rows[row1 := value];
      forall j: nat, k: nat | j < |rows| && k < |rows|
        ensures IndexAt(j, k)
      {
        assert old(IndexAt(j, k));
      }
      forall j: nat, q: nat | j < |rows| && q < colNum
        ensures CellAt(j, q)
      {
        assert old(CellAt(j, q)) && old(IndexAt(j, row1));
      }
    }

    method DivRow(F: Field, row: nat, factor: Octet)
      requires Laws(F)
      requires Valid() && row < |rows| && factor != 0
      modifies this`rows, data
      ensures Valid() && rows == old(rows)[row := DivAll(F, old(rows)[row], factor)]
    {
      ghost var a := rows[row];
      if factor == 1 {
        DivAllOne(F, a);
        return;
      }
      assert IndexAt(row, row);
      var target := rowIdxes[row];
      ghost var value := DivAll(F, a, factor);
      for k := 0 to colNum
        invariant rows == old(rows)
        invariant forall p: nat, q: nat {:trigger data[p, q]} :: p < rowNum && q < colNum ==>
          data[p, q] == if p == target && q < k then value[q] else old(data[p, q])
      {
        assert old(CellAt(row, k));
        data[target, k] := Div(F, data[target, k], factor);
      }
      rows := rows[row := value];
      forall j: nat, k: nat | j < |rows| && k < |rows|
        ensures IndexAt(j, k)
      {
        assert old(IndexAt(j, k));
      }
      forall j: nat, q: nat | j < |rows| && q < colNum
        ensures CellAt(j, q)
      {
        assert old(CellAt(j, q)) && old(IndexAt(j, row));
      }
    }

    method RowDegree(row: nat, colBegin: nat, colEnd: nat) returns (degree: nat)
      requires Valid() && row < |rows| && colBegin <= colEnd <= colNum
      ensures degree == RowSum(rows[row], colBegin, colEnd)
    {
      degree := 0;
      var col := colBegin;
      while col < colEnd
        invariant colBegin <= col <= colEnd
        invariant degree == RowSum(rows[row], colBegin, col)
      {
        assert CellAt(row, col);
        degree := degree + data[rowIdxes[row], col] as nat;
        col := col + 1;
      }
    }

    /** Counts the non-zero octets of a row, giving up once there are more than maxOfR, and reports the
        columns of the first two ones. */
    method CountRow(row: nat, colBegin: nat, colEnd: nat, maxOfR: nat)
      returns (nonZeros: nat, idxOfOne1: int, idxOfOne2: int)
      requires Valid() && row < |rows| && colBegin <= colEnd <= colNum
      ensures NonZeros(rows[row], colBegin, colEnd) <= maxOfR ==> nonZeros == NonZeros(rows[row], colBegin, colEnd)
      ensures NonZeros(rows[row], colBegin, colEnd) > maxOfR ==> nonZeros == maxOfR + 1
      ensures idxOfOne2 >= 0 ==> idxOfOne1 >= 0
      ensures idxOfOne1 >= 0 ==> colBegin <= idxOfOne1 < colEnd && rows[row][idxOfOne1] == 1
      ensures idxOfOne2 >= 0 ==> idxOfOne1 < idxOfOne2 < colEnd && rows[row][idxOfOne2] == 1
      ensures nonZeros <= maxOfR ==> (idxOfOne2 >= 0 <==> Ones(rows[row], colBegin, colEnd) >= 2)
    {
      idxOfOne1, idxOfOne2 := -1, -1;
      nonZeros := 0;
      var oneCnt := 0;
      var col := colBegin;
      while col < colEnd
        invariant colBegin <= col <= colEnd
        invariant nonZeros == NonZeros(rows[row], colBegin, col) <= maxOfR
        invariant oneCnt == Ones(rows[row], colBegin, col)
        invariant idxOfOne1 >= 0 <==> oneCnt >= 1
        invariant idxOfOne2 >= 0 <==> oneCnt >= 2
        invariant idxOfOne1 >= 0 ==> colBegin <= idxOfOne1 < col && rows[row][idxOfOne1] == 1
        invariant idxOfOne2 >= 0 ==> idxOfOne1 < idxOfOne2 < col && rows[row][idxOfOne2] == 1
      {
        assert CellAt(row, col);
        var val := data[rowIdxes[row], col];
        if val != 0 {
          nonZeros := nonZeros + 1;
          if nonZeros > maxOfR {
            NonZerosMonotone(rows[row], colBegin, col + 1, colEnd);
            break;
          }
          if val == 1 {
            if oneCnt == 0 {
              idxOfOne1 := col;
            } else if oneCnt == 1 {
              idxOfOne2 := col;
            }
            oneCnt := oneCnt + 1;
          }
        }
        col := col + 1;
      }
    }

    /** The first i rows become their products with the first i rows and columns of mat. */
    method MulMatrix(F: Field, mat: Matrix, i: nat)
      requires Laws(F)
      requires Valid() && mat.Valid() && i <= |rows| && i <= |mat.rows| && i <= mat.colNum
      requires Footprint() !! mat.Footprint()
      modifies this`rows, data
      ensures Valid() && rows == MulTop(F, mat.rows, old(rows), i, colNum)
    {
      ghost var before := rows;
      var rotated := Rotate(i);
      for r := 0 to i
        invariant Valid() && mat.Valid() && rows == MulFirst(F, mat.rows, before, r, i, colNum)
        invariant forall k, j :: 0 <= k < colNum && 0 <= j < i ==> rotated[k, j] == before[j][k]
      {
        MulRow(F, mat, r, i, rotated, before);
      }
      assert rows == MulTop(F, mat.rows, before, i, colNum);
    }

    /** The transpose of the first i rows, in a fresh buffer. */
    method Rotate(i: nat) returns (rotated: array2<Octet>)
      requires Valid() && i <= |rows|
      ensures fresh(rotated) && rotated.Length0 == colNum && rotated.Length1 == i
      ensures forall k, j :: 0 <= k < colNum && 0 <= j < i ==> rotated[k, j] == rows[j][k]
    {
      rotated := new Octet[colNum, i];
      for r := 0 to colNum
        invariant forall k, j :: 0 <= k < r && 0 <= j < i ==> rotated[k, j] == rows[j][k]
      {
        for c := 0 to i
          invariant forall k, j :: 0 <= k < r && 0 <= j < i ==> rotated[k, j] == rows[j][k]
          invariant forall j :: 0 <= j < c ==> rotated[r, j] == rows[j][r]
        {
          assert CellAt(c, r);
          rotated[r, c] := data[rowIdxes[c], r];
        }
      }
    }

    /** Row r becomes the combination of the rows of before with the coefficients in row r of mat. */
    method MulRow(F: Field, mat: Matrix, r: nat, i: nat, rotated: array2<Octet>, ghost before: seq<Row>)
      requires Laws(F)
      requires Valid() && mat.Valid() && r < i <= |rows| && i <= |mat.rows| && i <= mat.colNum
      requires Footprint() !! mat.Footprint() && rotated as object !in Footprint()
      requires |before| == |rows| && IsMatrix(before, colNum)
      requires rotated.Length0 == colNum && rotated.Length1 == i
      requires forall k, j :: 0 <= k < colNum && 0 <= j < i ==> rotated[k, j] == before[j][k]
      modifies this`rows, data
      ensures Valid() && rows == old(rows)[r := Combine(F, mat.rows[r], before, i, colNum)]
    {
      ghost var product := Combine(F, mat.rows[r], before, i, colNum);
      assert IndexAt(r, r);
      var target := rowIdxes[r];
      for k := 0 to colNum
        invariant rows == old(rows)
        invariant forall p: nat, q: nat {:trigger data[p, q]} :: p < rowNum && q < colNum ==>
          data[p, q] == if p == target && q < k then product[q] else old(data[p, q])
      {
        CombineEntry(F, mat.rows[r], before, i, colNum, k);
        data[target, k] := AccumulateSum(F, mat, r, rotated, k, i, Column(before, k));
      }
      rows := rows[r := product];
      forall j: nat, k: nat | j < |rows| && k < |rows|
        ensures IndexAt(j, k)
      {
        assert old(IndexAt(j, k));
      }
      forall j: nat, q: nat | j < |rows| && q < colNum
        ensures CellAt(j, q)
      {
        assert old(CellAt(j, q)) && old(IndexAt(j, r));
      }
    }

    /** The sum of the products of a row of mat with a row of the rotated buffer. */
    static method AccumulateSum(F: Field, mat: Matrix, row: nat, rotated: array2<Octet>, k: nat, i: nat, ghost v: Row) returns (sum: Octet)
      requires mat.Valid() && row < |mat.rows| && i <= mat.colNum
      requires k < rotated.Length0 && rotated.Length1 == i
      requires i <= |v| && forall j :: 0 <= j < i ==> v[j] == rotated[k, j]
      ensures sum == Dot(F, mat.rows[row], v, i)
    {
      sum := 0;
      for j := 0 to i
        invariant sum == Dot(F, mat.rows[row], v, j)
      {
        assert mat.CellAt(row, j);
        sum := Add(F, sum, Mul(F, mat.data[mat.rowIdxes[row], j], rotated[k, j]));
      }
    }

    /** The row indexes in their new order: the buffer holds index k at place c[k], and -1 from numOfC on. */
    method Scatter(c: array<nat>, numOfC: nat) returns (tmpBuf: array<int>)
      requires rowIdxes.Length == rowNum && c.Length == numOfC <= rowNum && IsPermutation(c[..])
      ensures fresh(tmpBuf) && tmpBuf.Length == rowNum
      ensures forall x {:trigger tmpBuf[x]} :: 0 <= x < numOfC ==> tmpBuf[x] == rowIdxes[Position(c[..], x)]
      ensures forall x :: numOfC <= x < rowNum ==> tmpBuf[x] == -1
    {
      ghost var perm := c[..];
      tmpBuf := new int[rowNum];
      for i := 0 to numOfC
        invariant forall x :: 0 <= x < numOfC && Position(perm, x) < i ==> tmpBuf[x] == rowIdxes[Position(perm, x)]
      {
        PositionOf(perm, i);
        tmpBuf[c[i]] := rowIdxes[i];
      }
      for i := numOfC to rowNum
        invariant forall x :: 0 <= x < numOfC ==> tmpBuf[x] == rowIdxes[Position(perm, x)]
        invariant forall k :: numOfC <= k < i ==> tmpBuf[k] == -1
      {
        tmpBuf[i] := -1;
      }
    }

    /** Logical row k becomes logical row c[k]; the rows from numOfC on are marked invalid. */
    method Reorder(c: array<nat>, numOfC: nat)
      requires Valid() && c.Length == numOfC <= |rows| && IsPermutation(c[..])
      requires c as object != rowIdxes
      modifies this`rows, rowIdxes
      ensures Valid() && rows == Unpermute(old(rows), c[..])
    {
      ghost var perm := c[..];
      var tmpBuf := Scatter(c, numOfC);
      for i := 0 to rowNum
        invariant rows == old(rows)
        invariant forall k :: 0 <= k < rowNum ==> tmpBuf[k] == if k < numOfC then old(rowIdxes[Position(perm, k)]) else -1
        invariant forall k :: 0 <= k < i ==> rowIdxes[k] == tmpBuf[k]
      {
        rowIdxes[i] := tmpBuf[i];
      }
      rows := Unpermute(rows, perm);
      forall x: nat, y: nat | x < numOfC && y < numOfC
        ensures IndexAt(x, y)
      {
        assert old(IndexAt(Position(perm, x), Position(perm, y)));
        assert perm[Position(perm, x)] == x && perm[Position(perm, y)] == y;
      }
      forall x: nat, q: nat | x < numOfC && q < colNum
        ensures CellAt(x, q)
      {
        assert old(CellAt(Position(perm, x), q)) && old(IndexAt(Position(perm, x), Position(perm, x)));
      }
    }
  }

  lemma {:induction false} NonZerosMonotone(row: Row, lo: nat, hi: nat, end: nat)
    requires hi <= end <= |row|
    ensures NonZeros(row, lo, hi) <= NonZeros(row, lo, end)
  {
    if hi < end {
      NonZerosMonotone(row, lo, hi, end - 1);
    }
  }

  ghost function Position(c: seq<nat>, x: nat): (k: nat)
    requires IsPermutation(c) && x < |c|
    ensures k < |c| && c[k] == x
  {
    assert exists k: nat :: k < |c| && c[k] == x by {
      var k := Hits(c, x);
    }
    var k: nat :| k < |c| && c[k] == x;
    k
  }

  lemma PositionOf(c: seq<nat>, k: nat)
    requires IsPermutation(c) && k < |c|
    ensures Position(c, c[k]) == k
  {
    assert Differ(c, Position(c, c[k]), k);
  }

  /** The sequence whose element c[k] is element k of m. */
  ghost function Unpermute<T>(m: seq<T>, c: seq<nat>): (r: seq<T>)
    requires IsPermutation(c) && |c| <= |m|
    ensures |r| == |c|
    ensures forall x {:trigger r[x]} :: 0 <= x < |c| ==> r[x] == m[Position(c, x)]
  {
    seq(|c|, x requires 0 <= x < |c| => m[Position(c, x)])
  }

  lemma UnpermuteAt<T>(m: seq<T>, c: seq<nat>, k: nat)
    requires IsPermutation(c) && |c| <= |m| && k < |c|
    ensures Unpermute(m, c)[c[k]] == m[k]
  {
    PositionOf(c, k);
  }
}
