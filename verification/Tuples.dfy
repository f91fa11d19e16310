/** The tuple generator and the intermediate-symbol indexes of an encoding symbol (src/fast_fec.cpp, lines
    486-593; RFC 6330, sections 5.3.5.1 to 5.3.5.4). */
module Tuples {
  import opened BinaryDigits
  import opened Primes
  import opened Params

  const TWO_32 := 0x1_0000_0000
  const TWO_20 := 0x10_0000

  /** The random tables V0 to V3 and the degree distribution; their contents are inputs of the model. */
  datatype RandTables = RandTables(v0: seq<nat>, v1: seq<nat>, v2: seq<nat>, v3: seq<nat>, degree: seq<nat>)
  {
    predicate Valid() {
      |v0| == |v1| == |v2| == |v3| == 256 && |degree| == 31 && degree[30] == TWO_20
    }
  }

  datatype Tuple = Tuple(d: nat, a: nat, b: nat, d1: nat, a1: nat, b1: nat)

  /** W and P1 are prime, there are at least three permanently inactive symbols, and indexes fit an octet. */
  ghost predicate ValidCode(param: Param) {
    && IsPrime(param.W) && IsPrime(param.P1) && param.W >= 3
    && 3 <= param.P <= param.P1 && param.L == param.W + param.P <= 256
  }

  /** What section 5.3.5.4 promises of a tuple. */
  ghost predicate ValidTuple(param: Param, t: Tuple) {
    && 1 <= t.d < param.W && t.d <= 30 && 1 <= t.a < param.W && t.b < param.W
    && 2 <= t.d1 <= 3 && 1 <= t.a1 < param.P1 && t.b1 < param.P1
  }

  /** The random generator of section 5.3.5.1, on 32-bit numbers. */
  function FecRand(tables: RandTables, y: nat, i: nat, m: nat): (r: nat)
    requires tables.Valid() && m > 0
    ensures r < m
  {
    RandNumber(tables, y, i) % m
  }

  /** The exclusive or of the entries of the four tables for the octets of y. */
  function RandNumber(tables: RandTables, y: nat, i: nat): nat
    requires tables.Valid()
  {
    var x0 := (y + i) % TWO_32 % 256;
    var x1 := (y / 256 + i) % TWO_32 % 256;
    var x2 := (y / 65536 + i) % TWO_32 % 256;
    var x3 := (y / 16777216 + i) % TWO_32 % 256;
    BitXor(BitXor(tables.v0[x0], tables.v1[x1]), BitXor(tables.v2[x2], tables.v3[x3]))
  }

  /** Digit j of what the four tables give for the octets of y. */
  function TableDigit(tables: RandTables, y0: nat, y1: nat, y2: nat, y3: nat, i: nat, j: nat): nat
    requires tables.Valid()
  {
    (Bit(tables.v0[(y0 + i) % 256], j) + Bit(tables.v1[(y1 + i) % 256], j) + Bit(tables.v2[(y2 + i) % 256], j)
     + Bit(tables.v3[(y3 + i) % 256], j)) % 2
  }

  ghost predicate OctetsOf(y: nat, y0: nat, y1: nat, y2: nat, y3: nat) {
    y0 < 256 && y1 < 256 && y2 < 256 && y3 < 256 && y == y0 + 256 * y1 + 65536 * y2 + 16777216 * y3
  }

  /** The number whose residue the generator returns has these digits. */
  lemma RandDigits(tables: RandTables, y: nat, y0: nat, y1: nat, y2: nat, y3: nat, i: nat, j: nat)
    requires tables.Valid() && OctetsOf(y, y0, y1, y2, y3)
    ensures Bit(RandNumber(tables, y, i), j) == TableDigit(tables, y0, y1, y2, y3, i, j)
  {
    TableIndexes(y, y0, y1, y2, y3, i);
    FourDigits(tables.v0[(y0 + i) % 256], tables.v1[(y1 + i) % 256], tables.v2[(y2 + i) % 256], tables.v3[(y3 + i) % 256], j);
  }

  lemma FourDigits(a: nat, b: nat, c: nat, d: nat, j: nat)
    ensures Bit(BitXor(BitXor(a, b), BitXor(c, d)), j) == (Bit(a, j) + Bit(b, j) + Bit(c, j) + Bit(d, j)) % 2
  {
    BitXorDigits(a, b, j);
    BitXorDigits(c, d, j);
    BitXorDigits(BitXor(a, b), BitXor(c, d), j);
    Parities(Bit(a, j), Bit(b, j), Bit(c, j), Bit(d, j));
  }

  lemma Parities(p: nat, q: nat, r: nat, s: nat)
    ensures ((p + q) % 2 + (r + s) % 2) % 2 == (p + q + r + s) % 2
  {
  }

  /** The octets of y, each as a quotient modulo 256. */
  lemma TableIndexes(y: nat, y0: nat, y1: nat, y2: nat, y3: nat, i: nat)
    requires OctetsOf(y, y0, y1, y2, y3)
    ensures (y + i) % TWO_32 % 256 == (y0 + i) % 256 && (y / 256 + i) % TWO_32 % 256 == (y1 + i) % 256
    ensures (y / 65536 + i) % TWO_32 % 256 == (y2 + i) % 256 && (y / 16777216 + i) % TWO_32 % 256 == (y3 + i) % 256
  {
    var z2 := y2 + 256 * y3;
    var z1 := y1 + 256 * z2;
    LowTwo(y, y0, y1, z1, z2, i);
    HighTwo(y, y0 + 256 * y1, y2, y3, z2, i);
  }

  lemma LowTwo(y: nat, y0: nat, y1: nat, z1: nat, z2: nat, i: nat)
    requires y == y0 + 256 * z1 && z1 == y1 + 256 * z2 && y0 < 256
    ensures (y + i) % TWO_32 % 256 == (y0 + i) % 256 && (y / 256 + i) % TWO_32 % 256 == (y1 + i) % 256
  {
    LowOctet(y, y0, z1, i);
    NextOctet(y, 256, y0, y1, z2, i);
  }

  lemma HighTwo(y: nat, low: nat, y2: nat, y3: nat, z2: nat, i: nat)
    requires y == low + 65536 * z2 && z2 == y2 + 256 * y3 && low < 65536 && y2 < 256
    ensures (y / 65536 + i) % TWO_32 % 256 == (y2 + i) % 256 && (y / 16777216 + i) % TWO_32 % 256 == (y3 + i) % 256
  {
    NextOctet(y, 65536, low, y2, y3, i);
    NextOctet(y, 16777216, low + 65536 * y2, y3, 0, i);
  }

  lemma NextOctet(y: nat, d: nat, low: nat, a: nat, z: nat, i: nat)
    requires low < d && y == d * (a + 256 * z) + low
    ensures (y / d + i) % TWO_32 % 256 == (a + i) % 256
  {
    DivUnique(y, d, a + 256 * z, low);
    LowOctet(a + 256 * z, a, z, i);
  }

  lemma LowOctet(y: nat, a: nat, z: nat, i: nat)
    requires y == a + 256 * z
    ensures (y + i) % TWO_32 % 256 == (a + i) % 256
  {
    var n := y + i;
    assert n == TWO_32 * (n / TWO_32) + n % TWO_32;
    assert n % TWO_32 == a + i + 256 * (z - 16777216 * (n / TWO_32));
  }

  /** The generator of section 5.3.5.1 of RFC 6330: for the octets of y, its result is the residue of the one number
      whose binary digits are the parities of the digits of the four table entries. */
  lemma FecRandIs(tables: RandTables, y: nat, y0: nat, y1: nat, y2: nat, y3: nat, i: nat, m: nat, x: nat)
    requires tables.Valid() && OctetsOf(y, y0, y1, y2, y3) && m > 0
    requires forall j: nat :: Bit(x, j) == TableDigit(tables, y0, y1, y2, y3, i, j)
    ensures FecRand(tables, y, i, m) == x % m
  {
    forall j: nat
      ensures Bit(x, j) == Bit(RandNumber(tables, y, i), j)
    {
      RandDigits(tables, y, y0, y1, y2, y3, i, j);
      assert Bit(x, j) == TableDigit(tables, y0, y1, y2, y3, i, j);
    }
    DigitsDecide(x, RandNumber(tables, y, i));
  }

  /** There is such a number, and modulo a power of two its lower digits are left. */
  lemma FecRandDigits(tables: RandTables, y: nat, y0: nat, y1: nat, y2: nat, y3: nat, i: nat, k: nat) returns (x: nat)
    requires tables.Valid() && OctetsOf(y, y0, y1, y2, y3)
    ensures forall j: nat :: Bit(x, j) == TableDigit(tables, y0, y1, y2, y3, i, j)
    ensures forall m: nat :: m > 0 ==> FecRand(tables, y, i, m) == x % m
    ensures forall j: nat :: j < k ==> Bit(FecRand(tables, y, i, Pow2(k)), j) == TableDigit(tables, y0, y1, y2, y3, i, j)
  {
    x := RandNumber(tables, y, i);
    forall j: nat
      ensures Bit(x, j) == TableDigit(tables, y0, y1, y2, y3, i, j)
      ensures j < k ==> Bit(FecRand(tables, y, i, Pow2(k)), j) == Bit(x, j)
    {
      RandDigits(tables, y, y0, y1, y2, y3, i, j);
      if j < k {
        DigitsBelow(x, k, j);
      }
    }
  }

  /** The least d from k on whose distribution value exceeds v. */
  ghost function DegreeFrom(tables: RandTables, v: nat, k: nat): (d: nat)
    requires tables.Valid() && v < TWO_20 && k <= 30
    ensures k <= d <= 30 && v < tables.degree[d]
    decreases 30 - k
  {
    if k == 30 || v < tables.degree[k] then k else DegreeFrom(tables, v, k + 1)
  }

  /** The degree function Deg[v] of section 5.3.5.2, capped at W - 2. */
  ghost function Degree(tables: RandTables, v: nat, W: nat): nat
    requires tables.Valid() && v < TWO_20 && W >= 2
  {
    var d := DegreeFrom(tables, v, 1);
    if d < W - 2 then d else W - 2
  }

  method ChooseDegree(tables: RandTables, v: nat, W: nat) returns (degree: nat)
    requires tables.Valid() && v < TWO_20 && W >= 3
    ensures degree == Degree(tables, v, W)
  {
    degree := 0;
    var d := 1;
    while d < 31
      invariant 1 <= d <= 31
      invariant d <= DegreeFrom(tables, v, 1)
      invariant d <= 30 ==> DegreeFrom(tables, v, d) == DegreeFrom(tables, v, 1)
      decreases 31 - d
    {
      if v < tables.degree[d] {
        degree := if d < W - 2 then d else W - 2;
        return;
      }
      d := d + 1;
    }
  }

  ghost function SeedY(param: Param, isi: nat): nat {
    var A := 53591 + param.J * 997;
    (10267 * (param.J + 1) + isi * (if A % 2 == 0 then A + 1 else A)) % TWO_32
  }

  /** The tuple generator as section 5.3.5.4 defines it; d1 has two values only for low degrees. */
  ghost function StandardTuple(tables: RandTables, param: Param, isi: nat): (t: Tuple)
    requires tables.Valid() && param.W >= 3 && param.P1 >= 2
  {
    var y, x := SeedY(param, isi), isi % TWO_32;
    var d := Degree(tables, FecRand(tables, y, 0, TWO_20), param.W);
    Tuple(d,
          1 + FecRand(tables, y, 1, param.W - 1),
          FecRand(tables, y, 2, param.W),
          if d < 4 then 2 + FecRand(tables, x, 3, 2) else 2,
          1 + FecRand(tables, x, 4, param.P1 - 1),
          FecRand(tables, x, 5, param.P1))
  }

  lemma StandardTupleIsValid(tables: RandTables, param: Param, isi: nat)
    requires tables.Valid() && ValidCode(param)
    ensures ValidTuple(param, StandardTuple(tables, param, isi))
  {
  }

  method Seed(param: Param, isi: nat) returns (y: nat)
    ensures y == SeedY(param, isi) < TWO_32
  {
    var A := 53591 + param.J * 997;
    if A % 2 == 0 {
      A := A + 1;
    }
    var B1 := 10267 * (param.J + 1);
    y := (B1 + isi * A) % TWO_32;
  }

  /** The tuple of an internal symbol id. */
  method GenTuple(tables: RandTables, param: Param, isi: nat) returns (t: Tuple)
    requires tables.Valid() && ValidCode(param)
    ensures t == StandardTuple(tables, param, isi) && ValidTuple(param, t)
  {
    var y := Seed(param, isi);
    var v := FecRand(tables, y, 0, TWO_20);
    var d := ChooseDegree(tables, v, param.W);
    var a := 1 + FecRand(tables, y, 1, param.W - 1);
    var b := FecRand(tables, y, 2, param.W);
    var d1;
    if d < 4 {
      d1 := 2 + FecRand(tables, isi % TWO_32, 3, 2);
    } else {
      d1 := 2;
    }
    var a1 := 1 + FecRand(tables, isi % TWO_32, 4, param.P1 - 1);
    var b1 := FecRand(tables, isi % TWO_32, 5, param.P1);
    t := Tuple(d, a, b, d1, a1, b1);
    StandardTupleIsValid(tables, param, isi);
  }

  ghost predicate BelowAt(param: Param, t: Tuple, n: nat) {
    param.P1 > 0 && Walk(t.b1, t.a1, param.P1, n) < param.P
  }

  /** Among any P1 steps of the walk one is below P: the loop that skips the others ends because P1 is prime. */
  lemma SomeStepBelow(param: Param, t: Tuple, from: nat)
    requires ValidCode(param) && ValidTuple(param, t)
    ensures exists n: nat :: from <= n < from + param.P1 && BelowAt(param, t, n)
  {
    var n := WalkVisits(t.b1, t.a1, param.P1, from, 0);
    assert BelowAt(param, t, n);
  }

  lemma {:induction false} LeastStep(param: Param, t: Tuple, from: nat, n: nat) returns (m: nat)
    requires from <= n && BelowAt(param, t, n)
    ensures from <= m <= n && BelowAt(param, t, m) && forall k :: from <= k < m ==> !BelowAt(param, t, k)
  {
    if k :| from <= k < n && BelowAt(param, t, k) {
      m := LeastStep(param, t, from, k);
    } else {
      m := n;
    }
  }

  lemma NextExists(param: Param, t: Tuple, from: nat)
    requires ValidCode(param) && ValidTuple(param, t)
    ensures exists m: nat :: from <= m < from + param.P1 && BelowAt(param, t, m) && forall k :: from <= k < m ==> !BelowAt(param, t, k)
  {
    SomeStepBelow(param, t, from);
    var n: nat :| from <= n < from + param.P1 && BelowAt(param, t, n);
    var m := LeastStep(param, t, from, n);
  }

  /** The first step from a given one on at which the walk is below P. */
  ghost function NextBelow(param: Param, t: Tuple, from: nat): (m: nat)
    requires ValidCode(param) && ValidTuple(param, t)
    ensures from <= m < from + param.P1 && BelowAt(param, t, m) && forall k :: from <= k < m ==> !BelowAt(param, t, k)
  {
    NextExists(param, t, from);
    var m: nat :| from <= m < from + param.P1 && BelowAt(param, t, m) && forall k :: from <= k < m ==> !BelowAt(param, t, k);
    m
  }

  /** The step of the walk at which the search for the k-th permanently inactive symbol starts. */
  ghost function StartStep(param: Param, t: Tuple, k: nat): nat
    requires ValidCode(param) && ValidTuple(param, t)
    decreases k, 0
  {
    if k == 0 then 0 else PIStep(param, t, k - 1) + 1
  }

  /** The step of the walk that gives the k-th index among the permanently inactive symbols. */
  ghost function PIStep(param: Param, t: Tuple, k: nat): (m: nat)
    requires ValidCode(param) && ValidTuple(param, t)
    ensures BelowAt(param, t, m)
    decreases k, 1
  {
    NextBelow(param, t, StartStep(param, t, k))
  }

  /** The indexes of the first n LT symbols. */
  ghost function LTIndexes(param: Param, t: Tuple, n: nat): (s: seq<nat>)
    requires param.W > 0
    ensures |s| == n
  {
    if n == 0 then [] else LTIndexes(param, t, n - 1) + [Walk(t.b, t.a, param.W, n - 1)]
  }

  /** The indexes of the first n permanently inactive symbols. */
  ghost function PIIndexes(param: Param, t: Tuple, n: nat): (s: seq<nat>)
    requires ValidCode(param) && ValidTuple(param, t)
    ensures |s| == n
  {
    if n == 0 then [] else PIIndexes(param, t, n - 1) + [param.W + Walk(t.b1, t.a1, param.P1, PIStep(param, t, n - 1))]
  }

  lemma {:induction false} LTIndexAt(param: Param, t: Tuple, n: nat, j: nat)
    requires param.W > 0 && j < n
    ensures LTIndexes(param, t, n)[j] == Walk(t.b, t.a, param.W, j)
  {
    if j < n - 1 {
      LTIndexAt(param, t, n - 1, j);
    }
  }

  lemma {:induction false} PIIndexAt(param: Param, t: Tuple, n: nat, k: nat)
    requires ValidCode(param) && ValidTuple(param, t) && k < n
    ensures PIIndexes(param, t, n)[k] == param.W + Walk(t.b1, t.a1, param.P1, PIStep(param, t, k))
  {
    if k < n - 1 {
      PIIndexAt(param, t, n - 1, k);
    }
  }

  /** The intermediate symbols whose sum is the encoding symbol (section 5.3.5.3). */
  ghost function TupleIndexes(param: Param, t: Tuple): seq<nat>
    requires ValidCode(param) && ValidTuple(param, t)
  {
    LTIndexes(param, t, t.d) + PIIndexes(param, t, t.d1)
  }

  /** A list of different symbol numbers below L. */
  ghost predicate IsIndexList(L: nat, s: seq<nat>) {
    && s != [] && (forall k :: 0 <= k < |s| ==> s[k] < L)
    && forall j, k :: 0 <= j < k < |s| ==> s[j] != s[k]
  }

  /** Three values below P are visited in every P1 steps, so the first three hits are at different places. */
  lemma PIStepsClose(param: Param, t: Tuple)
    requires ValidCode(param) && ValidTuple(param, t)
    ensures PIStep(param, t, 0) < PIStep(param, t, 1) < PIStep(param, t, 2) < PIStep(param, t, 0) + param.P1
  {
    var h0, h1, h2 := PIStep(param, t, 0), PIStep(param, t, 1), PIStep(param, t, 2);
    var v0, v1 := Walk(t.b1, t.a1, param.P1, h0), Walk(t.b1, t.a1, param.P1, h1);
    var x := if v0 == 0 then 1 else 0;
    var m := WalkVisits(t.b1, t.a1, param.P1, h0, x);
    assert BelowAt(param, t, m) && m != h0;
    assert h1 <= m;
    var y := if v0 != 0 && v1 != 0 then 0 else if v0 != 1 && v1 != 1 then 1 else 2;
    var n := WalkVisits(t.b1, t.a1, param.P1, h0, y);
    assert BelowAt(param, t, n) && n != h0 && n != h1;
    assert h2 <= n;
  }

  lemma LTIndexesDistinct(param: Param, t: Tuple, j: nat, k: nat)
    requires ValidCode(param) && ValidTuple(param, t) && k < t.d
    ensures LTIndexes(param, t, t.d)[k] < param.W
    ensures j < k ==> LTIndexes(param, t, t.d)[j] != LTIndexes(param, t, t.d)[k]
  {
    LTIndexAt(param, t, t.d, k);
    if j < k {
      LTIndexAt(param, t, t.d, j);
      WalkInjective(t.b, t.a, param.W, j, k);
    }
  }

  lemma PIIndexesDistinct(param: Param, t: Tuple, j: nat, k: nat)
    requires ValidCode(param) && ValidTuple(param, t) && k < t.d1
    ensures param.W <= PIIndexes(param, t, t.d1)[k] < param.L
    ensures j < k ==> PIIndexes(param, t, t.d1)[j] != PIIndexes(param, t, t.d1)[k]
  {
    PIIndexAt(param, t, t.d1, k);
    assert BelowAt(param, t, PIStep(param, t, k));
    if j < k {
      PIIndexAt(param, t, t.d1, j);
      PIStepsClose(param, t);
      WalkInjective(t.b1, t.a1, param.P1, PIStep(param, t, j), PIStep(param, t, k));
    }
  }

  /** All indexes of a tuple are below L, and no two are equal. */
  lemma TupleIndexesDistinct(param: Param, t: Tuple)
    requires ValidCode(param) && ValidTuple(param, t)
    ensures IsIndexList(param.L, TupleIndexes(param, t))
  {
    var s := TupleIndexes(param, t);
    forall k | 0 <= k < |s|
      ensures s[k] < param.L && (s[k] < param.W <==> k < t.d)
    {
      if k < t.d {
        LTIndexesDistinct(param, t, k, k);
      } else {
        PIIndexesDistinct(param, t, k - t.d, k - t.d);
      }
    }
    forall j, k | 0 <= j < k < |s|
      ensures s[j] != s[k]
    {
      if k < t.d {
        LTIndexesDistinct(param, t, j, k);
      } else if j >= t.d {
        PIIndexesDistinct(param, t, j - t.d, k - t.d);
      }
    }
  }

  lemma NotYet(param: Param, t: Tuple, k: nat, n: nat)
    requires ValidCode(param) && ValidTuple(param, t) && n <= PIStep(param, t, k)
    requires Walk(t.b1, t.a1, param.P1, n) >= param.P
    ensures n < PIStep(param, t, k)
    ensures Walk(t.b1, t.a1, param.P1, n + 1) == (Walk(t.b1, t.a1, param.P1, n) + t.a1) % param.P1
  {
    assert BelowAt(param, t, PIStep(param, t, k));
  }

  lemma FirstHit(param: Param, t: Tuple, k: nat, n: nat)
    requires ValidCode(param) && ValidTuple(param, t) && StartStep(param, t, k) <= n <= PIStep(param, t, k)
    requires Walk(t.b1, t.a1, param.P1, n) < param.P
    ensures n == PIStep(param, t, k)
  {
    assert BelowAt(param, t, n);
  }

  /** Steps b1 until it is below P. */
  method SkipToBelow(param: Param, t: Tuple, b1: nat, ghost k: nat) returns (r: nat)
    requires ValidCode(param) && ValidTuple(param, t) && b1 == Walk(t.b1, t.a1, param.P1, StartStep(param, t, k))
    ensures r == Walk(t.b1, t.a1, param.P1, PIStep(param, t, k)) && r < param.P
  {
    r := b1;
    ghost var n, end := StartStep(param, t, k), PIStep(param, t, k);
    while r >= param.P
      invariant StartStep(param, t, k) <= n <= end && r == Walk(t.b1, t.a1, param.P1, n)
      decreases end - n
    {
      NotYet(param, t, k, n);
      r := (r + t.a1) % param.P1;
      n := n + 1;
    }
    FirstHit(param, t, k, n);
  }

  /** Writes the LT indexes as octets. */
  method WriteLTIndexes(param: Param, t: Tuple, idxes: array<nat>) returns (ptr: nat)
    requires ValidCode(param) && ValidTuple(param, t) && idxes.Length >= 33
    modifies idxes
    ensures ptr == t.d && idxes[..ptr] == LTIndexes(param, t, t.d)
  {
    var b := t.b;
    WalkStart(t.b, t.a, param.W);
    idxes[0] := b % 256;
    ptr := 1;
    for j := 1 to t.d
      invariant ptr == j && b == Walk(t.b, t.a, param.W, j - 1)
      invariant idxes[..j] == LTIndexes(param, t, j)
    {
      b := (b + t.a) % param.W;
      idxes[ptr] := b % 256;
      ptr := ptr + 1;
      assert idxes[..j + 1] == idxes[..j] + [b];
    }
  }

  /** Writes the indexes of a tuple as octets and returns how many there are. */
  method GetIntermediateSymbolIdxFromTuple(param: Param, t: Tuple, idxes: array<nat>) returns (ptr: nat)
    requires ValidCode(param) && ValidTuple(param, t) && idxes.Length >= 33
    modifies idxes
    ensures ptr <= idxes.Length && idxes[..ptr] == TupleIndexes(param, t)
  {
    ptr := WriteLTIndexes(param, t, idxes);
    WalkStart(t.b1, t.a1, param.P1);
    var b1 := SkipToBelow(param, t, t.b1, 0);
    idxes[ptr] := (param.W + b1) % 256;
    ptr := ptr + 1;
    assert idxes[..ptr] == LTIndexes(param, t, t.d) + PIIndexes(param, t, 1);
    for j := 1 to t.d1
      invariant ptr == t.d + j && b1 == Walk(t.b1, t.a1, param.P1, PIStep(param, t, j - 1))
      invariant idxes[..t.d + j] == LTIndexes(param, t, t.d) + PIIndexes(param, t, j)
    {
      b1 := WriteNext(param, t, idxes, b1, j, ptr);
      ptr := ptr + 1;
    }
  }

  /** Writes the j-th index among the permanently inactive symbols, from the state after the one before. */
  method WriteNext(param: Param, t: Tuple, idxes: array<nat>, b1: nat, j: nat, ptr: nat) returns (r: nat)
    requires ValidCode(param) && ValidTuple(param, t) && 1 <= j && ptr == t.d + j < idxes.Length
    requires b1 == Walk(t.b1, t.a1, param.P1, PIStep(param, t, j - 1))
    requires idxes[..ptr] == LTIndexes(param, t, t.d) + PIIndexes(param, t, j)
    modifies idxes
    ensures r == Walk(t.b1, t.a1, param.P1, PIStep(param, t, j))
    ensures idxes[..ptr + 1] == LTIndexes(param, t, t.d) + PIIndexes(param, t, j + 1)
  {
    ghost var before := idxes[..ptr];
    r := (b1 + t.a1) % param.P1;
    StartsAfter(param, t, b1, j);
    r := SkipToBelow(param, t, r, j);
    var octet := (param.W + r) % 256;
    SmallIndex(param, r);
    idxes[ptr] := octet;
    assert idxes[..ptr + 1] == before + [octet];
    PIIndexesNext(param, t, j, octet);
  }

  lemma StartsAfter(param: Param, t: Tuple, b1: nat, j: nat)
    requires ValidCode(param) && ValidTuple(param, t) && 1 <= j && b1 == Walk(t.b1, t.a1, param.P1, PIStep(param, t, j - 1))
    ensures (b1 + t.a1) % param.P1 == Walk(t.b1, t.a1, param.P1, StartStep(param, t, j))
  {
  }

  lemma SmallIndex(param: Param, r: nat)
    requires ValidCode(param) && r < param.P
    ensures (param.W + r) % 256 == param.W + r
  {
  }

  lemma PIIndexesNext(param: Param, t: Tuple, j: nat, x: nat)
    requires ValidCode(param) && ValidTuple(param, t) && x == param.W + Walk(t.b1, t.a1, param.P1, PIStep(param, t, j))
    ensures LTIndexes(param, t, t.d) + PIIndexes(param, t, j + 1) == LTIndexes(param, t, t.d) + PIIndexes(param, t, j) + [x]
  {
  }

  lemma WalkStart(b: nat, a: nat, p: nat)
    requires b < p
    ensures Walk(b, a, p, 0) == b
  {
  }
}
