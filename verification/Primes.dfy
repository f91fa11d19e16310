/** Walks around a circle of prime length: b, b + a, b + 2a, ... modulo p visits every residue once in any p
    consecutive steps. */
module Primes {
  import opened Permutations

  ghost predicate Divides(k: nat, n: nat) {
    k > 0 && n % k == 0
  }

  ghost predicate IsPrime(p: nat) {
    p >= 2 && forall k: nat {:trigger Divides(k, p)} :: 2 <= k < p ==> !Divides(k, p)
  }

  /** Where the walk is after n steps. */
  function Walk(b: nat, a: nat, p: nat, n: nat): (r: nat)
    requires p > 0
    ensures r < p
  {
    if n == 0 then b % p else (Walk(b, a, p, n - 1) + a) % p
  }

  lemma {:induction false} WalkClosed(b: nat, a: nat, p: nat, n: nat)
    requires p > 0
    ensures Walk(b, a, p, n) == (b + n * a) % p
  {
    if n > 0 {
      WalkClosed(b, a, p, n - 1);
      AddMod(b + (n - 1) * a, a, p);
      assert b + (n - 1) * a + a == b + n * a;
    }
  }

  lemma ModOfMultiple(p: nat, q: int)
    requires p > 0
    ensures (p * q) % p == 0
  {
    ModUnique(p * q, p, q, 0);
  }

  /** Quotient and remainder are unique. */
  lemma ModUnique(x: int, p: nat, q: int, r: nat)
    requires p > 0 && r < p && x == p * q + r
    ensures x % p == r && x / p == q
  {
    var q', r' := x / p, x % p;
    assert x == p * q' + r';
    SmallMultiple(p, q - q', r' - r);
  }

  lemma SmallMultiple(p: nat, k: int, d: int)
    requires p * k == d && 0 - p < d < p
    ensures k == 0
  {
    if k >= 1 {
      MulAtLeast(p, k);
    }
    if k <= -1 {
      MulAtLeast(p, -k);
    }
  }

  lemma MulAtLeast(p: nat, k: int)
    requires k >= 1
    ensures p * k >= p
  {
  }

  lemma DividesSum(x: int, y: int, p: nat)
    requires p > 0 && x % p == 0 && y % p == 0
    ensures (x + y) % p == 0 && (x - y) % p == 0
  {
    var i, j := x / p, y / p;
    assert x == p * i && y == p * j;
    assert x + y == p * (i + j) && x - y == p * (i - j);
    ModOfMultiple(p, i + j);
    ModOfMultiple(p, i - j);
  }

  lemma DividesProduct(x: int, y: int, p: nat)
    requires p > 0 && x % p == 0
    ensures (y * x) % p == 0
  {
    var i := x / p;
    assert x == p * i;
    assert y * x == p * (y * i);
    ModOfMultiple(p, y * i);
  }

  /** The least positive k with p dividing k * a. */
  lemma {:induction false} LeastMultiplier(a: nat, p: nat, m: nat) returns (k: nat)
    requires p > 0 && 0 < m && (m * a) % p == 0
    ensures 0 < k <= m && (k * a) % p == 0 && forall j :: 0 < j < k ==> (j * a) % p != 0
  {
    if j :| 0 < j < m && (j * a) % p == 0 {
      k := LeastMultiplier(a, p, j);
    } else {
      k := m;
    }
  }

  lemma LeastMultiplierDivides(a: nat, p: nat, k: nat)
    requires p > 0 && 0 < k && (k * a) % p == 0 && forall j :: 0 < j < k ==> (j * a) % p != 0
    ensures p % k == 0
  {
    var q, r := p / k, p % k;
    ModOfMultiple(p, a);
    DividesProduct(k * a, q, p);
    DividesSum(p * a, q * (k * a), p);
    Distribute(q, k, r, a, p);
  }

  /** Euclid's lemma for factors below the prime. */
  lemma PrimeProduct(m: nat, a: nat, p: nat)
    requires IsPrime(p) && 0 < m < p && 0 < a < p
    ensures (m * a) % p != 0
  {
    assert (1 * a) % p == a;
    if (m * a) % p == 0 {
      var k := LeastMultiplier(a, p, m);
      LeastMultiplierDivides(a, p, k);
      assert Divides(k, p);
    }
  }

  lemma Distribute(q: nat, k: nat, r: nat, a: nat, p: nat)
    requires p == q * k + r
    ensures p * a - q * (k * a) == r * a
  {
    assert p * a == (q * k) * a + r * a;
    assert (q * k) * a == q * (k * a);
  }

  lemma SameResidue(x: nat, y: nat, p: nat)
    requires p > 0 && x % p == y % p
    ensures (y - x) % p == 0
  {
    var i, j, r := x / p, y / p, x % p;
    assert x == p * i + r && y == p * j + r;
    assert y - x == p * (j - i);
    ModOfMultiple(p, j - i);
  }

  /** Fewer than p steps apart, the walk is at different places. */
  lemma WalkInjective(b: nat, a: nat, p: nat, m: nat, n: nat)
    requires IsPrime(p) && 0 < a < p && m < n < m + p
    ensures Walk(b, a, p, m) != Walk(b, a, p, n)
  {
    WalkClosed(b, a, p, m);
    WalkClosed(b, a, p, n);
    var x, y := b + m * a, b + n * a;
    assert y - x == (n - m) * a;
    PrimeProduct(n - m, a, p);
    if x % p == y % p {
      SameResidue(x, y, p);
    }
  }

  ghost function Visits(b: nat, a: nat, p: nat, from: nat): (s: seq<nat>)
    requires p > 0
    ensures |s| == p && forall k :: 0 <= k < p ==> s[k] == Walk(b, a, p, from + k)
  {
    seq<nat>(p, k requires k >= 0 => Walk(b, a, p, from + k))
  }

  /** Within any p consecutive steps the walk visits every residue. */
  lemma WalkVisits(b: nat, a: nat, p: nat, from: nat, v: nat) returns (n: nat)
    requires IsPrime(p) && 0 < a < p && v < p
    ensures from <= n < from + p && Walk(b, a, p, n) == v
  {
    var s := Visits(b, a, p, from);
    forall j: nat, k: nat
      ensures Differ(s, j, k)
    {
      if j < k < p {
        WalkInjective(b, a, p, from + j, from + k);
      } else if k < j < p {
        WalkInjective(b, a, p, from + k, from + j);
      }
    }
    var k := Hits(s, v);
    n := from + k;
  }

  lemma AddMod(x: nat, a: nat, p: nat)
    requires p > 0
    ensures (x % p + a) % p == (x + a) % p
  {
    var q, r := x / p, x % p;
    var q', r' := (r + a) / p, (r + a) % p;
    assert x + a == p * (q + q') + r' by {
      assert x == p * q + r && r + a == p * q' + r';
    }
    ModUnique(x + a, p, q + q', r');
  }
}
