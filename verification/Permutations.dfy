/** Injective index sequences: a list of n different numbers below n contains every one of them. */
module Permutations {
  ghost predicate Differ(s: seq<nat>, j: nat, k: nat) {
    j < |s| && k < |s| && j != k ==> s[j] != s[k]
  }

  ghost predicate IsPermutation(s: seq<nat>) {
    && (forall k :: 0 <= k < |s| ==> s[k] < |s|)
    && (forall j: nat, k: nat {:trigger Differ(s, j, k)} :: Differ(s, j, k))
  }

  /** The sequence whose k-th element is element c[k] of v. */
  function Permute<T>(v: seq<T>, c: seq<nat>): (r: seq<T>)
    requires forall k :: 0 <= k < |c| ==> c[k] < |v|
    ensures |r| == |c|
    ensures forall k {:trigger r[k]} :: 0 <= k < |c| ==> r[k] == v[c[k]]
  {
    seq(|c|, k requires 0 <= k < |c| => v[c[k]])
  }

  function Identity(n: nat): (c: seq<nat>)
    ensures |c| == n && forall k {:trigger c[k]} :: 0 <= k < n ==> c[k] == k
  {
    seq(n, k => k)
  }

  function SwapAt<T>(s: seq<T>, i: nat, j: nat): (r: seq<T>)
    requires i < |s| && j < |s|
    ensures |r| == |s|
    ensures r[i] == s[j] && r[j] == s[i]
    ensures forall k {:trigger r[k]} :: 0 <= k < |s| && k != i && k != j ==> r[k] == s[k]
  {
    s[i := s[j]][j := s[i]]
  }

  /** The numbers below n. */
  ghost function Below(n: nat): (r: set<nat>)
    ensures |r| == n
    ensures forall x: nat :: x in r <==> x < n
  {
    if n == 0 then {} else Below(n - 1) + {n - 1}
  }

  ghost function Elements(s: seq<nat>): (r: set<nat>)
    ensures forall x :: x in r <==> x in s
  {
    if s == [] then {} else Elements(s[..|s| - 1]) + {s[|s| - 1]}
  }

  lemma {:induction false} DistinctElements(s: seq<nat>)
    requires forall j, k :: 0 <= j < k < |s| ==> s[j] != s[k]
    ensures |Elements(s)| == |s|
  {
    if s != [] {
      DistinctElements(s[..|s| - 1]);
    }
  }

  lemma SubsetFull<T>(a: set<T>, b: set<T>)
    requires a <= b && |a| == |b|
    ensures a == b
  {
    assert b == a + (b - a);
    assert |b - a| == 0;
  }

  /** Pigeonhole: a permutation hits every index. */
  lemma Hits(s: seq<nat>, x: nat) returns (k: nat)
    requires IsPermutation(s)
    requires x < |s|
    ensures k < |s| && s[k] == x
  {
    forall j: nat, k: nat | j < k < |s|
      ensures s[j] != s[k]
    {
      assert Differ(s, j, k);
    }
    DistinctElements(s);
    SubsetFull(Elements(s), Below(|s|));
    assert x in s;
    k :| k < |s| && s[k] == x;
  }

  lemma PermuteIsPermutation(c: seq<nat>, s: seq<nat>)
    requires IsPermutation(c) && IsPermutation(s) && |c| == |s|
    ensures IsPermutation(Permute(c, s))
  {
    var r := Permute(c, s);
    forall j: nat, k: nat
      ensures Differ(r, j, k)
    {
      if j < |s| && k < |s| {
        assert Differ(s, j, k) && Differ(c, s[j], s[k]);
      }
    }
  }

  lemma IdentityIsPermutation(n: nat)
    ensures IsPermutation(Identity(n))
  {
  }

  lemma SwapIsPermutation(s: seq<nat>, p: nat, q: nat)
    requires IsPermutation(s) && p < |s| && q < |s|
    ensures IsPermutation(SwapAt(s, p, q))
  {
    var r := SwapAt(s, p, q);
    forall j: nat, k: nat
      ensures Differ(r, j, k)
    {
      var j' := if j == p then q else if j == q then p else j;
      var k' := if k == p then q else if k == q then p else k;
      assert Differ(s, j', k');
    }
  }
}
