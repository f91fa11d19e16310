/** Frame ids are 16-bit numbers that wrap around (FrameIdComparer in src/frmqueue.h, lines 12-39). */
module FrameIds {
  const WRAP := 65536

  function Distance(later: nat, prev: nat): (d: nat)
    ensures d < WRAP
  {
    (later - prev) % WRAP
  }

  predicate IsLater(later: nat, prev: nat) {
    later != prev && Distance(later, prev) < 0x8000
  }

  predicate IsEarlier(earlier: nat, later: nat) {
    later != earlier && Distance(later, earlier) < 0x8000
  }

  predicate IsNotLater(notlater: nat, prev: nat) {
    notlater == prev || Distance(prev, notlater) < 0x8000
  }

  predicate IsNotEarlier(notEarlier: nat, prev: nat) {
    notEarlier == prev || Distance(notEarlier, prev) < 0x8000
  }

  /** Id k places after b. */
  function Ahead(b: nat, k: nat): (f: nat)
    ensures f < WRAP
  {
    (b + k) % WRAP
  }

  lemma AheadNext(b: nat, k: nat)
    ensures Ahead(Ahead(b, k), 1) == Ahead(b, k + 1)
  {
  }

  lemma AheadDistance(b: nat, k: nat)
    requires b < WRAP && k < WRAP
    ensures Distance(Ahead(b, k), b) == k
  {
  }

  lemma DistanceAhead(f: nat, b: nat)
    requires f < WRAP && b < WRAP
    ensures Ahead(b, Distance(f, b)) == f
  {
  }

  /** Distances from a place further on. */
  lemma DistanceFrom(f: nat, b: nat, n: nat)
    requires f < WRAP && b < WRAP && n < WRAP
    ensures Distance(f, Ahead(b, n)) == if n <= Distance(f, b) then Distance(f, b) - n else Distance(f, b) - n + WRAP
  {
  }

  lemma DistanceReversed(f: nat, b: nat)
    requires f < WRAP && b < WRAP
    ensures Distance(b, f) == if f == b then 0 else WRAP - Distance(f, b)
  {
  }

  /** Among ids less than half the range apart, being later is a total order that adding a constant keeps: exactly
      one of earlier, equal and later holds, unless the ids are exactly half the range apart. */
  lemma Trichotomy(a: nat, b: nat)
    requires a < WRAP && b < WRAP
    ensures IsEarlier(a, b) <==> IsLater(b, a)
    ensures !(IsLater(a, b) && IsEarlier(a, b))
    ensures (IsLater(a, b) || a == b || IsEarlier(a, b)) <==> Distance(a, b) != 0x8000
    ensures IsNotLater(a, b) <==> a == b || IsEarlier(a, b)
    ensures IsNotEarlier(a, b) <==> a == b || IsLater(a, b)
  {
    DistanceReversed(a, b);
  }

  lemma LaterTransitive(a: nat, b: nat, c: nat)
    requires a < WRAP && b < WRAP && c < WRAP && IsLater(c, b) && IsLater(b, a) && Distance(b, a) + Distance(c, b) < 0x8000
    ensures IsLater(c, a) && Distance(c, a) == Distance(b, a) + Distance(c, b)
  {
    DistanceAhead(b, a);
    DistanceFrom(c, a, Distance(b, a));
  }
}
