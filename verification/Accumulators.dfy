/** The detector of complete frames of src/accumu.h: it adds up the numbers of the source symbols received, counted
    from 1, and compares the sum with that of all source symbols. */
module Accumulators {

  const INT_LIMIT := 0x8000_0000

  /** The sum of the numbers k + 1 of the symbols k below n that are covered. */
  ghost function Weight(covered: seq<bool>, n: nat): (w: nat)
    requires n <= |covered|
  {
    if n == 0 then 0 else Weight(covered, n - 1) + if covered[n - 1] then n else 0
  }

  lemma {:induction false} WeightBound(covered: seq<bool>, n: nat)
    requires n <= |covered|
    ensures 2 * Weight(covered, n) <= n * (n + 1)
    ensures 2 * Weight(covered, n) == n * (n + 1) <==> forall k :: 0 <= k < n ==> covered[k]
  {
    if n > 0 {
      WeightBound(covered, n - 1);
      assert (n - 1) * n + 2 * n == n * (n + 1);
    }
  }

  /** The symbols begin to end - 1 become covered too. */
  ghost function Cover(covered: seq<bool>, begin: nat, end: nat): (r: seq<bool>)
    ensures |r| == |covered|
    ensures forall k {:trigger r[k]} :: 0 <= k < |r| ==> r[k] == (covered[k] || begin <= k < end)
  {
    seq(|covered|, k requires 0 <= k < |covered| => covered[k] || begin <= k < end)
  }

  /** Covering a range that was not covered adds begin + 1, and so on to end. */
  lemma {:induction false} WeightCover(covered: seq<bool>, begin: nat, end: nat, n: nat)
    requires begin <= end <= |covered| && n <= |covered| && forall k :: begin <= k < end ==> !covered[k]
    ensures 2 * Weight(Cover(covered, begin, end), n) ==
            2 * Weight(covered, n) + if n <= begin then 0 else RangeSum(begin, if n < end then n else end)
  {
    if n > 0 {
      WeightCover(covered, begin, end, n - 1);
      if begin < n <= end {
        RangeSumNext(begin, n - 1);
      }
    }
  }

  /** Twice the sum of begin + 1 to end. */
  ghost function RangeSum(begin: nat, end: nat): int {
    (begin + 1 + end) * (end - begin)
  }

  lemma RangeSumNext(begin: nat, end: nat)
    ensures RangeSum(begin, end + 1) == RangeSum(begin, end) + 2 * (end + 1)
    ensures RangeSum(begin, begin) == 0
  {
  }

  lemma HalfProduct(a: nat, b: nat)
    ensures b % 2 == 0 ==> 2 * (a * (b / 2)) == a * b
  {
    if b % 2 == 0 {
      var h := b / 2;
      assert b == 2 * h;
    }
  }

  /** The sum of a range by its middle, when it has an odd number of elements. */
  lemma MiddleProduct(first: nat, last: nat, cnt: nat)
    requires first <= last && cnt == last - first + 1 && cnt % 2 == 1
    ensures 2 * ((first + cnt / 2) * cnt) == (first + last) * cnt
  {
    var h := cnt / 2;
    assert cnt == 2 * h + 1;
    assert 2 * (first + h) == first + last;
  }

  lemma MulMonotone(a: nat, b: nat, c: nat)
    requires a <= b
    ensures a * c <= b * c
  {
    assert b * c == a * c + (b - a) * c;
  }

  lemma SquareBound(n: nat)
    requires n <= 65535
    ensures n * (n + 1) <= 65535 * 65536
  {
    MulMonotone(n, 65535, n + 1);
  }

  lemma AccumuEven(n: nat)
    requires n <= 65535 && n % 2 == 0
    ensures 2 * ((n + 1) * (n / 2)) == n * (n + 1) && (n + 1) * (n / 2) < INT_LIMIT
  {
    HalfProduct(n + 1, n);
    SquareBound(n);
  }

  lemma AccumuOdd(n: nat)
    requires n <= 65535 && n % 2 == 1
    ensures 2 * (((n + 1) / 2) * n) == n * (n + 1) && ((n + 1) / 2) * n < INT_LIMIT
  {
    HalfProduct(n, n + 1);
    SquareBound(n);
  }

  ghost predicate AllTrue(covered: seq<bool>) {
    forall k {:trigger covered[k]} :: 0 <= k < |covered| ==> covered[k]
  }

  /** accumu is the sum of all numbers, and sum that of the covered ones. */
  ghost predicate Summed(covered: seq<bool>, accumu: nat, sum: nat) {
    2 * accumu == |covered| * (|covered| + 1) && sum == Weight(covered, |covered|)
  }

  /** The sum after a range is added, and when it is the sum of all. */
  lemma SumAfter(covered: seq<bool>, begin: nat, end: nat, rangeSum: nat, accumu: nat, sum: nat)
    requires begin <= end <= |covered| <= 65535 && (forall k :: begin <= k < end ==> !covered[k])
    requires 2 * rangeSum == RangeSum(begin, end) && begin < end && Summed(covered, accumu, sum)
    ensures sum + rangeSum < INT_LIMIT && Summed(Cover(covered, begin, end), accumu, sum + rangeSum)
    ensures sum + rangeSum == accumu <==> AllTrue(Cover(covered, begin, end))
  {
    WeightCover(covered, begin, end, |covered|);
    WeightBound(Cover(covered, begin, end), |covered|);
    SquareBound(|covered|);
  }

  class IntAccumulator {
    var accumu: nat
    const srcNum: nat
    var sum: nat
    var met: bool
    /** Which source symbols were in some range. */
    ghost var covered: seq<bool>

    ghost predicate Complete()
      reads this
    {
      srcNum >= 1 && |covered| == srcNum && AllTrue(covered)
    }

    ghost predicate Valid()
      reads this
    {
      srcNum <= 65535 && |covered| == srcNum && Summed(covered, accumu, sum) && (met <==> Complete())
    }

    constructor (srcNum: nat)
      requires srcNum <= 65535
      ensures Valid() && this.srcNum == srcNum && !met && covered == seq(srcNum, _ => false)
    {
      this.srcNum := srcNum;
      accumu := GenAccumu(srcNum);
      sum, met := 0, false;
      covered := seq(srcNum, _ => false);
      new;
      NothingCovered(covered, srcNum);
      assert srcNum >= 1 ==> !covered[0];
    }

    /** 1 + 2 + ... + srcNum, without exceeding 31 bits on the way. */
    static function GenAccumu(srcNum: nat): (accumu: nat)
      requires srcNum <= 65535
      ensures 2 * accumu == srcNum * (srcNum + 1) && accumu < INT_LIMIT
    {
      if srcNum % 2 == 0 then
        AccumuEven(srcNum);
        (srcNum + 1) * (srcNum / 2)
      else
        AccumuOdd(srcNum);
        ((srcNum + 1) / 2) * srcNum
    }

    /** Adds the source symbols of a range that overlaps none before it. Returns whether all are covered. */
    method AddRange(begin: nat, cnt: nat) returns (all: bool)
      requires Valid() && begin + cnt <= 65536
      requires forall k :: begin <= k < begin + cnt && k < srcNum ==> !covered[k]
      modifies this
      ensures Valid() && covered == Cover(old(covered), begin, begin + cnt) && all == met && (met <==> Complete())
    {
      ghost var before := covered;
      ghost var after := Cover(covered, begin, begin + cnt);
      if met || begin >= srcNum || cnt == 0 {
        assert after == before;
        return met;
      }
      var end := begin + cnt - 1;
      if end > srcNum - 1 {
        end := srcNum - 1;
      }
      var n := end - begin + 1;
      var rangeSum := RangeOf(begin + 1, end + 1, n);
      assert Cover(covered, begin, end + 1) == after;
      SumAfter(covered, begin, end + 1, rangeSum, accumu, sum);
      covered := after;
      sum := sum + rangeSum;
      if sum == accumu {
        met := true;
      }
      all := met;
    }

    /** The sum of the numbers first to last, which are cnt; no intermediate result exceeds 31 bits. */
    static method RangeOf(first: nat, last: nat, cnt: nat) returns (sum: nat)
      requires 1 <= first <= last <= 65535 && cnt == last - first + 1
      ensures 2 * sum == RangeSum(first - 1, last) && sum < INT_LIMIT
    {
      PartBound(first, last, cnt);
      if cnt % 2 == 0 {
        HalfProduct(first + last, cnt);
        sum := (first + last) * (cnt / 2);
      } else {
        MiddleProduct(first, last, cnt);
        sum := (first + cnt / 2) * cnt;
      }
    }

    static lemma PartBound(first: nat, last: nat, cnt: nat)
      requires 1 <= first <= last <= 65535 && cnt == last - first + 1
      ensures (first + last) * cnt <= 65535 * 65536
    {
      assert (first + last) * cnt == last * (last + 1) - (first - 1) * first;
      SquareBound(last);
    }
  }

  lemma {:induction false} NothingCovered(covered: seq<bool>, n: nat)
    requires n <= |covered| && forall k :: 0 <= k < n ==> !covered[k]
    ensures Weight(covered, n) == 0
  {
    if n > 0 {
      NothingCovered(covered, n - 1);
    }
  }
}
