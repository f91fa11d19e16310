/** The chain of src/fchain.h: items in segments of N, appended at the end and removed by whole segments from the front. */
module Chains {
  /** The items of the segments in order. */
  function Flat<T>(segments: seq<seq<T>>): seq<T> {
    if segments == [] then [] else Flat(segments[..|segments| - 1]) + segments[|segments| - 1]
  }

  /** The first segment comes first. */
  lemma {:induction false} FlatFirst<T>(segments: seq<seq<T>>)
    requires segments != []
    ensures Flat(segments) == segments[0] + Flat(segments[1..])
  {
    if |segments| == 1 {
      assert segments[..0] == [] && segments[1..] == [];
    } else {
      var front := segments[..|segments| - 1];
      FlatFirst(front);
      assert front[1..] == segments[1..][..|segments| - 2];
    }
  }

  /** All segments but the last are full, and none is empty. */
  ghost predicate Shaped<T>(segments: seq<seq<T>>, N: nat) {
    && (forall j {:trigger segments[j]} :: 0 <= j < |segments| ==> 0 < |segments[j]| <= N)
    && (forall j {:trigger segments[j]} :: 0 <= j < |segments| - 1 ==> |segments[j]| == N)
  }

  lemma {:induction false} FlatLength<T>(segments: seq<seq<T>>, N: nat)
    requires Shaped(segments, N) && segments != []
    ensures |Flat(segments)| == (|segments| - 1) * N + |segments[|segments| - 1]|
  {
    var front := segments[..|segments| - 1];
    if front != [] {
      FlatLength(front, N);
      assert (|segments| - 2) * N + N == (|segments| - 1) * N;
    }
  }

  /** Item k of a chain. */
  lemma {:induction false} FlatAt<T>(segments: seq<seq<T>>, N: nat, j: nat, i: nat)
    requires Shaped(segments, N) && j < |segments| && i < |segments[j]|
    ensures j * N + i < |Flat(segments)| && Flat(segments)[j * N + i] == segments[j][i]
  {
    var front := segments[..|segments| - 1];
    if front != [] {
      FlatLength(front, N);
      assert (|segments| - 2) * N + N == (|segments| - 1) * N;
    }
    if j < |segments| - 1 {
      FlatAt(front, N, j, i);
    }
  }

  /** The segments with one more item. */
  function Extended<T>(segments: seq<seq<T>>, t: T, N: nat): seq<seq<T>> {
    if segments == [] || |segments[|segments| - 1]| >= N then segments + [[t]]
    else segments[|segments| - 1 := segments[|segments| - 1] + [t]]
  }

  lemma ExtendedFlat<T>(segments: seq<seq<T>>, t: T, N: nat)
    requires N > 0 && Shaped(segments, N)
    ensures Shaped(Extended(segments, t, N), N) && Flat(Extended(segments, t, N)) == Flat(segments) + [t]
    ensures |segments| > 0 && |segments[0]| == N ==> Extended(segments, t, N)[0] == segments[0]
    ensures |Extended(segments, t, N)| >= |segments|
  {
    var r := Extended(segments, t, N);
    if segments == [] || |segments[|segments| - 1]| >= N {
      assert r[..|r| - 1] == segments;
    } else {
      assert r[..|r| - 1] == segments[..|segments| - 1];
      assert Flat(r) == Flat(segments[..|segments| - 1]) + (segments[|segments| - 1] + [t]);
    }
  }

  /** Where number idx falls among n parts of N, the last of which has r. */
  lemma DivideAmong(idx: nat, N: nat, n: nat, r: nat)
    requires 0 < n && 0 < r <= N && idx < (n - 1) * N + r
    ensures idx / N < n && idx % N < N && idx == idx / N * N + idx % N && (idx / N == n - 1 ==> idx % N < r)
  {
    var j := idx / N;
    assert idx == j * N + idx % N;
    var d := if j >= n then j - n else 0;
    assert (n + d) * N == (n - 1) * N + N + d * N;
  }

  lemma ItemOf<T>(segments: seq<seq<T>>, N: nat, j: nat, i: nat, idx: nat)
    requires Shaped(segments, N) && j < |segments| && i < N && idx == j * N + i && (j == |segments| - 1 ==> i < |segments[j]|)
    ensures i < |segments[j]| && idx < |Flat(segments)| && Flat(segments)[idx] == segments[j][i]
  {
    FlatAt(segments, N, j, i);
  }

  /** A place in the chain: segment j, item i in it, and item idx of all. */
  datatype Looper = Looper(j: nat, i: nat, idx: nat)

  class Chain<T(0)> {
    const N: nat
    /** The list of segments, first to last. */
    var segments: seq<seq<T>>
    var count: nat
    var chainCnt: nat

    ghost predicate Valid()
      reads this
    {
      N > 0 && Shaped(segments, N) && count == |Flat(segments)| && chainCnt == |segments|
    }

    ghost function Items(): seq<T>
      reads this
    {
      Flat(segments)
    }

    constructor (n: nat)
      requires n > 0
      ensures Valid() && N == n && Items() == []
    {
      N, segments, count, chainCnt := n, [], 0, 0;
    }

    method AppendItem(t: T)
      requires Valid()
      modifies this
      ensures Valid() && Items() == old(Items()) + [t] && segments == Extended(old(segments), t, N)
    {
      ghost var before := segments;
      if segments == [] || |segments[|segments| - 1]| >= N {
        chainCnt := chainCnt + 1;
        segments := segments + [[t]];
      } else {
        segments := segments[|segments| - 1 := segments[|segments| - 1] + [t]];
      }
      count := count + 1;
      ExtendedFlat(before, t, N);
    }

    /** Removes the first segNum segments. */
    method RemoveFirstNSegment(segNum: nat)
      requires Valid() && segNum <= chainCnt
      modifies this
      ensures Valid() && segments == old(segments)[segNum..]
      ensures segNum < old(chainCnt) ==> segNum * N <= |old(Items())| && Items() == old(Items())[segNum * N..]
    {
      if segNum == chainCnt {
        segments, count, chainCnt := [], 0, 0;
        assert old(segments)[segNum..] == [];
      } else {
        var n: nat := segNum;
        ghost var all, k := Items(), 0;
        while n > 0
          invariant Valid() && k + n == segNum && n < |segments| && k <= |old(segments)| && segments == old(segments)[k..]
          invariant k * N <= |all| && Items() == all[k * N..]
        {
          assert k * N + N == (k + 1) * N;
          RemoveFirst();
          n, k := n - 1, k + 1;
        }
        assert k == segNum;
      }
    }

    /** Removes the first of several segments. */
    method RemoveFirst()
      requires Valid() && |segments| > 1
      modifies this
      ensures Valid() && segments == old(segments)[1..] && N <= |old(Items())| && Items() == old(Items())[N..]
    {
      FlatFirst(segments);
      assert |segments[0]| == N;
      segments := segments[1..];
      chainCnt := chainCnt - 1;
      count := count - N;
    }

    /** The place of item idx. */
    method GetLooper(idx: nat) returns (loop: Looper)
      requires Valid() && idx < count
      ensures loop.idx == idx && loop.j < |segments| && loop.i < |segments[loop.j]| && loop.i < N && idx == loop.j * N + loop.i
      ensures segments[loop.j][loop.i] == Items()[idx]
    {
      PlaceOf(idx);
      loop := Looper(idx / N, idx % N, idx);
    }

    lemma PlaceOf(idx: nat)
      requires Valid() && idx < count
      ensures idx / N < |segments| && idx % N < |segments[idx / N]| && idx == idx / N * N + idx % N
      ensures segments[idx / N][idx % N] == Items()[idx]
    {
      var j, i := idx / N, idx % N;
      FlatLength(segments, N);
      DivideAmong(idx, N, |segments|, |segments[|segments| - 1]|);
      ItemOf(segments, N, j, i, idx);
    }

    /** The place after one. */
    method MoveNextLooper(loop: Looper) returns (more: bool, next: Looper)
      requires Valid() && loop.j < |segments| && loop.i < |segments[loop.j]| && loop.idx == loop.j * N + loop.i
      ensures more == (loop.idx + 1 < count)
      ensures more ==> next.idx == loop.idx + 1 && next.j < |segments| && next.i < |segments[next.j]| && next.idx == next.j * N + next.i
      ensures more ==> segments[next.j][next.i] == Items()[next.idx]
    {
      next := loop;
      if loop.idx + 1 >= count {
        return false, next;
      }
      more := true;
      FlatLength(segments, N);
      if loop.i + 1 >= |segments[loop.j]| {
        assert loop.j < |segments| - 1;
        assert loop.j * N + N == (loop.j + 1) * N;
        next := Looper(loop.j + 1, 0, loop.idx + 1);
      } else {
        next := Looper(loop.j, loop.i + 1, loop.idx + 1);
      }
      FlatAt(segments, N, next.j, next.i);
    }
  }
}
