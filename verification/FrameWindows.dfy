/** The slots of a frame queue as a window of consecutive ids, and the map from ids to frames it stands for. */
module FrameWindows {
  import opened Options
  import opened FrameIds

  datatype Slot<V> = Slot(body: V, empty: bool, fid: nat)

  ghost predicate IdAt<V>(slots: seq<Slot<V>>, j: nat)
    requires j < |slots|
  {
    slots[j].fid == Ahead(slots[0].fid, j)
  }

  /** Slot j holds id begin + j, and the first and the last slot hold frames. */
  ghost predicate Window<V>(slots: seq<Slot<V>>) {
    && |slots| < 0x8000
    && (slots != [] ==> !slots[0].empty && !slots[|slots| - 1].empty && slots[0].fid < WRAP)
    && forall j: nat {:trigger IdAt(slots, j)} :: j < |slots| ==> IdAt(slots, j)
  }

  /** How many of the slots lo to hi - 1 hold frames. */
  function FullIn<V>(slots: seq<Slot<V>>, lo: nat, hi: nat): (n: nat)
    requires lo <= hi <= |slots|
    ensures n <= hi - lo
    decreases hi
  {
    if hi == lo then 0 else FullIn(slots, lo, hi - 1) + if slots[hi - 1].empty then 0 else 1
  }

  function Full<V>(slots: seq<Slot<V>>): nat {
    FullIn(slots, 0, |slots|)
  }

  /** The slots below hi that hold frames, in order. */
  function OccupiedTo<V>(slots: seq<Slot<V>>, hi: nat): (r: seq<Slot<V>>)
    requires hi <= |slots|
    ensures |r| == FullIn(slots, 0, hi)
  {
    if hi == 0 then [] else if slots[hi - 1].empty then OccupiedTo(slots, hi - 1) else OccupiedTo(slots, hi - 1) + [slots[hi - 1]]
  }

  function Occupied<V>(slots: seq<Slot<V>>): seq<Slot<V>> {
    OccupiedTo(slots, |slots|)
  }

  lemma {:induction false} OccupiedPrefix<V>(s: seq<Slot<V>>, i: nat, j: nat)
    requires i <= j <= |s|
    ensures OccupiedTo(s, i) <= OccupiedTo(s, j)
  {
    if i < j {
      OccupiedPrefix(s, i, j - 1);
    }
  }

  lemma {:induction false} FullSplit<V>(s: seq<Slot<V>>, lo: nat, mid: nat, hi: nat)
    requires lo <= mid <= hi <= |s|
    ensures FullIn(s, lo, hi) == FullIn(s, lo, mid) + FullIn(s, mid, hi)
    decreases hi
  {
    if mid < hi {
      FullSplit(s, lo, mid, hi - 1);
    }
  }

  lemma FullStep<V>(s: seq<Slot<V>>, i: nat)
    requires i < |s|
    ensures FullIn(s, i, |s|) == FullIn(s, i + 1, |s|) + if s[i].empty then 0 else 1
  {
    FullSplit(s, i, i + 1, |s|);
  }

  lemma {:induction false} FullShift<V>(s: seq<Slot<V>>, t: seq<Slot<V>>, lo: nat, hi: nat, shift: int)
    requires lo <= hi <= |s| && 0 <= lo + shift && hi + shift <= |t|
    requires forall k {:trigger s[k]} :: lo <= k < hi ==> s[k].empty == t[k + shift].empty
    ensures FullIn(s, lo, hi) == FullIn(t, lo + shift, hi + shift)
    decreases hi
  {
    if lo < hi {
      FullShift(s, t, lo, hi - 1, shift);
    }
  }

  lemma {:induction false} FullSame<V>(s: seq<Slot<V>>, t: seq<Slot<V>>, hi: nat)
    requires hi <= |s| && s <= t
    ensures FullIn(s, 0, hi) == FullIn(t, 0, hi)
  {
    if hi > 0 {
      FullSame(s, t, hi - 1);
    }
  }

  lemma FullSuffix<V>(s: seq<Slot<V>>, i: nat)
    requires i <= |s|
    ensures Full(s[i..]) == FullIn(s, i, |s|)
  {
    FullShift(s, s[i..], i, |s|, 0 - i);
  }

  lemma FullPrefix<V>(s: seq<Slot<V>>, i: nat)
    requires i <= |s|
    ensures Full(s[..i]) == FullIn(s, 0, i)
  {
    FullSame(s[..i], s, i);
  }

  lemma {:induction false} FullSome<V>(s: seq<Slot<V>>, lo: nat, hi: nat, j: nat)
    requires lo <= j < hi <= |s| && !s[j].empty
    ensures FullIn(s, lo, hi) > 0
    decreases hi
  {
    if j < hi - 1 {
      FullSome(s, lo, hi - 1, j);
    }
  }

  lemma {:induction false} FullNone<V>(s: seq<Slot<V>>, lo: nat, hi: nat)
    requires lo <= hi <= |s| && forall j :: lo <= j < hi ==> s[j].empty
    ensures FullIn(s, lo, hi) == 0
    decreases hi
  {
    if lo < hi {
      FullNone(s, lo, hi - 1);
    }
  }

  lemma {:induction false} FullUpdateTo<V>(s: seq<Slot<V>>, j: nat, x: Slot<V>, hi: nat)
    requires j < |s| && hi <= |s|
    ensures FullIn(s[j := x], 0, hi) == FullIn(s, 0, hi) + if j < hi then (if x.empty then 0 else 1) - (if s[j].empty then 0 else 1) else 0
  {
    if hi > 0 {
      FullUpdateTo(s, j, x, hi - 1);
    }
  }

  lemma FullUpdate<V>(s: seq<Slot<V>>, j: nat, x: Slot<V>)
    requires j < |s|
    ensures Full(s[j := x]) == Full(s) - (if s[j].empty then 0 else 1) + if x.empty then 0 else 1
  {
    FullUpdateTo(s, j, x, |s|);
  }

  /** The frame with a given id. */
  function Lookup<V>(slots: seq<Slot<V>>, fid: nat): Option<V> {
    if slots == [] then None else
    var idx := Distance(fid, slots[0].fid);
    if idx < |slots| && !slots[idx].empty then Some(slots[idx].body) else None
  }

  /** The queue as a finite map. */
  ghost function Frames<V>(slots: seq<Slot<V>>): map<nat, V> {
    map f: nat | 0 <= f < WRAP && Lookup(slots, f).Some? :: Lookup(slots, f).value
  }

  /** The slot at place j is found under its id, and nothing else is. */
  lemma LookupSlot<V>(slots: seq<Slot<V>>, j: nat)
    requires Window(slots) && j < |slots|
    ensures slots[j].fid < WRAP && Distance(slots[j].fid, slots[0].fid) == j
    ensures Lookup(slots, slots[j].fid) == if slots[j].empty then None else Some(slots[j].body)
  {
    assert IdAt(slots, j);
    AheadDistance(slots[0].fid, j);
  }

  /** The map has as many frames as the count says. */
  lemma {:induction false} FramesCount<V>(slots: seq<Slot<V>>, k: nat)
    requires Window(slots) && k <= |slots|
    ensures |set f: nat | f < WRAP && Lookup(slots, f).Some? && Distance(f, slots[0].fid) < k| == FullIn(slots, 0, k)
  {
    if k == 0 {
      assert (set f: nat | f < WRAP && Lookup(slots, f).Some? && Distance(f, slots[0].fid) < k) == {};
    } else {
      FramesCount(slots, k - 1);
      LookupSlot(slots, k - 1);
      var before := set f: nat | f < WRAP && Lookup(slots, f).Some? && Distance(f, slots[0].fid) < k - 1;
      var after := set f: nat | f < WRAP && Lookup(slots, f).Some? && Distance(f, slots[0].fid) < k;
      forall f: nat | f < WRAP && Distance(f, slots[0].fid) == k - 1
        ensures f == slots[k - 1].fid
      {
        DistanceAhead(f, slots[0].fid);
        assert IdAt(slots, k - 1);
      }
      if slots[k - 1].empty {
        assert after == before;
      } else {
        assert after == before + {slots[k - 1].fid};
      }
    }
  }

  /** Dropping the first n slots keeps the frames from the new first id on. */
  lemma DropLookup<V>(slots: seq<Slot<V>>, n: nat, f: nat)
    requires Window(slots) && n < |slots| && f < WRAP && !slots[n].empty
    ensures Window(slots[n..])
    ensures Lookup(slots[n..], f) == if Distance(f, slots[0].fid) >= n then Lookup(slots, f) else None
  {
    var b := slots[0].fid;
    assert IdAt(slots, n);
    DistanceFrom(f, b, n);
    forall j: nat | j < |slots[n..]|
      ensures IdAt(slots[n..], j)
    {
      assert IdAt(slots, n + j);
    }
  }

  lemma TakeLookup<V>(slots: seq<Slot<V>>, n: nat, f: nat)
    requires Window(slots) && 0 < n <= |slots| && f < WRAP && !slots[n - 1].empty
    ensures Window(slots[..n])
    ensures Lookup(slots[..n], f) == if Distance(f, slots[0].fid) < n then Lookup(slots, f) else None
  {
    forall j: nat | j < n
      ensures IdAt(slots[..n], j)
    {
      assert IdAt(slots, j);
    }
  }

  /** Filling or rewriting one slot changes the frame with its id only. */
  lemma UpdateLookup<V>(slots: seq<Slot<V>>, j: nat, x: Slot<V>)
    requires Window(slots) && j < |slots| && !x.empty && x.fid == slots[j].fid
    ensures Window(slots[j := x]) && Frames(slots[j := x]) == Frames(slots)[x.fid := x.body]
  {
    var after := slots[j := x];
    LookupSlot(slots, j);
    forall k: nat | k < |after|
      ensures IdAt(after, k)
    {
      assert IdAt(slots, k);
    }
    forall f: nat | f < WRAP
      ensures Lookup(after, f) == if f == x.fid then Some(x.body) else Lookup(slots, f)
    {
      DistanceAhead(f, slots[0].fid);
      assert IdAt(slots, j);
    }
  }

  /** after is slots, a gap of empty slots, and x. */
  ghost predicate Appended<V>(slots: seq<Slot<V>>, after: seq<Slot<V>>, x: Slot<V>) {
    && Window(slots) && slots != [] && slots < after && |after| < 0x8000
    && after[|after| - 1] == x && !x.empty
    && (forall j :: |slots| <= j < |after| - 1 ==> after[j].empty)
    && (forall j: nat {:trigger IdAt(after, j)} :: j < |after| ==> IdAt(after, j))
  }

  lemma AppendFull<V>(slots: seq<Slot<V>>, after: seq<Slot<V>>, x: Slot<V>)
    requires Appended(slots, after, x)
    ensures Full(after) == Full(slots) + 1
  {
    var n := |slots|;
    FullSplit(after, 0, n, |after| - 1);
    FullNone(after, n, |after| - 1);
    FullSame(slots, after, n);
  }

  lemma AppendLookupAt<V>(slots: seq<Slot<V>>, after: seq<Slot<V>>, x: Slot<V>, f: nat)
    requires Appended(slots, after, x) && f < WRAP
    ensures x.fid < WRAP && Lookup(after, f) == if f == x.fid then Some(x.body) else Lookup(slots, f)
  {
    assert after[0] == slots[0];
    assert IdAt(after, |after| - 1);
    DistanceAhead(f, slots[0].fid);
    AheadDistance(slots[0].fid, |after| - 1);
  }

  /** A later frame behind a gap of empty slots. */
  lemma AppendLookup<V>(slots: seq<Slot<V>>, after: seq<Slot<V>>, x: Slot<V>)
    requires Appended(slots, after, x)
    ensures Window(after) && Frames(after) == Frames(slots)[x.fid := x.body]
  {
    assert after[0] == slots[0];
    forall f: nat | f < WRAP
      ensures x.fid < WRAP && Lookup(after, f) == if f == x.fid then Some(x.body) else Lookup(slots, f)
    {
      AppendLookupAt(slots, after, x, f);
    }
    assert x.fid < WRAP by {
      AppendLookupAt(slots, after, x, 0);
    }
  }

  lemma SingleFrame<V>(x: Slot<V>)
    requires !x.empty && x.fid < WRAP
    ensures Window([x]) && Full([x]) == 1 && Frames([x]) == map[x.fid := x.body]
  {
    FullNone([x], 0, 0);
    forall f: nat | f < WRAP
      ensures Lookup([x], f) == if f == x.fid then Some(x.body) else None
    {
      DistanceAhead(f, x.fid);
    }
    assert IdAt([x], 0);
  }
}
