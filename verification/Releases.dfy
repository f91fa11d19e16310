/** The frames that leave a queue, as they are visited: each exactly once (src/frmqueue.h, lines 264-308, 352-379). */
module Releases {
  import opened FrameIds
  import opened FrameWindows
  import opened FrameLoops
  import opened FrameQueues

  /** The slots hold exactly the frames that are gone, each once. */
  ghost predicate Enumerates<V>(slots: seq<Slot<V>>, gone: map<nat, V>) {
    && (forall k {:trigger slots[k]} :: 0 <= k < |slots| ==> slots[k].fid in gone && gone[slots[k].fid] == slots[k].body)
    && (forall j, k {:trigger slots[j], slots[k]} :: 0 <= j < k < |slots| ==> slots[j].fid != slots[k].fid)
    && (forall f {:trigger f in gone} :: f in gone ==> exists k :: 0 <= k < |slots| && slots[k].fid == f)
  }

  lemma EnumeratesNext<V>(slots: seq<Slot<V>>, gone: map<nat, V>, x: Slot<V>)
    requires Enumerates(slots, gone) && x.fid !in gone
    ensures Enumerates(slots + [x], gone[x.fid := x.body])
  {
    var more, after := slots + [x], gone[x.fid := x.body];
    forall f | f in after
      ensures exists k :: 0 <= k < |more| && more[k].fid == f
    {
      if f == x.fid {
        assert more[|slots|].fid == f;
      } else {
        var k :| 0 <= k < |slots| && slots[k].fid == f;
        assert more[k].fid == f;
      }
    }
  }

  /** The frames of the first hi slots. */
  ghost function UpTo<V>(s: seq<Slot<V>>, hi: nat): map<nat, V> {
    map f: nat | f in Frames(s) && Distance(f, s[0].fid) < hi :: Frames(s)[f]
  }

  lemma UpToNext<V>(s: seq<Slot<V>>, hi: nat)
    requires Window(s) && hi < |s|
    ensures s[hi].empty ==> UpTo(s, hi + 1) == UpTo(s, hi)
    ensures !s[hi].empty ==> s[hi].fid !in UpTo(s, hi) && UpTo(s, hi + 1) == UpTo(s, hi)[s[hi].fid := s[hi].body]
  {
    LookupSlot(s, hi);
    forall f: nat | f in Frames(s) && Distance(f, s[0].fid) == hi
      ensures f == s[hi].fid && !s[hi].empty
    {
      DistanceAhead(f, s[0].fid);
      assert IdAt(s, hi);
    }
  }

  lemma {:induction false} OccupiedEnumerates<V>(s: seq<Slot<V>>, hi: nat)
    requires Window(s) && hi <= |s|
    ensures Enumerates(OccupiedTo(s, hi), UpTo(s, hi))
  {
    if hi > 0 {
      OccupiedEnumerates(s, hi - 1);
      UpToNext(s, hi - 1);
      if !s[hi - 1].empty {
        EnumeratesNext(OccupiedTo(s, hi - 1), UpTo(s, hi - 1), s[hi - 1]);
      }
    }
  }

  lemma DropLeaves<V>(s: seq<Slot<V>>, n: nat)
    requires Window(s) && n <= |s| && (n < |s| ==> !s[n].empty)
    ensures UpTo(s, n) == Frames(s) - Frames(s[n..]).Keys
  {
    forall f | f in Frames(s)
      ensures f in Frames(s[n..]) <==> Distance(f, s[0].fid) >= n
    {
      if n < |s| {
        DropLookup(s, n, f);
      }
    }
  }

  /** Dropping slots from the front releases exactly the frames that are gone. */
  lemma DropReleases<V>(s: seq<Slot<V>>, n: nat)
    requires Window(s) && n <= |s| && (n < |s| ==> !s[n].empty)
    ensures Enumerates(OccupiedTo(s, n), Frames(s) - Frames(s[n..]).Keys)
  {
    OccupiedEnumerates(s, n);
    DropLeaves(s, n);
  }

  /** Inserting an id releases exactly the frames that are evicted for it. */
  lemma EvictionReleases<V>(s: seq<Slot<V>>, fid: nat, N: nat)
    requires Window(s) && |s| <= N && fid < WRAP && (s != [] ==> !IsEarlier(fid, s[0].fid))
    ensures Enumerates(Evicted(s, fid, N), Frames(s) - Kept(Frames(s), fid, N).Keys)
  {
    if s == [] {
    } else if Distance(fid, s[0].fid) < |s| {
      InsideEvictsNothing(s, fid, N);
    } else {
      InsideWindow(s, fid);
      DropKeeps(s, fid, N);
      EvictedIsDropped(s, fid, N, |s|);
      DropReleases(s, DropCount(s, fid, N, 0));
    }
  }
}
