/** FrameQueue::LoopFrames of src/frmqueue.h, lines 245-326, as a function of the slots and the visitor: what it visits,
    what it leaves for every visitor, and for which visitors that is right. */
module FrameLoops {
  import opened Options
  import opened FrameIds
  import opened FrameWindows

  datatype VisitorRes = Continue | DeletedContinue | Stop | DeletedStop

  predicate Deletes(r: VisitorRes) {
    r == DeletedContinue || r == DeletedStop
  }

  predicate Stops(r: VisitorRes) {
    r == Stop || r == DeletedStop
  }

  type Visitor<!V> = (V, nat) -> VisitorRes

  function Visit<V>(visit: Visitor<V>, slot: Slot<V>): VisitorRes {
    visit(slot.body, slot.fid)
  }

  /** The place behind the last slot that is visited from j on: the loop stops behind the first frame for which the
      visitor says so. */
  function VisitedTo<V>(s: seq<Slot<V>>, visit: Visitor<V>, j: nat): (n: nat)
    requires j <= |s|
    ensures j <= n <= |s|
    decreases |s| - j
  {
    if j == |s| then j else if !s[j].empty && Stops(Visit(visit, s[j])) then j + 1 else VisitedTo(s, visit, j + 1)
  }

  /** The slots after the first n were visited: a slot whose frame the visitor deletes is empty. */
  ghost function Swept<V>(s: seq<Slot<V>>, visit: Visitor<V>, n: nat): (r: seq<Slot<V>>)
    requires n <= |s|
    ensures |r| == |s|
    ensures forall j {:trigger r[j]} :: 0 <= j < |s| ==> r[j] == if j < n && Deletes(Visit(visit, s[j])) then s[j].(empty := true) else s[j]
  {
    seq(|s|, j requires 0 <= j < |s| => if j < n && Deletes(Visit(visit, s[j])) then s[j].(empty := true) else s[j])
  }

  /** How many of the first hi slots are empty slots at the front. */
  function Leading<V>(t: seq<Slot<V>>, hi: nat): (n: nat)
    requires hi <= |t|
    ensures n <= hi && (n < hi ==> !t[n].empty) && forall k {:trigger t[k]} :: 0 <= k < n ==> t[k].empty
  {
    if hi == 0 then 0 else if Leading(t, hi - 1) == hi - 1 && t[hi - 1].empty then hi else Leading(t, hi - 1)
  }

  /** The place of the last of the first hi slots that holds a frame, or 0 if none does. */
  function LastFull<V>(t: seq<Slot<V>>, hi: nat): (n: nat)
    requires hi <= |t|
    ensures n == 0 || n < hi
  {
    if hi == 0 then 0 else if t[hi - 1].empty then LastFull(t, hi - 1) else hi - 1
  }

  /** The slots behind the deletions at the back: when the last slot is deleted and a frame stays, the slots from the
      last frame that stays on are erased (line 296). */
  ghost function CutBack<V>(t: seq<Slot<V>>): (u: seq<Slot<V>>) {
    if t != [] && t[|t| - 1].empty && Full(t) > 0 then t[..LastFull(t, |t|)] else t
  }

  /** What the loop leaves, for every visitor; None if an assertion at its end fails or there is no first slot. */
  ghost function Leaves<V>(s: seq<Slot<V>>, visit: Visitor<V>): Option<seq<Slot<V>>> {
    var n := VisitedTo(s, visit, 0);
    var t := Swept(s, visit, n);
    var u, skip := CutBack(t), Leading(t, n);
    if Full(t) == 0 then Some([])
    else if skip >= |u| || u[skip].empty || Full(t) > |u| - skip then None
    else Some(u[skip..])
  }

  /** What erasing leaves of the slots t after the loop. */
  ghost predicate Erased<V>(t: seq<Slot<V>>, skip: nat, ok: bool, u: seq<Slot<V>>) {
    var c := CutBack(t);
    if Full(t) == 0 then ok && u == []
    else (ok <==> skip < |c| && !c[skip].empty && Full(t) <= |c| - skip) && (ok ==> u == c[skip..])
  }

  /** Either no frame stays, or the last one does and the empty slots at the front end no later than the visits. */
  ghost predicate Loopable<V>(s: seq<Slot<V>>, visit: Visitor<V>) {
    var n := VisitedTo(s, visit, 0);
    var t := Swept(s, visit, n);
    Full(t) == 0 || (t != [] && !t[|t| - 1].empty && Leading(t, n) < |t| && !t[Leading(t, n)].empty)
  }

  /** The frames that are not visited or not deleted. */
  ghost function Surviving<V>(s: seq<Slot<V>>, visit: Visitor<V>): map<nat, V> {
    map f | f in Frames(s) && !(Distance(f, s[0].fid) < VisitedTo(s, visit, 0) && Deletes(visit(Frames(s)[f], f))) :: Frames(s)[f]
  }

  lemma {:induction false} LeadingMeans<V>(t: seq<Slot<V>>, hi: nat, n: nat)
    requires n <= hi <= |t| && (n < hi ==> !t[n].empty) && forall k {:trigger t[k]} :: 0 <= k < n ==> t[k].empty
    ensures Leading(t, hi) == n
  {
  }

  lemma {:induction false} LastFullMeans<V>(t: seq<Slot<V>>, hi: nat, n: nat)
    requires n < hi <= |t| && !t[n].empty && forall k {:trigger t[k]} :: n < k < hi ==> t[k].empty
    ensures LastFull(t, hi) == n
  {
    if n < hi - 1 {
      LastFullMeans(t, hi - 1, n);
    }
  }

  lemma {:induction false} LastFullIs<V>(t: seq<Slot<V>>, hi: nat)
    requires hi <= |t| && FullIn(t, 0, hi) > 0
    ensures LastFull(t, hi) < hi && !t[LastFull(t, hi)].empty
    ensures forall k {:trigger t[k]} :: LastFull(t, hi) < k < hi ==> t[k].empty
  {
    if t[hi - 1].empty {
      LastFullIs(t, hi - 1);
    }
  }

  /** Without the slots from the last frame on, one frame is missing. */
  lemma CutBackLoses<V>(t: seq<Slot<V>>)
    requires t != [] && t[|t| - 1].empty && Full(t) > 0
    ensures LastFull(t, |t|) < |t| && Full(CutBack(t)) == Full(t) - 1
  {
    var n := LastFull(t, |t|);
    LastFullIs(t, |t|);
    FullPrefix(t, n);
    FullSplit(t, 0, n, |t|);
    FullSplit(t, n, n + 1, |t|);
    FullNone(t, n + 1, |t|);
    FullNone(t, n, n);
  }

  /** The slots before the first that is not empty hold no frame. */
  lemma SkipCount<V>(t: seq<Slot<V>>, skip: nat)
    requires skip <= |t| && forall k {:trigger t[k]} :: 0 <= k < skip ==> t[k].empty
    ensures Full(t[skip..]) == Full(t)
  {
    FullNone(t, 0, skip);
    FullSplit(t, 0, skip, |t|);
    FullSuffix(t, skip);
  }

  /** What the loop leaves has as many frames as it counts, exactly if it is loopable. */
  lemma LeavesAll<V>(s: seq<Slot<V>>, visit: Visitor<V>)
    ensures var t := Swept(s, visit, VisitedTo(s, visit, 0));
            Loopable(s, visit) <==> Leaves(s, visit).Some? && Full(Leaves(s, visit).value) == Full(t)
  {
    var n := VisitedTo(s, visit, 0);
    var t := Swept(s, visit, n);
    var u, skip := CutBack(t), Leading(t, n);
    if Full(t) > 0 && t[|t| - 1].empty {
      CutBackLoses(t);
      if skip <= |u| {
        assert forall k {:trigger u[k]} :: 0 <= k < skip ==> u[k] == t[k];
        SkipCount(u, skip);
      }
    } else if Full(t) > 0 {
      SkipCount(t, skip);
    }
  }

  /** Slots with the ids and bodies of s, of which the first skip are empty. */
  ghost predicate SameIds<V>(s: seq<Slot<V>>, t: seq<Slot<V>>, skip: nat) {
    && |t| == |s| && skip < |t| && !t[skip].empty && !t[|t| - 1].empty
    && forall k {:trigger t[k]} :: 0 <= k < |t| ==> t[k].fid == s[k].fid && t[k].body == s[k].body && (k < skip ==> t[k].empty)
  }

  lemma SweptWindow<V>(s: seq<Slot<V>>, t: seq<Slot<V>>, skip: nat)
    requires Window(s) && SameIds(s, t, skip)
    ensures Window(t[skip..]) && t[|t| - 1].fid == s[|s| - 1].fid
  {
    var u := t[skip..];
    assert IdAt(s, skip);
    forall j: nat | j < |u|
      ensures IdAt(u, j)
    {
      assert IdAt(s, skip + j);
      assert u[j] == t[skip + j];
    }
  }

  lemma SweptLookup<V>(s: seq<Slot<V>>, t: seq<Slot<V>>, skip: nat, f: nat)
    requires Window(s) && SameIds(s, t, skip) && f < WRAP
    ensures var d := Distance(f, s[0].fid); Lookup(t[skip..], f) == if d < |t| && !t[d].empty then Some(s[d].body) else None
  {
    assert IdAt(s, skip);
    DistanceFrom(f, s[0].fid, skip);
  }

  /** A visitor that the loop is right for: the slots left are a window with exactly the frames that survive. */
  lemma LoopableKeeps<V>(s: seq<Slot<V>>, visit: Visitor<V>)
    requires Window(s) && Loopable(s, visit)
    ensures Leaves(s, visit).Some? && Window(Leaves(s, visit).value) && Frames(Leaves(s, visit).value) == Surviving(s, visit)
    ensures var u := Leaves(s, visit).value; u != [] ==> u[|u| - 1].fid == s[|s| - 1].fid
  {
    var n := VisitedTo(s, visit, 0);
    var t := Swept(s, visit, n);
    LeavesAll(s, visit);
    var u := Leaves(s, visit).value;
    if s == [] {
      return;
    }
    if Full(t) > 0 {
      SweptWindow(s, t, Leading(t, n));
    }
    forall f: nat | f < WRAP
      ensures Lookup(u, f) == if f in Surviving(s, visit) then Some(Surviving(s, visit)[f]) else None
    {
      if Full(t) > 0 {
        SweptLookup(s, t, Leading(t, n), f);
      }
      SurvivingAt(s, visit, f);
    }
  }

  ghost predicate FidsOf<V>(s: seq<Slot<V>>, t: seq<Slot<V>>) {
    |t| == |s| && forall k {:trigger t[k]} :: 0 <= k < |t| ==> t[k].fid == s[k].fid
  }

  lemma InOrderIds<V>(s: seq<Slot<V>>, i: nat, j: nat)
    requires Window(s) && i <= j < |s|
    ensures IsNotLater(s[i].fid, s[j].fid)
  {
    LookupSlot(s, j);
    assert IdAt(s, i);
    DistanceFrom(s[j].fid, s[0].fid, i);
  }

  /** The assertion at the end of the loop that the first id is not later than the last holds. */
  lemma ErasedFirst<V>(s: seq<Slot<V>>, t: seq<Slot<V>>, skip: nat, ok: bool, u: seq<Slot<V>>, end: nat)
    requires Window(s) && Erased(t, skip, ok, u) && ok && u != []
    requires FidsOf(s, t)
    requires end == s[if t[|t| - 1].empty then LastFull(t, |t|) else |t| - 1].fid
    ensures IsNotLater(u[0].fid, end)
  {
    InOrderIds(s, skip, if t[|t| - 1].empty then LastFull(t, |t|) else |t| - 1);
  }

  lemma ErasedLeaves<V>(s: seq<Slot<V>>, visit: Visitor<V>, t: seq<Slot<V>>, ok: bool, u: seq<Slot<V>>)
    requires t == Swept(s, visit, VisitedTo(s, visit, 0)) && Erased(t, Leading(t, VisitedTo(s, visit, 0)), ok, u)
    ensures Leaves(s, visit) == if ok then Some(u) else None
  {
  }

  lemma LoopedRight<V>(s: seq<Slot<V>>, visit: Visitor<V>, t: seq<Slot<V>>, ok: bool, u: seq<Slot<V>>)
    requires Window(s) && t == Swept(s, visit, VisitedTo(s, visit, 0)) && Leaves(s, visit) == if ok then Some(u) else None
    ensures Loopable(s, visit) <==> ok && Full(u) == Full(t)
    ensures Loopable(s, visit) ==> Window(u) && Frames(u) == Surviving(s, visit) && (u != [] ==> u[|u| - 1].fid == s[|s| - 1].fid)
    ensures Loopable(s, visit) && Full(t) > 0 ==> !t[|t| - 1].empty
  {
    LeavesAll(s, visit);
    if Loopable(s, visit) {
      LoopableKeeps(s, visit);
    }
  }

  lemma SurvivingAt<V>(s: seq<Slot<V>>, visit: Visitor<V>, f: nat)
    requires Window(s) && s != [] && f < WRAP
    ensures var t, d := Swept(s, visit, VisitedTo(s, visit, 0)), Distance(f, s[0].fid);
            && (f in Surviving(s, visit) <==> d < |s| && !t[d].empty)
            && (f in Surviving(s, visit) ==> Surviving(s, visit)[f] == s[d].body)
            && (Full(t) == 0 ==> f !in Surviving(s, visit))
  {
    var t, d := Swept(s, visit, VisitedTo(s, visit, 0)), Distance(f, s[0].fid);
    if d < |s| {
      DistanceAhead(f, s[0].fid);
      assert IdAt(s, d);
      if !t[d].empty {
        FullSome(t, 0, |t|, d);
      }
    }
  }

  /** Keeping two frames with a gap between them and deleting the last frame behind them loses the second. */
  lemma DeletedBehindKept<V>(x: V)
    ensures var s := [Slot(x, false, 0), Slot(x, true, 1), Slot(x, false, 2), Slot(x, false, 3)];
            var visit := (body: V, fid: nat) => if fid == 3 then DeletedContinue else Continue;
            Leaves(s, visit) == Some(s[..2]) && 2 in Surviving(s, visit) && 2 !in Frames(s[..2])
  {
    var s := [Slot(x, false, 0), Slot(x, true, 1), Slot(x, false, 2), Slot(x, false, 3)];
    var visit := (body: V, fid: nat) => if fid == 3 then DeletedContinue else Continue;
    assert VisitedTo(s, visit, 4) == VisitedTo(s, visit, 3) == VisitedTo(s, visit, 2) == VisitedTo(s, visit, 1) == 4;
    var t := s[3 := Slot(x, true, 3)];
    assert Swept(s, visit, 4) == t;
    assert FullIn(t, 0, 1) == 1 && FullIn(t, 0, 2) == 1 && FullIn(t, 0, 3) == 2;
    assert LastFull(t, 3) == 2;
    LeadingMeans(t, 4, 0);
    assert Frames(s)[2] == x;
  }

  /** Deleting the first frame before an empty slot and stopping leaves an empty first slot. */
  lemma DeletedStopFails<V>(x: V)
    ensures var s := [Slot(x, false, 0), Slot(x, true, 1), Slot(x, false, 2)];
            Leaves(s, (body: V, fid: nat) => DeletedStop).None?
  {
    var s := [Slot(x, false, 0), Slot(x, true, 1), Slot(x, false, 2)];
    var visit := (body: V, fid: nat) => DeletedStop;
    var t := s[0 := Slot(x, true, 0)];
    assert Swept(s, visit, 1) == t;
    assert FullIn(t, 0, 1) == 0 && FullIn(t, 0, 2) == 0;
  }

  /** After a frame is kept none is deleted, and the loop does not stop with a deletion. */
  ghost predicate PrefixVisitor<V>(s: seq<Slot<V>>, visit: Visitor<V>) {
    && (forall j {:trigger s[j]} :: 0 <= j < |s| && !s[j].empty ==> Visit(visit, s[j]) != DeletedStop)
    && (forall j, k {:trigger s[j], s[k]} :: 0 <= j < k < |s| && !s[j].empty && !s[k].empty && Visit(visit, s[j]) == Continue ==>
          !Deletes(Visit(visit, s[k])))
  }

  /** The first slot from j on whose frame is not deleted. */
  function FirstKept<V>(s: seq<Slot<V>>, visit: Visitor<V>, j: nat): (n: nat)
    requires j <= |s|
    ensures j <= n <= |s| && (n < |s| ==> !s[n].empty && !Deletes(Visit(visit, s[n])))
    ensures forall k {:trigger s[k]} :: j <= k < n ==> s[k].empty || Deletes(Visit(visit, s[k]))
    decreases |s| - j
  {
    if j < |s| && (s[j].empty || Deletes(Visit(visit, s[j]))) then FirstKept(s, visit, j + 1) else j
  }

  /** The slots whose frames the visitor deletes. */
  function Deleted<V>(visited: seq<Slot<V>>, visit: Visitor<V>): seq<Slot<V>> {
    if visited == [] then [] else
    var last := visited[|visited| - 1];
    Deleted(visited[..|visited| - 1], visit) + if Deletes(Visit(visit, last)) then [last] else []
  }

  lemma DeletedNext<V>(visited: seq<Slot<V>>, visit: Visitor<V>, slot: Slot<V>)
    ensures Deleted(visited + [slot], visit) == Deleted(visited, visit) + if Deletes(Visit(visit, slot)) then [slot] else []
  {
    assert (visited + [slot])[..|visited|] == visited;
  }

  lemma {:induction false} DeletedAll<V>(s: seq<Slot<V>>, visit: Visitor<V>, n: nat)
    requires n <= |s| && forall k {:trigger s[k]} :: 0 <= k < n ==> s[k].empty || Deletes(Visit(visit, s[k]))
    ensures Deleted(OccupiedTo(s, n), visit) == OccupiedTo(s, n)
  {
    if n > 0 {
      DeletedAll(s, visit, n - 1);
      DeletedNext(OccupiedTo(s, n - 1), visit, s[n - 1]);
    }
  }

  lemma {:induction false} DeletedNoMore<V>(s: seq<Slot<V>>, visit: Visitor<V>, n: nat, hi: nat)
    requires n <= hi <= |s| && Deleted(OccupiedTo(s, n), visit) == OccupiedTo(s, n)
    requires forall k {:trigger s[k]} :: n <= k < hi && !s[k].empty ==> !Deletes(Visit(visit, s[k]))
    ensures Deleted(OccupiedTo(s, hi), visit) == OccupiedTo(s, n)
  {
    if n < hi {
      DeletedNoMore(s, visit, n, hi - 1);
      DeletedNext(OccupiedTo(s, hi - 1), visit, s[hi - 1]);
    }
  }

  /** The visits go on at least to the first frame that stays. */
  lemma {:induction false} KeptIsVisited<V>(s: seq<Slot<V>>, visit: Visitor<V>, j: nat)
    requires j <= |s| && PrefixVisitor(s, visit)
    ensures FirstKept(s, visit, j) < |s| ==> FirstKept(s, visit, j) < VisitedTo(s, visit, j)
    ensures FirstKept(s, visit, j) == |s| ==> VisitedTo(s, visit, j) == |s|
    decreases |s| - j
  {
    if j < |s| && (s[j].empty || Deletes(Visit(visit, s[j]))) {
      KeptIsVisited(s, visit, j + 1);
    }
  }

  lemma {:induction false} VisitedBehind<V>(s: seq<Slot<V>>, visit: Visitor<V>, j: nat, n: nat)
    requires j <= n < |s| && !s[n].empty
    ensures Stops(Visit(visit, s[n])) ==> VisitedTo(s, visit, j) <= n + 1
    decreases n - j
  {
    if j < n {
      VisitedBehind(s, visit, j + 1, n);
    }
  }

  /** Behind the first frame that stays none is visited, or none is deleted. */
  lemma NotDeletedBehind<V>(s: seq<Slot<V>>, visit: Visitor<V>, n: nat, k: nat)
    requires PrefixVisitor(s, visit) && n == FirstKept(s, visit, 0) <= k < VisitedTo(s, visit, 0) && !s[k].empty
    ensures !Deletes(Visit(visit, s[k]))
  {
    if n < k {
      VisitedBehind(s, visit, 0, n);
    }
  }

  /** For such a visitor the loop is right: it leaves the slots from the first frame that stays on, and the frames
      deleted are those before it. */
  lemma PrefixLoops<V>(s: seq<Slot<V>>, visit: Visitor<V>)
    requires Window(s) && PrefixVisitor(s, visit)
    ensures Loopable(s, visit) && Leaves(s, visit) == Some(s[FirstKept(s, visit, 0)..])
    ensures Deleted(OccupiedTo(s, VisitedTo(s, visit, 0)), visit) == OccupiedTo(s, FirstKept(s, visit, 0))
  {
    var n, hi := FirstKept(s, visit, 0), VisitedTo(s, visit, 0);
    KeptIsVisited(s, visit, 0);
    forall k | n <= k < hi && !s[k].empty
      ensures !Deletes(Visit(visit, s[k]))
    {
      NotDeletedBehind(s, visit, n, k);
    }
    DeletedAll(s, visit, n);
    DeletedNoMore(s, visit, n, hi);
    PrefixLeaves(s, visit, n, hi);
  }

  lemma PrefixLeaves<V>(s: seq<Slot<V>>, visit: Visitor<V>, n: nat, hi: nat)
    requires Window(s) && n == FirstKept(s, visit, 0) && n <= hi == VisitedTo(s, visit, 0) && (n < |s| ==> n < hi)
    requires forall k {:trigger s[k]} :: n <= k < hi && !s[k].empty ==> !Deletes(Visit(visit, s[k]))
    ensures Loopable(s, visit) && Leaves(s, visit) == Some(s[n..])
  {
    var t := Swept(s, visit, hi);
    forall k | 0 <= k < |s|
      ensures if k < n then t[k].empty else t[k] == s[k]
    {
      assert t[k].fid == s[k].fid;
    }
    if n < |s| {
      LeavesFrom(s, t, n, hi);
      assert t[n..] == s[n..];
    } else {
      FullNone(t, 0, |t|);
      assert s[n..] == [];
    }
  }

  lemma LeavesFrom<V>(s: seq<Slot<V>>, t: seq<Slot<V>>, n: nat, hi: nat)
    requires |t| == |s| && n < hi <= |s| && !s[|s| - 1].empty && !s[n].empty
    requires forall k {:trigger t[k]} :: 0 <= k < |s| ==> if k < n then t[k].empty else t[k] == s[k]
    ensures CutBack(t) == t && Leading(t, hi) == n && 0 < Full(t) <= |t| - n
  {
    LeadingMeans(t, hi, n);
    FullSome(t, 0, |t|, n);
    SkipCount(t, n);
  }

  /** The map after the loop: a frame goes exactly when the visitor deletes it and every frame before it. */
  lemma LoopFramesKept<V>(s: seq<Slot<V>>, visit: Visitor<V>, f: nat)
    requires Window(s) && s != [] && f < WRAP
    ensures var n := FirstKept(s, visit, 0);
            Window(s[n..])
            && (Lookup(s[n..], f).Some? ==> Lookup(s[n..], f) == Lookup(s, f))
            && (Lookup(s, f).Some? ==>
                 (Lookup(s[n..], f).None? <==>
                   forall g: nat {:trigger Lookup(s, g)} :: g < WRAP && Lookup(s, g).Some? && Distance(g, s[0].fid) <= Distance(f, s[0].fid) ==>
                     Deletes(visit(Lookup(s, g).value, g))))
  {
    var n := FirstKept(s, visit, 0);
    if n < |s| {
      DropLookup(s, n, f);
      LookupSlot(s, n);
      assert Lookup(s, s[n].fid) == Some(s[n].body);
    }
    forall g: nat | g < WRAP && Lookup(s, g).Some? && Distance(g, s[0].fid) < n
      ensures Deletes(visit(Lookup(s, g).value, g))
    {
      var j := Distance(g, s[0].fid);
      DistanceAhead(g, s[0].fid);
      assert IdAt(s, j);
      assert s[j].empty || Deletes(Visit(visit, s[j]));
    }
  }

  /** The variables of the loop: met says that a frame was kept, skip how many slots at the front are empty, pre where the
      last frame kept is and prefid its id, cnt how many frames are left, and cut that the last slot was deleted while a
      frame is left. */
  datatype LoopVars<V> = LoopVars(met: bool, skip: nat, pre: nat, prefid: nat, cut: bool, cnt: int, visited: seq<Slot<V>>, slots: seq<Slot<V>>)

  /** One slot of the loop. */
  function Step<V>(v: LoopVars<V>, visit: Visitor<V>, i: nat, end: nat): (w: LoopVars<V>)
    requires i < |v.slots|
    ensures |w.slots| == |v.slots|
  {
    var slot := v.slots[i];
    if slot.empty then v.(skip := if v.met then v.skip else v.skip + 1)
    else if Deletes(Visit(visit, slot)) then
      v.(skip := if v.met then v.skip else v.skip + 1, cut := v.cnt > 1 && slot.fid == end, cnt := v.cnt - 1, visited := v.visited + [slot],
         slots := v.slots[i := slot.(empty := true)])
    else v.(met := true, pre := i, prefid := slot.fid, visited := v.visited + [slot])
  }

  /** The loop is left behind a slot whose frame was the last one left, is the last of the queue, or makes the visitor
      stop; cnt frames are left. */
  predicate Ends<V>(slot: Slot<V>, visit: Visitor<V>, cnt: int, end: nat) {
    !slot.empty && (slot.fid == end || Stops(Visit(visit, slot)) || (Deletes(Visit(visit, slot)) && cnt == 0))
  }

  /** The loop from slot i on. */
  function Run<V>(v: LoopVars<V>, visit: Visitor<V>, i: nat, end: nat): LoopVars<V>
    requires i <= |v.slots|
    decreases |v.slots| - i
  {
    if i == |v.slots| then v else
    var w := Step(v, visit, i, end);
    if Ends(v.slots[i], visit, w.cnt, end) then w else Run(w, visit, i + 1, end)
  }

  function Init<V>(s: seq<Slot<V>>, cnt: nat): LoopVars<V>
    requires s != []
  {
    LoopVars(false, 0, 0, s[0].fid, false, cnt, [], s)
  }

  /** What the variables mean after i slots; s are the slots before the loop. */
  ghost predicate LoopAt<V>(s: seq<Slot<V>>, visit: Visitor<V>, i: nat, v: LoopVars<V>) {
    && i <= |s| == |v.slots| && v.pre < |s| && (v.met <==> v.skip < i)
    && v.slots == Swept(s, visit, i) && v.cnt == Full(v.slots) && v.visited == OccupiedTo(s, i)
    && v.skip == Leading(v.slots, i) && v.pre == LastFull(v.slots, i) && v.prefid == s[v.pre].fid
    && (v.cut <==> v.cnt > 0 && v.slots[|s| - 1].empty)
  }

  lemma LoopInitially<V>(s: seq<Slot<V>>, visit: Visitor<V>)
    requires s != [] && !s[|s| - 1].empty
    ensures LoopAt(s, visit, 0, Init(s, Full(s)))
  {
    assert Swept(s, visit, 0) == s;
  }

  lemma {:induction false} SamePrefix<V>(t: seq<Slot<V>>, u: seq<Slot<V>>, i: nat)
    requires i <= |t| == |u| && forall k {:trigger t[k]} :: 0 <= k < i ==> t[k] == u[k]
    ensures Leading(t, i) == Leading(u, i) && LastFull(t, i) == LastFull(u, i)
  {
    if i > 0 {
      SamePrefix(t, u, i - 1);
    }
  }

  lemma LoopEmpty<V>(s: seq<Slot<V>>, visit: Visitor<V>, i: nat, end: nat, v: LoopVars<V>)
    requires i < |s| && LoopAt(s, visit, i, v) && v.slots[i].empty
    ensures s[i].empty && LoopAt(s, visit, i + 1, Step(v, visit, i, end))
  {
    assert v.slots == Swept(s, visit, i + 1);
  }

  lemma LoopDeleted<V>(s: seq<Slot<V>>, visit: Visitor<V>, i: nat, end: nat, v: LoopVars<V>)
    requires i < |s| && LoopAt(s, visit, i, v) && !v.slots[i].empty && Deletes(Visit(visit, v.slots[i]))
    requires !s[|s| - 1].empty && (s[i].fid == end <==> i + 1 == |s|)
    ensures v.slots[i] == s[i] && LoopAt(s, visit, i + 1, Step(v, visit, i, end))
  {
    var t, u := v.slots, v.slots[i := v.slots[i].(empty := true)];
    FullUpdate(t, i, u[i]);
    SamePrefix(t, u, i);
    assert u == Swept(s, visit, i + 1);
  }

  lemma LoopKept<V>(s: seq<Slot<V>>, visit: Visitor<V>, i: nat, end: nat, v: LoopVars<V>)
    requires i < |s| && LoopAt(s, visit, i, v) && !v.slots[i].empty && !Deletes(Visit(visit, v.slots[i]))
    ensures v.slots[i] == s[i] && LoopAt(s, visit, i + 1, Step(v, visit, i, end))
  {
    assert v.slots == Swept(s, visit, i + 1);
  }

  lemma StepMeans<V>(s: seq<Slot<V>>, visit: Visitor<V>, i: nat, end: nat, v: LoopVars<V>)
    requires i < |s| && LoopAt(s, visit, i, v)
    requires !s[|s| - 1].empty && (s[i].fid == end <==> i + 1 == |s|)
    ensures v.slots[i] == s[i] && LoopAt(s, visit, i + 1, Step(v, visit, i, end))
  {
    if v.slots[i].empty {
      LoopEmpty(s, visit, i, end, v);
    } else if Deletes(Visit(visit, v.slots[i])) {
      LoopDeleted(s, visit, i, end, v);
    } else {
      LoopKept(s, visit, i, end, v);
    }
  }

  /** Frames are left while the last slot is to come. */
  lemma FramesLeft<V>(s: seq<Slot<V>>, visit: Visitor<V>, i: nat, v: LoopVars<V>)
    requires LoopAt(s, visit, i, v) && i < |s| && !s[|s| - 1].empty
    ensures v.cnt > 0
  {
    FullSome(v.slots, 0, |s|, |s| - 1);
  }

  /** When the loop is left, the variables have their meaning behind the last slot visited. */
  lemma {:induction false} RunMeans<V>(s: seq<Slot<V>>, visit: Visitor<V>, i: nat, v: LoopVars<V>)
    requires Window(s) && i < |s| && LoopAt(s, visit, i, v)
    ensures LoopAt(s, visit, VisitedTo(s, visit, i), Run(v, visit, i, s[|s| - 1].fid))
    decreases |s| - i
  {
    var end := s[|s| - 1].fid;
    var w := Step(v, visit, i, end);
    LookupSlot(s, i);
    LookupSlot(s, |s| - 1);
    StepMeans(s, visit, i, end, v);
    if i + 1 < |s| {
      FramesLeft(s, visit, i + 1, w);
      RunMeans(s, visit, i + 1, w);
    }
  }
}
