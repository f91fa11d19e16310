/** The intrusive doubly linked lists of src/flist.h. A list is a ring of nodes that begins with its header; the
    ghost parameters name the ring. */
module IntrusiveLists {
  class ListHead<T> {
    var next: ListHead?<T>
    var prev: ListHead?<T>
    var item: T

    /** A node by itself; the item of a header is not used. */
    constructor (item: T)
      ensures this.item == item && next == null && prev == null
    {
      this.item := item;
      next, prev := null, null;
    }
  }

  /** The place after k in a ring of n nodes. */
  function After(k: nat, n: nat): (j: nat)
    requires k < n
    ensures j < n
  {
    if k + 1 == n then 0 else k + 1
  }

  ghost predicate LinkAt<T>(r: seq<ListHead<T>>, k: nat)
    requires k < |r|
    reads r
  {
    r[k].next == r[After(k, |r|)] && r[After(k, |r|)].prev == r[k]
  }

  ghost predicate Distinct<T>(r: seq<ListHead<T>>) {
    forall j, k {:trigger r[j], r[k]} :: 0 <= j < k < |r| ==> r[j] != r[k]
  }

  /** r is a ring: different nodes, each linked to the one after it and the last to the first. */
  ghost predicate Ring<T>(r: seq<ListHead<T>>)
    reads r
  {
    && r != [] && Distinct(r)
    && forall k: nat {:trigger LinkAt(r, k)} :: k < |r| ==> LinkAt(r, k)
  }

  /** The items of the nodes after the header. */
  ghost function Items<T>(r: seq<ListHead<T>>): (s: seq<T>)
    requires r != []
    reads r
    ensures |s| == |r| - 1 && forall k {:trigger s[k]} :: 0 <= k < |s| ==> s[k] == r[k + 1].item
  {
    seq(|r| - 1, k requires 0 <= k < |r| - 1 reads r => r[k + 1].item)
  }

  method ListInitHead<T>(hdr: ListHead<T>)
    modifies hdr
    ensures Ring([hdr]) && hdr.item == old(hdr.item)
  {
    hdr.prev := hdr;
    hdr.next := hdr;
    assert LinkAt([hdr], 0);
  }

  method ListIsEmpty<T>(hdr: ListHead<T>, ghost r: seq<ListHead<T>>) returns (empty: bool)
    requires Ring(r) && r[0] == hdr
    ensures empty <==> |r| == 1
  {
    assert LinkAt(r, 0) && LinkAt(r, |r| - 1);
    empty := hdr.next == hdr;
  }

  /** The ring with x after place k. */
  function Inserted<T>(r: seq<T>, k: nat, x: T): (s: seq<T>)
    requires k < |r|
    ensures |s| == |r| + 1
    ensures forall j {:trigger s[j]} :: 0 <= j < |s| ==> s[j] == if j <= k then r[j] else if j == k + 1 then x else r[j - 1]
  {
    r[..k + 1] + [x] + r[k + 1..]
  }

  method ListInsert<T>(prev: ListHead<T>, next: ListHead<T>, newItem: ListHead<T>)
    requires newItem != prev && newItem != next
    modifies prev, next, newItem
    ensures newItem.next == next && newItem.prev == prev && prev.next == newItem && next.prev == newItem
    ensures prev != next ==> prev.prev == old(prev.prev) && next.next == old(next.next)
    ensures prev.item == old(prev.item) && next.item == old(next.item) && newItem.item == old(newItem.item)
  {
    newItem.next := next;
    newItem.prev := prev;
    prev.next := newItem;
    next.prev := newItem;
  }

  /** Links a node that is in no list behind pos. */
  method ListInsertAfter<T>(pos: ListHead<T>, newItem: ListHead<T>, ghost r: seq<ListHead<T>>, ghost k: nat)
    requires Ring(r) && k < |r| && pos == r[k] && newItem !in r
    modifies r, newItem
    ensures Ring(Inserted(r, k, newItem))
    ensures newItem.item == old(newItem.item) && forall j {:trigger r[j]} :: 0 <= j < |r| ==> r[j].item == old(r[j].item)
  {
    assert LinkAt(r, k);
    ListInsert(pos, pos.next, newItem);
    ghost var s := Inserted(r, k, newItem);
    forall j: nat | j < |s|
      ensures LinkAt(s, j)
    {
      assert old(LinkAt(r, if j <= k then j else j - 1));
    }
  }

  method ListAddToEnd<T>(hdr: ListHead<T>, newItem: ListHead<T>, ghost r: seq<ListHead<T>>)
    requires Ring(r) && hdr == r[0] && newItem !in r
    modifies r, newItem
    ensures Ring(r + [newItem])
    ensures newItem.item == old(newItem.item) && forall j {:trigger r[j]} :: 0 <= j < |r| ==> r[j].item == old(r[j].item)
  {
    ghost var k := |r| - 1;
    assert LinkAt(r, k);
    ListInsert(hdr.prev, hdr, newItem);
    ghost var s := r + [newItem];
    forall j: nat | j < |s|
      ensures LinkAt(s, j)
    {
      assert old(LinkAt(r, if j <= k then j else j - 1));
    }
  }

  /** The ring without place k. */
  function Without<T>(r: seq<T>, k: nat): (s: seq<T>)
    requires k < |r|
    ensures |s| == |r| - 1
    ensures forall j {:trigger s[j]} :: 0 <= j < |s| ==> s[j] == if j < k then r[j] else r[j + 1]
  {
    r[..k] + r[k + 1..]
  }

  /** Unlinks a node; its neighbours are linked to each other. */
  method ListRemove<T>(node: ListHead<T>, ghost r: seq<ListHead<T>>, ghost k: nat)
    requires Ring(r) && 0 < k < |r| && node == r[k]
    modifies r
    ensures Ring(Without(r, k)) && node.next == null && node.prev == null
    ensures forall j {:trigger r[j]} :: 0 <= j < |r| ==> r[j].item == old(r[j].item)
  {
    assert LinkAt(r, k) && LinkAt(r, k - 1);
    node.next.prev := node.prev;
    node.prev.next := node.next;
    node.next := null;
    node.prev := null;
    ghost var s := Without(r, k);
    forall j: nat | j < |s|
      ensures LinkAt(s, j)
    {
      assert old(LinkAt(r, if j < k then j else j + 1));
    }
  }

  /** Moves a node from one list to the end of another. */
  method ListMove<T>(newhdr: ListHead<T>, node: ListHead<T>, ghost r: seq<ListHead<T>>, ghost k: nat, ghost q: seq<ListHead<T>>)
    requires Ring(r) && 0 < k < |r| && node == r[k] && Ring(q) && newhdr == q[0]
    requires forall i, j {:trigger r[i], q[j]} :: 0 <= i < |r| && 0 <= j < |q| ==> r[i] != q[j]
    modifies r, q
    ensures Ring(Without(r, k)) && Ring(q + [node])
    ensures forall j {:trigger r[j]} :: 0 <= j < |r| ==> r[j].item == old(r[j].item)
    ensures forall j {:trigger q[j]} :: 0 <= j < |q| ==> q[j].item == old(q[j].item)
  {
    ListRemove(node, r, k);
    ghost var s := Without(r, k);
    assert Ring(q) by {
      forall j: nat | j < |q|
        ensures LinkAt(q, j)
      {
        assert q[j] !in r && q[After(j, |q|)] !in r;
        assert old(LinkAt(q, j));
      }
    }
    label Removed:
    assert node !in q && node !in s;
    ListAddToEnd(newhdr, node, q);
    forall j: nat | j < |s|
      ensures LinkAt(s, j)
    {
      assert s[j] !in q && s[After(j, |s|)] !in q;
      assert old@Removed(LinkAt(s, j));
    }
  }

  /** Hands all nodes of a list over to another header. */
  method ListReplaceHeader<T>(hdr: ListHead<T>, newhdr: ListHead<T>, ghost r: seq<ListHead<T>>)
    requires Ring(r) && hdr == r[0] && newhdr !in r
    modifies r, newhdr
    ensures Ring([hdr]) && Ring([newhdr] + r[1..])
    ensures forall j {:trigger r[j]} :: 0 <= j < |r| ==> r[j].item == old(r[j].item)
  {
    var empty := ListIsEmpty(hdr, r);
    if empty {
      ListInitHead(newhdr);
      assert r == [hdr] && [newhdr] + r[1..] == [newhdr];
      assert Ring([hdr]) by {
        assert old(LinkAt(r, 0));
        assert LinkAt([hdr], 0);
      }
    } else {
      assert LinkAt(r, 0) && LinkAt(r, |r| - 1);
      newhdr.next := hdr.next;
      newhdr.prev := hdr.prev;
      hdr.next.prev := newhdr;
      hdr.prev.next := newhdr;
      ListInitHead(hdr);
      ghost var s := [newhdr] + r[1..];
      forall j: nat | j < |s|
        ensures LinkAt(s, j)
      {
        assert old(LinkAt(r, j));
      }
    }
  }

  /** Place k of the ring is the first from the tail that the comparer does not pass by, or the header. */
  ghost predicate FirstFromTail<T>(r: seq<ListHead<T>>, comparer: T -> int, k: nat)
    reads r
  {
    && k < |r| && (k > 0 ==> comparer(r[k].item) >= 0)
    && forall j {:trigger r[j]} :: k < j < |r| ==> comparer(r[j].item) < 0
  }

  /** Searches from the tail for the node to insert after. It is a duplicate if the comparer calls it equal. */
  method ListInsertFromTail<T>(hdr: ListHead<T>, comparer: T -> int, ghost r: seq<ListHead<T>>) returns (pos: ListHead<T>, isdup: bool)
    requires Ring(r) && hdr == r[0]
    ensures exists k: nat :: FirstFromTail(r, comparer, k) && pos == r[k] && (isdup <==> k > 0 && comparer(r[k].item) == 0)
  {
    isdup := false;
    ghost var k: nat := |r| - 1;
    assert LinkAt(r, k);
    pos := hdr.prev;
    while pos != hdr
      invariant k < |r| && pos == r[k]
      invariant forall j {:trigger r[j]} :: k < j < |r| ==> comparer(r[j].item) < 0
      invariant !isdup
      decreases k
    {
      var ret := comparer(pos.item);
      if ret >= 0 {
        isdup := ret == 0;
        break;
      }
      assert LinkAt(r, k - 1);
      pos := pos.prev;
      k := k - 1;
    }
    assert FirstFromTail(r, comparer, k);
  }
}
