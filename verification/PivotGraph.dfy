/** The graph of src/fast_decode.cpp (lines 30-101) that picks the pivot row among the rows with two ones:
    a union-find forest over the columns, kept as pairs (component size, parent). */
module PivotGraph {
  import opened Permutations

  datatype Pair = Pair(first: int, second: int)

  const MAX_CONNECTIONS := 250

  ghost predicate Adjacent(edges: set<(nat, nat)>, a: nat, b: nat) {
    (a, b) in edges || (b, a) in edges
  }

  ghost predicate IsPath(edges: set<(nat, nat)>, p: seq<nat>, a: nat, b: nat) {
    && p != [] && p[0] == a && p[|p| - 1] == b
    && forall k :: 0 <= k < |p| - 1 ==> Adjacent(edges, p[k], p[k + 1])
  }

  /** The edges connect a and b. */
  ghost predicate Linked(edges: set<(nat, nat)>, a: nat, b: nat) {
    exists p :: IsPath(edges, p, a, b)
  }

  /** The nodes below size that the edges connect to node n. */
  ghost function Component(edges: set<(nat, nat)>, size: nat, n: nat): set<nat> {
    set m: nat | m < size && Linked(edges, n, m)
  }

  lemma LinkedSelf(edges: set<(nat, nat)>, a: nat)
    ensures Linked(edges, a, a)
  {
    assert IsPath(edges, [a], a, a);
  }

  lemma LinkedEdge(edges: set<(nat, nat)>, a: nat, b: nat)
    requires Adjacent(edges, a, b)
    ensures Linked(edges, a, b)
  {
    assert IsPath(edges, [a, b], a, b);
  }

  lemma LinkedTransitive(edges: set<(nat, nat)>, a: nat, b: nat, c: nat)
    requires Linked(edges, a, b) && Linked(edges, b, c)
    ensures Linked(edges, a, c)
  {
    var p :| IsPath(edges, p, a, b);
    var q :| IsPath(edges, q, b, c);
    var r := p + q[1..];
    assert forall k :: 0 <= k < |r| - 1 ==> r[k] == (if k < |p| then p[k] else q[k - |p| + 1]);
    forall k | 0 <= k < |r| - 1
      ensures Adjacent(edges, r[k], r[k + 1])
    {
      if k < |p| - 1 {
        assert Adjacent(edges, p[k], p[k + 1]);
      } else {
        assert Adjacent(edges, q[k - |p| + 1], q[k - |p| + 2]);
      }
    }
    assert IsPath(edges, r, a, c);
  }

  lemma LinkedSymmetric(edges: set<(nat, nat)>, a: nat, b: nat)
    requires Linked(edges, a, b)
    ensures Linked(edges, b, a)
  {
    var p :| IsPath(edges, p, a, b);
    var r := seq(|p|, k requires 0 <= k < |p| => p[|p| - 1 - k]);
    forall k | 0 <= k < |r| - 1
      ensures Adjacent(edges, r[k], r[k + 1])
    {
      assert Adjacent(edges, p[|p| - 2 - k], p[|p| - 1 - k]);
    }
    assert IsPath(edges, r, b, a);
  }

  lemma LinkedMonotone(edges: set<(nat, nat)>, more: set<(nat, nat)>, a: nat, b: nat)
    requires edges <= more && Linked(edges, a, b)
    ensures Linked(more, a, b)
  {
    var p :| IsPath(edges, p, a, b);
    forall k | 0 <= k < |p| - 1
      ensures Adjacent(more, p[k], p[k + 1])
    {
      assert Adjacent(edges, p[k], p[k + 1]);
    }
    assert IsPath(more, p, a, b);
  }

  /** The tags are constant along every edge. */
  ghost predicate Respects(edges: set<(nat, nat)>, tag: seq<nat>) {
    forall e :: e in edges ==> e.0 < e.1 < |tag| && tag[e.0] == tag[e.1]
  }

  lemma {:induction false} PathKeepsLabel(edges: set<(nat, nat)>, tag: seq<nat>, p: seq<nat>, a: nat, b: nat)
    requires Respects(edges, tag) && a < |tag|
    requires IsPath(edges, p, a, b)
    ensures b < |tag| && tag[a] == tag[b]
    decreases |p|
  {
    if |p| > 1 {
      assert Adjacent(edges, p[0], p[1]);
      assert forall k :: 0 <= k < |p[1..]| - 1 ==> Adjacent(edges, p[1..][k], p[1..][k + 1]) by {
        assert forall k :: 0 <= k < |p| - 1 ==> Adjacent(edges, p[k], p[k + 1]);
        forall k | 0 <= k < |p[1..]| - 1 ensures Adjacent(edges, p[1..][k], p[1..][k + 1]) {
          assert Adjacent(edges, p[k + 1], p[k + 2]);
        }
      }
      PathKeepsLabel(edges, tag, p[1..], p[1], b);
    }
  }

  /** The nodes with tag r. */
  ghost function Members(tag: seq<nat>, r: nat): (m: set<nat>)
    ensures forall n: nat :: n in m <==> n < |tag| && tag[n] == r
  {
    set n: nat | n < |tag| && tag[n] == r
  }

  ghost function Merge(tag: seq<nat>, ra: nat, rb: nat): (r: seq<nat>)
    ensures |r| == |tag| && forall n :: 0 <= n < |tag| ==> r[n] == if tag[n] == rb then ra else tag[n]
  {
    seq(|tag|, n requires 0 <= n < |tag| => if tag[n] == rb then ra else tag[n])
  }

  lemma MergeMembers(tag: seq<nat>, ra: nat, rb: nat)
    requires ra != rb
    ensures |Members(Merge(tag, ra, rb), ra)| == |Members(tag, ra)| + |Members(tag, rb)|
    ensures forall r :: r != ra && r != rb ==> Members(Merge(tag, ra, rb), r) == Members(tag, r)
  {
    assert Members(Merge(tag, ra, rb), ra) == Members(tag, ra) + Members(tag, rb);
    assert Members(tag, ra) !! Members(tag, rb);
  }

  ghost predicate TaggedAt(edges: set<(nat, nat)>, tag: seq<nat>, n: nat) {
    n < |tag| && tag[n] < |tag| && Linked(edges, n, tag[n])
  }

  /** Each node is linked to the node that tags it, and edges never leave a tag: the tags are
      exactly the connected components. */
  ghost predicate Labels(edges: set<(nat, nat)>, tag: seq<nat>) {
    && Respects(edges, tag)
    && forall n: nat {:trigger TaggedAt(edges, tag, n)} :: n < |tag| ==> TaggedAt(edges, tag, n)
  }

  /** Two nodes share a tag exactly when the edges connect them. */
  lemma SameLabelIffLinked(edges: set<(nat, nat)>, tag: seq<nat>, a: nat, b: nat)
    requires Labels(edges, tag) && a < |tag| && b < |tag|
    ensures tag[a] == tag[b] <==> Linked(edges, a, b)
  {
    assert TaggedAt(edges, tag, a) && TaggedAt(edges, tag, b);
    if Linked(edges, a, b) {
      var p :| IsPath(edges, p, a, b);
      PathKeepsLabel(edges, tag, p, a, b);
    }
    if tag[a] == tag[b] {
      LinkedSymmetric(edges, b, tag[b]);
      LinkedTransitive(edges, a, tag[a], b);
    }
  }

  lemma ComponentIsMembers(edges: set<(nat, nat)>, tag: seq<nat>, n: nat)
    requires Labels(edges, tag) && n < |tag|
    ensures Component(edges, |tag|, n) == Members(tag, tag[n])
  {
    forall m: nat | m < |tag|
      ensures m in Component(edges, |tag|, n) <==> m in Members(tag, tag[n])
    {
      SameLabelIffLinked(edges, tag, n, m);
    }
  }

  lemma MergeLabels(edges: set<(nat, nat)>, tag: seq<nat>, a: nat, b: nat)
    requires Labels(edges, tag) && a < b < |tag|
    ensures Labels(edges + {(a, b)}, Merge(tag, tag[a], tag[b]))
  {
    var more, tag' := edges + {(a, b)}, Merge(tag, tag[a], tag[b]);
    assert TaggedAt(edges, tag, a) && TaggedAt(edges, tag, b);
    forall n: nat | n < |tag|
      ensures TaggedAt(more, tag', n)
    {
      assert TaggedAt(edges, tag, n);
      LinkedMonotone(edges, more, n, tag[n]);
      if tag[n] == tag[b] {
        LinkedMonotone(edges, more, b, tag[b]);
        LinkedMonotone(edges, more, a, tag[a]);
        LinkedSymmetric(more, b, tag[b]);
        assert Adjacent(more, b, a);
        LinkedEdge(more, b, a);
        LinkedTransitive(more, n, tag[b], b);
        LinkedTransitive(more, n, b, a);
        LinkedTransitive(more, n, a, tag[a]);
      }
    }
    assert Respects(more, tag');
  }

  /** An edge inside a component changes no tag. */
  lemma KeepLabels(edges: set<(nat, nat)>, tag: seq<nat>, a: nat, b: nat)
    requires Labels(edges, tag) && a < b < |tag| && tag[a] == tag[b]
    ensures Labels(edges + {(a, b)}, tag)
  {
    MergeLabels(edges, tag, a, b);
    assert Merge(tag, tag[a], tag[b]) == tag;
  }

  ghost predicate BoundedAt(root: seq<nat>, max: int, n: nat) {
    n < |root| && |Members(root, root[n])| <= max
  }

  ghost predicate ReachedAt(root: seq<nat>, max: int, n: nat) {
    n < |root| && |Members(root, root[n])| == max
  }

  /** max is the greatest component size. */
  ghost predicate IsMaximum(root: seq<nat>, max: int) {
    && (forall n: nat {:trigger BoundedAt(root, max, n)} :: n < |root| ==> BoundedAt(root, max, n))
    && (exists n: nat {:trigger ReachedAt(root, max, n)} :: ReachedAt(root, max, n))
  }

  /** After a merge the maximum is the old one or the size of the merged component. */
  lemma MergedMaximum(root: seq<nat>, ra: nat, rb: nat, max: int)
    requires ra < |root| && rb < |root| && ra != rb && root[ra] == ra && root[rb] == rb
    requires IsMaximum(root, max) || (max == 0 && root == Identity(|root|))
    ensures var merged := |Members(Merge(root, ra, rb), ra)|;
      IsMaximum(Merge(root, ra, rb), if max < merged then merged else max)
  {
    MergeMembers(root, ra, rb);
    var root' := Merge(root, ra, rb);
    var merged := |Members(root', ra)|;
    var max' := if max < merged then merged else max;
    if IsMaximum(root, max) {
      var n: nat :| ReachedAt(root, max, n);
      assert ReachedAt(root', max', if max < merged then ra else n);
      forall n: nat | n < |root'|
        ensures BoundedAt(root', max', n)
      {
        assert BoundedAt(root, max, n);
      }
    } else {
      assert ReachedAt(root', max', ra);
      forall n: nat | n < |root'|
        ensures BoundedAt(root', max', n)
      {
        assert Members(root, n) == {n} && Members(root, ra) == {ra};
      }
    }
  }

  /** The parent of node n has the same root and is strictly nearer to it, unless n is the root. */
  ghost predicate ParentAt(conn: seq<Pair>, root: seq<nat>, depth: seq<nat>, n: nat)
    requires n < |conn| == |root| == |depth|
  {
    var p := conn[n].second;
    && 0 <= p < |conn| && root[n] < |conn|
    && root[p] == root[n] && root[root[n]] == root[n]
    && (p == n <==> root[n] == n)
    && if root[n] == n then depth[n] == 0 else depth[p] < depth[n]
  }

  ghost predicate Parents(conn: seq<Pair>, root: seq<nat>, depth: seq<nat>) {
    && |conn| == |root| == |depth|
    && forall n: nat {:trigger ParentAt(conn, root, depth, n)} :: n < |conn| ==> ParentAt(conn, root, depth, n)
  }

  /** The root of node n holds the size of the component. */
  ghost predicate SizeAt(conn: seq<Pair>, root: seq<nat>, n: nat) {
    n < |root| && root[n] < |conn| && conn[root[n]].first == |Members(root, root[n])|
  }

  ghost predicate Sizes(conn: seq<Pair>, root: seq<nat>) {
    forall n: nat {:trigger SizeAt(conn, root, n)} :: n < |root| ==> SizeAt(conn, root, n)
  }

  /** The pairs after linking root rb under root ra; the two nodes a and b are moved up to ra. */
  ghost function Link(conn: seq<Pair>, a: nat, b: nat, ra: nat, rb: nat): seq<Pair>
    requires a < |conn| && b < |conn| && ra < |conn| && rb < |conn|
  {
    var p := Pair(conn[ra].first + conn[rb].first, ra);
    conn[ra := p][rb := p][a := p][b := p]
  }

  ghost function Deepen(root: seq<nat>, depth: seq<nat>, rb: nat): (r: seq<nat>)
    requires |root| == |depth|
    ensures |r| == |depth|
    ensures forall n :: 0 <= n < |r| ==> r[n] == if root[n] == rb then depth[n] + 1 else depth[n]
  {
    seq(|depth|, n requires 0 <= n < |depth| => if root[n] == rb then depth[n] + 1 else depth[n])
  }

  lemma LinkParents(conn: seq<Pair>, root: seq<nat>, depth: seq<nat>, a: nat, b: nat)
    requires Parents(conn, root, depth)
    requires a < |conn| && b < |conn| && root[a] < |conn| && root[b] < |conn| && root[a] != root[b]
    ensures Parents(Link(conn, a, b, root[a], root[b]), Merge(root, root[a], root[b]), Deepen(root, depth, root[b]))
  {
    var ra, rb := root[a], root[b];
    var conn', root', depth' := Link(conn, a, b, ra, rb), Merge(root, ra, rb), Deepen(root, depth, rb);
    assert ParentAt(conn, root, depth, a) && ParentAt(conn, root, depth, b);
    forall n: nat | n < |conn|
      ensures ParentAt(conn', root', depth', n)
    {
      assert ParentAt(conn, root, depth, n) && ParentAt(conn, root, depth, ra) && ParentAt(conn, root, depth, rb);
    }
  }

  lemma LinkSizes(conn: seq<Pair>, root: seq<nat>, depth: seq<nat>, a: nat, b: nat)
    requires Parents(conn, root, depth) && Sizes(conn, root)
    requires a < |conn| && b < |conn| && root[a] < |conn| && root[b] < |conn| && root[a] != root[b]
    ensures Sizes(Link(conn, a, b, root[a], root[b]), Merge(root, root[a], root[b]))
  {
    var ra, rb := root[a], root[b];
    var conn', root' := Link(conn, a, b, ra, rb), Merge(root, ra, rb);
    MergeMembers(root, ra, rb);
    assert ParentAt(conn, root, depth, a) && ParentAt(conn, root, depth, b);
    forall n: nat | n < |root'|
      ensures SizeAt(conn', root', n)
    {
      assert SizeAt(conn, root, a) && SizeAt(conn, root, b) && SizeAt(conn, root, n);
      assert ParentAt(conn, root, depth, n);
    }
  }

  /** The recorded maximum singles out the members of maximum components. */
  lemma MaximumIsMaximum(edges: set<(nat, nat)>, root: seq<nat>, max: int, id: nat)
    requires Labels(edges, root) && IsMaximum(root, max) && id < |root|
    ensures max == |Members(root, root[id])| <==>
      forall m: nat :: m < |root| ==> |Component(edges, |root|, m)| <= |Component(edges, |root|, id)|
  {
    ComponentIsMembers(edges, root, id);
    forall m: nat | m < |root|
      ensures Component(edges, |root|, m) == Members(root, root[m])
    {
      ComponentIsMembers(edges, root, m);
    }
    assert BoundedAt(root, max, id);
    var n: nat :| ReachedAt(root, max, n);
    assert |Component(edges, |root|, n)| == max;
    forall m: nat | m < |root|
      ensures |Component(edges, |root|, m)| <= max
    {
      assert BoundedAt(root, max, m);
    }
  }

  class Graph {
    const maxSize: nat
    const connections: array<Pair>
    var curSize: nat
    var maxConnections: int
    var numOfConnections: int
    ghost var edges: set<(nat, nat)>
    ghost var root: seq<nat>
    ghost var depth: seq<nat>

    ghost predicate Valid()
      reads this, connections
    {
      && IsForest()
      && (numOfConnections > 0 <==> edges != {}) && numOfConnections >= 0
      && (edges == {} ==> maxConnections == 0 && root == Identity(curSize))
      && (edges != {} ==> IsMaximum(root, maxConnections))
    }

    /** The parents lead, getting strictly nearer, to a root; the roots tag the connected components and
        hold the component sizes. */
    ghost predicate IsForest()
      reads this, connections
    {
      && curSize <= maxSize <= MAX_CONNECTIONS && connections.Length == MAX_CONNECTIONS
      && |root| == curSize && Labels(edges, root)
      && Parents(connections[..curSize], root, depth) && Sizes(connections[..curSize], root)
    }

    constructor (maxSize: nat)
      requires maxSize <= MAX_CONNECTIONS
      ensures Valid() && fresh(connections)
      ensures this.maxSize == maxSize && curSize == 0 && edges == {}
    {
      this.maxSize := maxSize;
      connections := new Pair[MAX_CONNECTIONS](_ => Pair(0, 0));
      curSize, maxConnections, numOfConnections := 0, 0, 0;
      edges, root, depth := {}, [], [];
    }

    /** Starts a graph of size nodes without edges. */
    method Reset(size: nat)
      requires Valid() && 0 < size <= maxSize
      modifies this, connections
      ensures Valid() && curSize == size && edges == {} && numOfConnections == 0
    {
      curSize, maxConnections, numOfConnections := size, 0, 0;
      for i := 0 to size
        invariant curSize == size && maxConnections == 0 && numOfConnections == 0
        invariant forall k :: 0 <= k < i ==> connections[k] == Pair(1, k)
      {
        connections[i] := Pair(1, i);
      }
      edges := {};
      root := Identity(size);
      depth := seq(size, _ => 0);
      forall n: nat | n < size
        ensures SizeAt(connections[..size], root, n) && TaggedAt(edges, root, n)
      {
        LinkedSelf(edges, n);
        assert Members(root, n) == {n};
      }
    }

    /** Follows the parents to the root of a component. */
    method Find(id: nat) returns (r: nat)
      requires IsForest() && id < curSize
      ensures r == root[id] && r < curSize
    {
      var tmp: nat := id;
      assert ParentAt(connections[..curSize], root, depth, tmp);
      while connections[tmp].second != tmp
        invariant tmp < curSize && root[tmp] == root[id] && ParentAt(connections[..curSize], root, depth, tmp)
        decreases depth[tmp]
      {
        tmp := connections[tmp].second;
        assert ParentAt(connections[..curSize], root, depth, tmp);
      }
      r := tmp;
    }

    /** Writes the merged pair to both roots and to both nodes. */
    method LinkRoots(nodeA: nat, nodeB: nat, repA: nat, repB: nat)
      requires curSize <= connections.Length
      requires nodeA < curSize && nodeB < curSize && repA < curSize && repB < curSize
      modifies connections
      ensures connections[..curSize] == Link(old(connections[..curSize]), nodeA, nodeB, repA, repB)
    {
      connections[repA] := Pair(connections[repA].first + connections[repB].first, repA);
      connections[repB] := connections[repA];
      if nodeA != repA {
        connections[nodeA] := connections[repA];
      }
      if nodeB != repB {
        connections[nodeB] := connections[repB];
      }
    }

    /** Joins two components by an edge between nodes a and b of them. */
    method Unite(nodeA: nat, nodeB: nat, repA: nat, repB: nat)
      requires IsForest() && nodeA < nodeB < curSize
      requires repA == root[nodeA] && repB == root[nodeB] && repA != repB && repA < curSize && repB < curSize
      modifies this`edges, this`root, this`depth, connections
      ensures IsForest() && edges == old(edges) + {(nodeA, nodeB)}
      ensures root == Merge(old(root), repA, repB)
      ensures connections[repA].first == |Members(root, repA)|
    {
      ghost var conn := connections[..curSize];
      MergeLabels(edges, root, nodeA, nodeB);
      LinkParents(conn, root, depth, nodeA, nodeB);
      LinkSizes(conn, root, depth, nodeA, nodeB);
      LinkRoots(nodeA, nodeB, repA, repB);
      edges := edges + {(nodeA, nodeB)};
      depth := Deepen(root, depth, repB);
      root := Merge(root, repA, repB);
      assert SizeAt(connections[..curSize], root, nodeA);
    }

    /** Adds an edge: the components of its ends become one. */
    method Connect(nodeA: nat, nodeB: nat)
      requires Valid() && nodeA < nodeB < curSize
      modifies this, connections
      ensures Valid() && curSize == old(curSize) && edges == old(edges) + {(nodeA, nodeB)} && numOfConnections == old(numOfConnections) + 1
    {
      numOfConnections := numOfConnections + 1;
      var repA := Find(nodeA);
      var repB := Find(nodeB);
      assert (nodeA, nodeB) in edges + {(nodeA, nodeB)};
      if repA == repB {
        KeepLabels(edges, root, nodeA, nodeB);
        edges := edges + {(nodeA, nodeB)};
        return;
      }
      assert root[repA] == repA && root[repB] == repB by {
        assert ParentAt(connections[..curSize], root, depth, nodeA) && ParentAt(connections[..curSize], root, depth, nodeB);
      }
      MergedMaximum(root, repA, repB, maxConnections);
      Unite(nodeA, nodeB, repA, repB);
      if maxConnections < connections[repA].first {
        maxConnections := connections[repA].first;
      }
    }

    /** Whether a node lies in a component of maximum size. */
    method IsMax(id: nat) returns (r: bool)
      requires Valid() && id < curSize
      ensures edges != {} ==> (r <==> forall m: nat :: m < curSize ==> |Component(edges, curSize, m)| <= |Component(edges, curSize, id)|)
    {
      var rep := Find(id);
      r := maxConnections == connections[rep].first;
      assert SizeAt(connections[..curSize], root, id);
      if edges != {} {
        MaximumIsMaximum(edges, root, maxConnections, id);
      }
    }
  }
}
