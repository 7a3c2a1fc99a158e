/** Membership changes on the ring and the replica lists read off it. */
module RingMembership {
  import opened GoStrings
  import opened HashRing

  datatype VNode = VNode(id: Str, hash: Hash, node: Str)

  /** The three fields of the hasher: sorted points, the name at each point, each node's points. */
  datatype Ring = Ring(points: seq<Hash>, ids: map<Hash, Str>, vnodes: map<Str, seq<Hash>>)

  function IdAt(ids: map<Hash, Str>, h: Hash): (id: Str) { if h in ids then ids[h] else [] }

  function NodeAt(r: Ring, h: Hash): (node: Str) { NodeOf(IdAt(r.ids, h)) }

  function VNodeAt(ids: map<Hash, Str>, h: Hash): (v: VNode) { VNode(IdAt(ids, h), h, NodeOf(IdAt(ids, h))) }

  function VNodesAt(ids: map<Hash, Str>, pts: seq<Hash>): (vs: seq<VNode>)
    ensures |vs| == |pts| && forall i :: 0 <= i < |pts| ==> vs[i] == VNodeAt(ids, pts[i])
  {
    seq(|pts|, i requires 0 <= i < |pts| => VNodeAt(ids, pts[i]))
  }

  // ---------- one virtual node per physical node ----------

  ghost predicate HasNode(vs: seq<VNode>, node: Str) {
    exists i :: 0 <= i < |vs| && vs[i].node == node
  }

  /** The first virtual node of each physical node, in order. */
  ghost function FirstOfEach(vs: seq<VNode>): (r: seq<VNode>) {
    if vs == [] then []
    else
      var d, v := FirstOfEach(vs[..|vs| - 1]), vs[|vs| - 1];
      if HasNode(d, v.node) then d else d + [v]
  }

  ghost function DropNode(vs: seq<VNode>, n: Str): (r: seq<VNode>) {
    if vs == [] then []
    else if vs[0].node == n then DropNode(vs[1..], n)
    else [vs[0]] + DropNode(vs[1..], n)
  }

  ghost predicate NodesDistinct(vs: seq<VNode>) {
    forall i, j :: 0 <= i < j < |vs| ==> vs[i].node != vs[j].node
  }

  lemma {:induction false} FirstOfEachNodes(vs: seq<VNode>)
    ensures NodesDistinct(FirstOfEach(vs))
    ensures forall n :: HasNode(FirstOfEach(vs), n) <==> HasNode(vs, n)
  {
    if vs != [] {
      var init, v := vs[..|vs| - 1], vs[|vs| - 1];
      FirstOfEachNodes(init);
      forall n ensures HasNode(vs, n) <==> HasNode(init, n) || v.node == n {
        if HasNode(init, n) { var i :| 0 <= i < |init| && init[i].node == n; assert vs[i].node == n; }
        if HasNode(vs, n) { var i :| 0 <= i < |vs| && vs[i].node == n; assert i < |init| ==> init[i].node == n; }
        if v.node == n { assert vs[|vs| - 1].node == n; }
      }
      var d := FirstOfEach(init);
      if !HasNode(d, v.node) { HasNodeAppend(d, v); }
    }
  }

  lemma HasNodeAppend(d: seq<VNode>, v: VNode)
    ensures forall n :: HasNode(d + [v], n) <==> HasNode(d, n) || v.node == n
  {
    forall n ensures HasNode(d + [v], n) <==> HasNode(d, n) || v.node == n {
      if HasNode(d, n) { var i :| 0 <= i < |d| && d[i].node == n; assert (d + [v])[i].node == n; }
      if v.node == n { assert (d + [v])[|d|].node == n; }
    }
  }

  lemma {:induction false} FirstOfEachPrefix(vs: seq<VNode>, i: nat)
    requires i <= |vs|
    ensures FirstOfEach(vs[..i]) <= FirstOfEach(vs)
    decreases |vs|
  {
    if i < |vs| {
      assert vs[..|vs| - 1][..i] == vs[..i];
      FirstOfEachPrefix(vs[..|vs| - 1], i);
    } else {
      assert vs[..i] == vs;
    }
  }

  lemma {:induction false} DropNodeAppend(vs: seq<VNode>, v: VNode, n: Str)
    ensures DropNode(vs + [v], n) == DropNode(vs, n) + if v.node == n then [] else [v]
  {
    if vs == [] {
      assert vs + [v] == [v] && [v][1..] == [];
    } else {
      assert (vs + [v])[1..] == vs[1..] + [v];
      DropNodeAppend(vs[1..], v, n);
    }
  }

  lemma {:induction false} DropNodeHas(vs: seq<VNode>, n: Str, m: Str)
    ensures HasNode(DropNode(vs, n), m) <==> HasNode(vs, m) && m != n
  {
    if vs != [] {
      var init, v := vs[..|vs| - 1], vs[|vs| - 1];
      assert vs == init + [v];
      DropNodeHas(init, n, m);
      DropNodeAppend(init, v, n);
      HasNodeAppend(init, v);
      if v.node != n { HasNodeAppend(DropNode(init, n), v); } else { assert DropNode(vs, n) == DropNode(init, n); }
    }
  }

  /** Dropping a node before or after deduplication is the same. */
  lemma {:induction false} DropNodeCommutes(vs: seq<VNode>, n: Str)
    ensures FirstOfEach(DropNode(vs, n)) == DropNode(FirstOfEach(vs), n)
  {
    if vs != [] {
      var init, v := vs[..|vs| - 1], vs[|vs| - 1];
      assert vs == init + [v];
      DropNodeCommutes(init, n);
      DropNodeAppend(init, v, n);
      DropNodeAppend(FirstOfEach(init), v, n);
      DropNodeHas(FirstOfEach(init), n, v.node);
      if v.node == n {
        assert DropNode(vs, n) == DropNode(init, n);
        assert DropNode(FirstOfEach(vs), n) == DropNode(FirstOfEach(init), n);
      } else {
        var d := DropNode(vs, n);
        assert d[..|d| - 1] == DropNode(init, n) && d[|d| - 1] == v;
      }
    }
  }

  /** The full clockwise preference list from `h`. */
  ghost function Preference(r: Ring, h: Hash): (vs: seq<VNode>) {
    FirstOfEach(VNodesAt(r.ids, Clockwise(r.points, h)))
  }

  ghost function Take(vs: seq<VNode>, count: nat): (r: seq<VNode>) {
    if count <= |vs| then vs[..count] else vs
  }

  /** The physical node that owns hash `h`: that of the first point met, "" on an empty ring. */
  ghost function Owner(r: Ring, h: Hash): (node: Str) {
    if r.points == [] then [] else NodeAt(r, Clockwise(r.points, h)[0])
  }

  // ---------- adding and removing nodes ----------

  function Hashes(hash: Str -> Hash, node: Str, count: nat): (hs: seq<Hash>)
    ensures |hs| == count && forall i :: 0 <= i < count ==> hs[i] == hash(VNodeId(node, i))
  {
    seq<Hash>(count, i requires 0 <= i < count => hash(VNodeId(node, i)))
  }

  function AddIds(ids: map<Hash, Str>, hash: Str -> Hash, node: Str, count: nat): (r: map<Hash, Str>) {
    if count == 0 then ids
    else AddIds(ids, hash, node, count - 1)[hash(VNodeId(node, count - 1)) := VNodeId(node, count - 1)]
  }

  function Added(r: Ring, hash: Str -> Hash, node: Str, count: nat): (r': Ring) {
    Ring(Sort(r.points + Hashes(hash, node, count)), AddIds(r.ids, hash, node, count),
         r.vnodes[node := Hashes(hash, node, count)])
  }

  function PointsOf(hs: seq<Hash>): (s: set<Hash>) { set h | h in hs }

  function Removed(r: Ring, node: Str): (r': Ring) {
    if node !in r.vnodes then r
    else
      var dead := PointsOf(r.vnodes[node]);
      Ring(Without(r.points, dead), r.ids - dead, r.vnodes - {node})
  }

  class ConsistentHasher {
    const hash: Str -> Hash
    var ring: seq<Hash>
    var ringMap: map<Hash, Str>
    var nodeVNodes: map<Str, seq<Hash>>

    ghost function State(): (r: Ring)
      reads this
    {
      Ring(ring, ringMap, nodeVNodes)
    }

    constructor (hash: Str -> Hash)
      ensures this.hash == hash && State() == Ring([], map[], map[])
    {
      this.hash := hash;
      ring, ringMap, nodeVNodes := [], map[], map[];
    }

    method AddNode(nodeID: Str, virtualNodeCount: nat)
      modifies this
      ensures State() == Added(old(State()), hash, nodeID, virtualNodeCount)
    {
      var vnodeHashes: seq<Hash> := [];
      for i := 0 to virtualNodeCount
        invariant vnodeHashes == Hashes(hash, nodeID, i)
        invariant ring == old(ring) + vnodeHashes
        invariant ringMap == AddIds(old(ringMap), hash, nodeID, i)
        invariant nodeVNodes == old(nodeVNodes)
      {
        var vnodeID := VNodeId(nodeID, i);
        var h := hash(vnodeID);
        ring := ring + [h];
        ringMap := ringMap[h := vnodeID];
        vnodeHashes := vnodeHashes + [h];
      }
      nodeVNodes := nodeVNodes[nodeID := vnodeHashes];
      ring := Sort(ring);
    }

    method RemoveNode(nodeID: Str)
      modifies this
      ensures State() == Removed(old(State()), nodeID)
    {
      if nodeID !in nodeVNodes {
        return;
      }
      var vnodeHashes := nodeVNodes[nodeID];
      var hashSet: set<Hash> := {};
      for i := 0 to |vnodeHashes|
        invariant hashSet == PointsOf(vnodeHashes[..i])
        invariant ringMap == old(ringMap) - hashSet && ring == old(ring) && nodeVNodes == old(nodeVNodes)
      {
        hashSet := hashSet + {vnodeHashes[i]};
        ringMap := ringMap - {vnodeHashes[i]};
      }
      assert vnodeHashes[..|vnodeHashes|] == vnodeHashes;
      ring := Filter(ring, hashSet);
      nodeVNodes := nodeVNodes - {nodeID};
    }

    /** The filter loop of RemoveNode. */
    static method Filter(ring: seq<Hash>, hashSet: set<Hash>) returns (newRing: seq<Hash>)
      ensures newRing == Without(ring, hashSet)
    {
      newRing := [];
      for i := 0 to |ring|
        invariant newRing == Without(ring[..i], hashSet)
      {
        WithoutConcat(ring[..i], [ring[i]], hashSet);
        assert ring[..i + 1] == ring[..i] + [ring[i]];
        assert [ring[i]][1..] == [];
        if ring[i] !in hashSet {
          newRing := newRing + [ring[i]];
        }
      }
      assert ring[..|ring|] == ring;
    }

    method GetNodes(keyHash: Hash, count: nat) returns (nodes: seq<VNode>)
      requires Sorted(ring)
      ensures nodes == Take(Preference(State(), keyHash), count)
    {
      hide HasNode, Clockwise, NodeOf, Sorted, IdAt;
      if |ring| == 0 {
        EmptyWalk(keyHash);
        return [];
      }
      ghost var walk := VNodesAt(ringMap, Clockwise(ring, keyHash));
      var idx := SearchFirst(ring, keyHash);
      ghost var k := idx;
      if idx >= |ring| {
        idx := 0;
      }
      nodes := [];
      var seen: set<Str> := {};
      ClockwiseLength(ring, keyHash, k);
      NoNodes();
      var i := 0;
      while i < |ring| && |nodes| < count
        invariant 0 <= i <= |ring| && |nodes| <= count
        invariant nodes == FirstOfEach(walk[..i])
        invariant forall n :: n in seen <==> HasNode(nodes, n)
      {
        var ringIdx := (idx + i) % |ring|;
        WalkStep(ring, keyHash, k, i);
        var h := ring[ringIdx];
        var vnodeID := IdAt(ringMap, h);
        var nodeID := ExtractNodeID(vnodeID);
        assert walk[..i + 1][..i] == walk[..i];
        if nodeID !in seen {
          HasNodeAppend(nodes, VNode(vnodeID, h, nodeID));
          nodes := nodes + [VNode(vnodeID, h, nodeID)];
          seen := seen + {nodeID};
        }
        i := i + 1;
      }
      FirstOfEachPrefix(walk, i);
      assert walk[..|walk|] == walk;
    }

    method GetNodeForHash(keyHash: Hash) returns (node: Str)
      requires Sorted(ring)
      ensures node == Owner(State(), keyHash)
    {
      if |ring| == 0 {
        return [];
      }
      var idx := SearchFirst(ring, keyHash);
      ClockwiseIsRotation(ring, keyHash, idx);
      if idx >= |ring| {
        idx := 0;
      }
      var vnodeID := IdAt(ringMap, ring[idx]);
      node := ExtractNodeID(vnodeID);
    }

    method GetAllVirtualNodes() returns (vnodes: seq<VNode>)
      ensures vnodes == VNodesAt(ringMap, ring)
    {
      vnodes := [];
      for i := 0 to |ring|
        invariant vnodes == VNodesAt(ringMap, ring[..i])
      {
        var vnodeID := IdAt(ringMap, ring[i]);
        var nodeID := ExtractNodeID(vnodeID);
        vnodes := vnodes + [VNode(vnodeID, ring[i], nodeID)];
      }
      assert ring[..|ring|] == ring;
    }

    /** GetPreviousHash: the point before the first copy of `currentHash`, 0 when it is no point. */
    method GetPreviousHash(currentHash: Hash) returns (prev: Hash)
      ensures currentHash !in ring ==> prev == 0
      ensures currentHash in ring ==> exists i :: 0 <= i < |ring| && ring[i] == currentHash
                                                  && currentHash !in ring[..i] && prev == ring[PrevIndex(i, |ring|)]
    {
      if |ring| == 0 {
        return 0;
      }
      var idx := -1;
      for i := 0 to |ring|
        invariant idx == -1 && currentHash !in ring[..i]
      {
        if ring[i] == currentHash {
          idx := i;
          break;
        }
      }
      assert ring[..|ring|] == ring;
      if idx == -1 {
        return 0;
      }
      var prevIdx := idx - 1;
      if prevIdx < 0 {
        prevIdx := |ring| - 1;
      }
      prev := ring[prevIdx];
    }
  }

  function PrevIndex(i: nat, n: nat): (j: nat)
    requires i < n
    ensures j < n
  {
    if i == 0 then n - 1 else i - 1
  }

  lemma EmptyWalk(h: Hash)
    ensures Clockwise([], h) == []
  {
  }

  lemma NoNodes()
    ensures forall n :: !HasNode([], n)
  {
  }

  lemma ClockwiseLength(p: seq<Hash>, h: Hash, k: nat)
    requires k <= |p|
    requires forall j :: 0 <= j < k ==> p[j] < h
    requires forall j :: k <= j < |p| ==> p[j] >= h
    ensures |Clockwise(p, h)| == |p|
  {
    ClockwiseIsRotation(p, h, k);
  }

  /** The wrapped index of the walk's `i`-th step. */
  lemma WalkStep(p: seq<Hash>, h: Hash, k: nat, i: nat)
    requires k <= |p| && i < |p|
    requires forall j :: 0 <= j < k ==> p[j] < h
    requires forall j :: k <= j < |p| ==> p[j] >= h
    ensures |Clockwise(p, h)| == |p|
    ensures var idx := if k == |p| then 0 else k; p[(idx + i) % |p|] == Clockwise(p, h)[i]
  {
    ClockwiseIsRotation(p, h, k);
    WrapAround((if k == |p| then 0 else k) + i, |p|);
  }

  lemma WrapAround(x: nat, n: nat)
    requires n > 0 && x < 2 * n
    ensures x % n == if x < n then x else x - n
  {
    var q, m := x / n, x % n;
    assert x == n * q + m && 0 <= m < n;
    assert q >= 2 ==> n * q >= n * 2;
    assert (q == 1 ==> n * q == n) && (q == 0 ==> n * q == 0);
  }

  // ---------- consistent rings ----------

  /** Points, names and node lists describe the same virtual nodes; no two of them collide. */
  ghost predicate Consistent(r: Ring, hash: Str -> Hash) {
    && Sorted(r.points)
    && (forall q :: q in r.points <==> q in r.ids)
    && (forall n :: n in r.vnodes ==> Registered(r, hash, n))
    && (forall q :: q in r.ids ==> NodeOf(r.ids[q]) in r.vnodes && q in r.vnodes[NodeOf(r.ids[q])])
  }

  ghost predicate Registered(r: Ring, hash: Str -> Hash, n: Str)
    requires n in r.vnodes
  {
    && (forall i :: 0 <= i < |r.vnodes[n]| ==>
          r.vnodes[n][i] == hash(VNodeId(n, i)) && IdAt(r.ids, r.vnodes[n][i]) == VNodeId(n, i))
    && (forall i, j :: 0 <= i < j < |r.vnodes[n]| ==> r.vnodes[n][i] != r.vnodes[n][j])
  }

  /** The points of the virtual nodes about to be added are free and distinct. */
  ghost predicate NoCollision(r: Ring, hash: Str -> Hash, node: Str, count: nat) {
    && (forall i :: 0 <= i < count ==> Hashes(hash, node, count)[i] !in r.ids)
    && (forall i, j :: 0 <= i < j < count ==> Hashes(hash, node, count)[i] != Hashes(hash, node, count)[j])
  }

  /** A fresh node's virtual nodes are free of collisions, whatever their number, exactly if the hash
      tells their names and those on the ring apart. */
  lemma NoCollisionIff(r: Ring, hash: Str -> Hash, node: Str, count: nat)
    requires Consistent(r, hash) && node !in r.vnodes
    ensures NoCollision(r, hash, node, count) <==> Separates(hash, r.ids.Values + NamesOf(node, count))
  {
    hide VNodeId, NodeOf, Consistent;
    var names := NamesOf(node, count);
    forall q | q in r.ids ensures RingName(r, hash, q) { NamedPoint(r, hash, q); }
    if NoCollision(r, hash, node, count) {
      forall a, b | a in r.ids.Values + names && b in r.ids.Values + names && hash(a) == hash(b) ensures a == b {
        SeparateNames(r, hash, node, count, a, b);
      }
    }
    if Separates(hash, r.ids.Values + names) {
      forall i | 0 <= i < count ensures Hashes(hash, node, count)[i] !in r.ids {
        FreshName(r, hash, node, count, i);
      }
      forall i, j | 0 <= i < j < count ensures Hashes(hash, node, count)[i] != Hashes(hash, node, count)[j] {
        assert VNodeId(node, i) in names && VNodeId(node, j) in names;
        if VNodeId(node, i) == VNodeId(node, j) { VNodeIdInjective(node, i, node, j); }
      }
    }
  }

  /** A point's name is that of a virtual node of a known node, and hashes to the point. */
  ghost predicate RingName(r: Ring, hash: Str -> Hash, q: Hash) {
    q in r.ids && hash(r.ids[q]) == q && exists n, i: nat :: n in r.vnodes && r.ids[q] == VNodeId(n, i)
  }

  lemma NamedPoint(r: Ring, hash: Str -> Hash, q: Hash)
    requires Consistent(r, hash) && q in r.ids
    ensures RingName(r, hash, q)
  {
    hide VNodeId, NodeOf;
    var n := NodeOf(r.ids[q]);
    assert Registered(r, hash, n);
    var i :| 0 <= i < |r.vnodes[n]| && r.vnodes[n][i] == q;
    assert r.ids[q] == VNodeId(n, i);
  }

  lemma FreshName(r: Ring, hash: Str -> Hash, node: Str, count: nat, i: nat)
    requires i < count && node !in r.vnodes && Separates(hash, r.ids.Values + NamesOf(node, count))
    requires forall q :: q in r.ids ==> RingName(r, hash, q)
    ensures hash(VNodeId(node, i)) !in r.ids
  {
    hide VNodeId, NodeOf;
    var q := hash(VNodeId(node, i));
    if q in r.ids {
      assert RingName(r, hash, q);
      assert r.ids[q] in r.ids.Values && VNodeId(node, i) in NamesOf(node, count);
      var n, j: nat :| n in r.vnodes && r.ids[q] == VNodeId(n, j);
      VNodeIdInjective(n, j, node, i);
    }
  }

  lemma SeparateNames(r: Ring, hash: Str -> Hash, node: Str, count: nat, a: Str, b: Str)
    requires NoCollision(r, hash, node, count) && hash(a) == hash(b)
    requires a in r.ids.Values + NamesOf(node, count) && b in r.ids.Values + NamesOf(node, count)
    requires forall q :: q in r.ids ==> RingName(r, hash, q)
    ensures a == b
  {
    OldOrNew(r, hash, node, count, a);
    OldOrNew(r, hash, node, count, b);
  }

  /** A name on the ring is found at its hash; a new one is not, and is the only new one there. */
  lemma OldOrNew(r: Ring, hash: Str -> Hash, node: Str, count: nat, a: Str)
    requires NoCollision(r, hash, node, count) && a in r.ids.Values + NamesOf(node, count)
    requires forall q :: q in r.ids ==> RingName(r, hash, q)
    ensures if hash(a) in r.ids then r.ids[hash(a)] == a
            else forall b :: b in NamesOf(node, count) && hash(b) == hash(a) ==> b == a
  {
    hide VNodeId;
    var hs := Hashes(hash, node, count);
    if a in r.ids.Values {
      var q :| q in r.ids && r.ids[q] == a;
      assert RingName(r, hash, q);
    } else {
      var i :| 0 <= i < count && a == VNodeId(node, i);
      forall b | b in NamesOf(node, count) && hash(b) == hash(a) ensures b == a {
        var j :| 0 <= j < count && b == VNodeId(node, j);
        assert hs[i] == hash(a) && hs[j] == hash(b);
      }
      assert hs[i] !in r.ids;
    }
  }

  /** On a consistent ring a node's points are exactly those whose name is the node's. */
  lemma PointsOfNode(r: Ring, hash: Str -> Hash, n: Str, q: Hash)
    requires Consistent(r, hash) && q in r.points
    ensures NodeAt(r, q) in r.vnodes
    ensures n in r.vnodes ==> (q in PointsOf(r.vnodes[n]) <==> NodeAt(r, q) == n)
  {
    if n in r.vnodes && q in r.vnodes[n] {
      var i :| 0 <= i < |r.vnodes[n]| && r.vnodes[n][i] == q;
      assert Registered(r, hash, n);
      NodeOfVNodeId(n, i);
    }
  }

  lemma RegisteredPoints(r: Ring, hash: Str -> Hash, n: Str, q: Hash)
    requires Consistent(r, hash) && n in r.vnodes && q in r.vnodes[n]
    ensures q in r.ids && NodeOf(r.ids[q]) == n
  {
    var i :| 0 <= i < |r.vnodes[n]| && r.vnodes[n][i] == q;
    assert Registered(r, hash, n);
    NodeOfVNodeId(n, i);
  }

  lemma {:induction false} AddIdsEffect(ids: map<Hash, Str>, hash: Str -> Hash, node: Str, count: nat)
    requires forall i, j :: 0 <= i < j < count ==> hash(VNodeId(node, i)) != hash(VNodeId(node, j))
    ensures forall q :: q in AddIds(ids, hash, node, count) <==> q in ids || q in Hashes(hash, node, count)
    ensures forall q :: q in ids && q !in Hashes(hash, node, count) ==> AddIds(ids, hash, node, count)[q] == ids[q]
    ensures forall i :: 0 <= i < count ==>
        IdAt(AddIds(ids, hash, node, count), hash(VNodeId(node, i))) == VNodeId(node, i)
  {
    hide VNodeId;
    if count > 0 {
      AddIdsEffect(ids, hash, node, count - 1);
      assert Hashes(hash, node, count) == Hashes(hash, node, count - 1) + [hash(VNodeId(node, count - 1))];
    }
  }

  lemma AddedPoints(r: Ring, hash: Str -> Hash, node: Str, count: nat)
    requires Sorted(r.points)
    ensures Added(r, hash, node, count).points == InsertAll(r.points, Hashes(hash, node, count))
    ensures Sorted(Added(r, hash, node, count).points)
    ensures forall q :: q in Added(r, hash, node, count).points <==> q in r.points || q in Hashes(hash, node, count)
  {
    InsertAllAppend([], r.points, Hashes(hash, node, count));
    SortOfSorted(r.points);
    InsertAllSorted(r.points, Hashes(hash, node, count));
  }

  lemma AddKeepsConsistent(r: Ring, hash: Str -> Hash, node: Str, count: nat)
    requires Consistent(r, hash) && node !in r.vnodes && NoCollision(r, hash, node, count)
    ensures Consistent(Added(r, hash, node, count), hash)
  {
    hide VNodeId, NodeOf, InsertAll, Sort, AddIds;
    var r', hs := Added(r, hash, node, count), Hashes(hash, node, count);
    AddedPoints(r, hash, node, count);
    AddIdsEffect(r.ids, hash, node, count);
    forall n | n in r'.vnodes ensures Registered(r', hash, n) {
      if n != node { forall i | 0 <= i < |r.vnodes[n]| ensures IdAt(r'.ids, r'.vnodes[n][i]) == VNodeId(n, i) {
        assert Registered(r, hash, n);
        assert r.vnodes[n][i] in r.vnodes[n];
        RegisteredPoints(r, hash, n, r.vnodes[n][i]);
      } }
    }
    forall q | q in r'.ids ensures NodeOf(r'.ids[q]) in r'.vnodes && q in r'.vnodes[NodeOf(r'.ids[q])] {
      if q in hs {
        var i :| 0 <= i < |hs| && hs[i] == q;
        NodeOfVNodeId(node, i);
      }
    }
  }

  lemma RemoveKeepsConsistent(r: Ring, hash: Str -> Hash, node: Str)
    requires Consistent(r, hash)
    ensures Consistent(Removed(r, node), hash)
  {
    if node in r.vnodes {
      var r', dead := Removed(r, node), PointsOf(r.vnodes[node]);
      WithoutSorted(r.points, dead);
      FilterMembers(r.points, 0, dead);
      forall n | n in r'.vnodes ensures Registered(r', hash, n) {
        assert Registered(r, hash, n);
        forall i | 0 <= i < |r.vnodes[n]| ensures r.vnodes[n][i] !in dead {
          RegisteredPoints(r, hash, n, r.vnodes[n][i]);
          if r.vnodes[n][i] in dead { RegisteredPoints(r, hash, node, r.vnodes[n][i]); }
        }
      }
      forall q | q in r'.ids ensures NodeOf(r'.ids[q]) in r'.vnodes && q in r'.vnodes[NodeOf(r'.ids[q])] { }
    }
  }

  /** RemoveNode undoes AddNode of a fresh node, field by field. */
  lemma RemoveUndoesAdd(r: Ring, hash: Str -> Hash, node: Str, count: nat)
    requires Consistent(r, hash) && node !in r.vnodes && NoCollision(r, hash, node, count)
    ensures Removed(Added(r, hash, node, count), node) == r
  {
    hide VNodeId, NodeOf, Without, InsertAll, Sort, AddIds, Registered;
    var r', hs := Added(r, hash, node, count), Hashes(hash, node, count);
    var dead := PointsOf(hs);
    AddedPoints(r, hash, node, count);
    AddIdsEffect(r.ids, hash, node, count);
    WithoutInserted(r.points, hs, dead);
    WithoutNothing(r.points, dead);
    assert (r'.ids - dead) == r.ids;
    assert r'.vnodes - {node} == r.vnodes;
  }

  // ---------- what membership changes do to the answers ----------

  lemma {:induction false} VNodesWithout(r: Ring, hash: Str -> Hash, node: Str, pts: seq<Hash>)
    requires Consistent(r, hash) && node in r.vnodes && forall q :: q in pts ==> q in r.points
    ensures VNodesAt(Removed(r, node).ids, Without(pts, PointsOf(r.vnodes[node]))) ==
        DropNode(VNodesAt(r.ids, pts), node)
  {
    hide NodeOf, Registered, Sorted;
    var dead := PointsOf(r.vnodes[node]);
    if pts != [] {
      var vs := VNodesAt(r.ids, pts);
      assert vs[1..] == VNodesAt(r.ids, pts[1..]);
      VNodesWithout(r, hash, node, pts[1..]);
      PointsOfNode(r, hash, node, pts[0]);
      var rest := Without(pts[1..], dead);
      if pts[0] !in dead {
        assert VNodesAt(r.ids - dead, [pts[0]] + rest) == [vs[0]] + VNodesAt(r.ids - dead, rest);
      }
    }
  }

  /** After removing a node, every preference list is the old one with that node deleted. */
  lemma PreferenceAfterRemove(r: Ring, hash: Str -> Hash, node: Str, h: Hash)
    requires Consistent(r, hash) && node in r.vnodes
    ensures Preference(Removed(r, node), h) == DropNode(Preference(r, h), node)
  {
    var dead := PointsOf(r.vnodes[node]);
    ClockwiseWithout(r.points, h, dead);
    FilterMembers(r.points, h, dead);
    VNodesWithout(r, hash, node, Clockwise(r.points, h));
    DropNodeCommutes(VNodesAt(r.ids, Clockwise(r.points, h)), node);
  }

  /** After adding a fresh node, every preference list is the old one with that node put in. */
  lemma PreferenceAfterAdd(r: Ring, hash: Str -> Hash, node: Str, count: nat, h: Hash)
    requires Consistent(r, hash) && node !in r.vnodes && NoCollision(r, hash, node, count)
    ensures DropNode(Preference(Added(r, hash, node, count), h), node) == Preference(r, h)
  {
    AddKeepsConsistent(r, hash, node, count);
    RemoveUndoesAdd(r, hash, node, count);
    PreferenceAfterRemove(Added(r, hash, node, count), hash, node, h);
  }

  // ---------- sizes and replica sets ----------

  ghost function NodeSet(vs: seq<VNode>): (s: set<Str>) { set i | 0 <= i < |vs| :: vs[i].node }

  /** The nodes that have at least one virtual node. */
  ghost function PhysicalNodes(r: Ring): (s: set<Str>) { set n | n in r.vnodes && |r.vnodes[n]| > 0 }

  lemma {:induction false} DistinctNodeCount(vs: seq<VNode>)
    requires NodesDistinct(vs)
    ensures |NodeSet(vs)| == |vs|
  {
    if vs != [] {
      var init, v := vs[..|vs| - 1], vs[|vs| - 1];
      DistinctNodeCount(init);
      assert forall i :: 0 <= i < |init| ==> vs[i] == init[i];
      assert NodeSet(vs) == NodeSet(init) + {v.node};
    }
  }

  /** Every preference list names every physical node exactly once. */
  lemma PreferenceNamesEveryNodeOnce(r: Ring, hash: Str -> Hash, h: Hash)
    requires Consistent(r, hash)
    ensures NodesDistinct(Preference(r, h)) && NodeSet(Preference(r, h)) == PhysicalNodes(r)
    ensures |Preference(r, h)| == |PhysicalNodes(r)|
  {
    hide Consistent, NodeOf;
    var pts := Clockwise(r.points, h);
    var walk, pref := VNodesAt(r.ids, pts), Preference(r, h);
    FirstOfEachNodes(walk);
    FilterMembers(r.points, h, {});
    forall n ensures n in NodeSet(pref) <==> n in PhysicalNodes(r) {
      assert n in NodeSet(pref) <==> HasNode(pref, n);
      WalkNames(r, hash, pts, n);
    }
    DistinctNodeCount(pref);
  }

  lemma WalkNames(r: Ring, hash: Str -> Hash, pts: seq<Hash>, n: Str)
    requires Consistent(r, hash) && forall q :: q in pts <==> q in r.points
    ensures HasNode(VNodesAt(r.ids, pts), n) <==> n in PhysicalNodes(r)
  {
    var walk := VNodesAt(r.ids, pts);
    if HasNode(walk, n) {
      var i :| 0 <= i < |walk| && walk[i].node == n;
      assert pts[i] in r.ids;
    }
    if n in PhysicalNodes(r) {
      var q := r.vnodes[n][0];
      RegisteredPoints(r, hash, n, q);
      var i :| 0 <= i < |pts| && pts[i] == q;
      assert walk[i].node == n;
    }
  }

  /** GetNodes: pairwise distinct nodes, as many as asked for or as there are. */
  lemma ReplicaListSize(r: Ring, hash: Str -> Hash, h: Hash, count: nat)
    requires Consistent(r, hash)
    ensures var nodes := Take(Preference(r, h), count);
            && NodesDistinct(nodes) && NodeSet(nodes) <= PhysicalNodes(r)
            && |nodes| == if count <= |PhysicalNodes(r)| then count else |PhysicalNodes(r)|
  {
    PreferenceNamesEveryNodeOnce(r, hash, h);
    var pref := Preference(r, h);
    assert NodeSet(Take(pref, count)) <= NodeSet(pref) by {
      assert forall i :: 0 <= i < |Take(pref, count)| ==> Take(pref, count)[i] == pref[i];
    }
  }

  lemma {:induction false} DropDistinct(vs: seq<VNode>, n: Str, k: nat)
    requires NodesDistinct(vs) && k <= |vs|
    requires forall i :: 0 <= i < k ==> vs[i].node != n
    requires k < |vs| ==> vs[k].node == n
    ensures DropNode(vs, n) == if k < |vs| then vs[..k] + vs[k + 1..] else vs
  {
    if vs != [] {
      var rest := vs[1..];
      assert forall i :: 0 <= i < |rest| ==> rest[i] == vs[i + 1];
      if k == 0 {
        DropDistinct(rest, n, |rest|);
        assert vs[..0] + vs[1..] == rest;
      } else {
        DropDistinct(rest, n, k - 1);
        KeepFirst(vs, k);
      }
    }
  }

  lemma KeepFirst(vs: seq<VNode>, k: nat)
    requires 0 < k <= |vs|
    ensures [vs[0]] + vs[1..] == vs
    ensures k < |vs| ==> [vs[0]] + (vs[1..][..k - 1] + vs[1..][k..]) == vs[..k] + vs[k + 1..]
  {
  }

  /** Deleting a node from a preference list takes that node out of the replica set and lets at
      most one other in. */
  lemma ReplicaSetChange(pref: seq<VNode>, n: Str, count: nat)
    requires NodesDistinct(pref)
    ensures var before, after := NodeSet(Take(pref, count)), NodeSet(Take(DropNode(pref, n), count));
            before - after <= {n} && |after - before| <= 1
  {
    if HasNode(pref, n) {
      var k :| 0 <= k < |pref| && pref[k].node == n;
      DropDistinct(pref, n, k);
      var a, b := Take(pref, count), Take(pref[..k] + pref[k + 1..], count);
      var extra: set<Str> := if count < |pref| then {pref[count].node} else {};
      WindowSlides(pref, k, count, extra);
      Smaller(NodeSet(b) - NodeSet(a), extra);
    } else {
      DropDistinct(pref, n, |pref|);
      assert NodeSet(Take(pref, count)) - NodeSet(Take(pref, count)) == {};
    }
  }

  lemma WindowSlides(pref: seq<VNode>, k: nat, count: nat, extra: set<Str>)
    requires k < |pref| && extra == if count < |pref| then {pref[count].node} else {}
    ensures var a, b := NodeSet(Take(pref, count)), NodeSet(Take(pref[..k] + pref[k + 1..], count));
            a - b <= {pref[k].node} && b - a <= extra
  {
    var a, b := Take(pref, count), Take(pref[..k] + pref[k + 1..], count);
    forall i | 0 <= i < |b| ensures b[i].node in NodeSet(a) + extra {
      var j := if i < k then i else i + 1;
      assert b[i] == pref[j];
      if j < |a| { assert a[j] == b[i]; }
    }
    forall i | 0 <= i < |a| && i != k ensures a[i].node in NodeSet(b) {
      assert a[i] == pref[i] == b[if i < k then i else i - 1];
    }
  }

  lemma Smaller(a: set<Str>, b: set<Str>)
    requires a <= b && |b| <= 1
    ensures |a| <= 1
  {
    if a != {} {
      var x :| x in a;
      assert |b - {x}| == 0;
      assert a == {x};
    }
  }

  /** A membership change alters every replica set by at most one node each way. */
  lemma MembershipChangeIsMinimal(r: Ring, hash: Str -> Hash, node: Str, h: Hash, count: nat)
    requires Consistent(r, hash) && node in r.vnodes
    ensures var with, without := NodeSet(Take(Preference(r, h), count)),
                  NodeSet(Take(Preference(Removed(r, node), h), count));
            with - without <= {node} && |without - with| <= 1
  {
    PreferenceAfterRemove(r, hash, node, h);
    PreferenceNamesEveryNodeOnce(r, hash, h);
    ReplicaSetChange(Preference(r, h), node, count);
  }

  // ---------- adding a node that is already there ----------

  /** One more copy of a point already passed changes nothing. */
  lemma {:induction false} RepeatIsSkipped(a: seq<VNode>, v: VNode, b: seq<VNode>)
    requires v in a
    ensures FirstOfEach(a + [v] + b) == FirstOfEach(a + b)
  {
    if b == [] {
      assert a + [v] + b == a + [v] && (a + [v])[..|a|] == a && a + b == a;
      FirstOfEachNodes(a);
      var i :| 0 <= i < |a| && a[i] == v;
      assert HasNode(a, v.node);
    } else {
      var init, x := b[..|b| - 1], b[|b| - 1];
      RepeatIsSkipped(a, v, init);
      assert (a + [v] + b)[..|a| + |b|] == a + [v] + init;
      assert (a + b)[..|a| + |b| - 1] == a + init;
    }
  }

  lemma SingleHalves(q: Hash, h: Hash)
    ensures AtLeast([q], h) == (if q >= h then [q] else []) && Below([q], h) == (if q < h then [q] else [])
  {
    var one: seq<Hash> := [q];
    assert one[1..] == [] && AtLeast([], h) == [] && Below([], h) == [];
    assert AtLeast(one, h) == if q >= h then [q] + [] else [];
    assert Below(one, h) == if q < h then [q] + [] else [];
  }

  /** A second copy of a point is met right after the first. */
  lemma ClockwiseRepeat(lo: seq<Hash>, q: Hash, hi: seq<Hash>, h: Hash) returns (a: seq<Hash>, b: seq<Hash>)
    requires q in lo
    ensures Clockwise(lo + hi, h) == a + b && Clockwise(lo + [q] + hi, h) == a + [q] + b && q in a
  {
    SingleHalves(q, h);
    hide AtLeast, Below;
    HalvesConcat(lo, hi, h);
    HalvesConcat(lo + [q], hi, h);
    HalvesConcat(lo, [q], h);
    FilterMembers(lo, h, {});
    var a1, a2, b1, b2 := AtLeast(lo, h), AtLeast(hi, h), Below(lo, h), Below(hi, h);
    if q >= h {
      a, b := a1, a2 + (b1 + b2);
      assert b1 + [] == b1;
      Regroup(a1, [q], a2, b1 + b2);
      Regroup(a1, [], a2, b1 + b2);
      assert a1 + [] == a1;
    } else {
      a, b := a1 + a2 + b1, b2;
      assert a1 + [] == a1;
      Regroup(a1 + a2, b1, [q], b2);
      Regroup(a1 + a2, b1, [], b2);
      assert b1 + [] == b1 && a1 + a2 + b1 + [] == a1 + a2 + b1;
    }
  }

  lemma Regroup<T>(a: seq<T>, b: seq<T>, c: seq<T>, d: seq<T>)
    ensures (a + b) + c + d == a + b + (c + d) == a + ((b + c) + d)
  {
  }

  lemma VNodesConcat(ids: map<Hash, Str>, a: seq<Hash>, b: seq<Hash>)
    ensures VNodesAt(ids, a + b) == VNodesAt(ids, a) + VNodesAt(ids, b)
  {
  }

  lemma RepeatedPoint(ids: map<Hash, Str>, p: seq<Hash>, q: Hash, h: Hash)
    requires Sorted(p) && q in p
    ensures FirstOfEach(VNodesAt(ids, Clockwise(Insert(p, q), h))) == FirstOfEach(VNodesAt(ids, Clockwise(p, h)))
  {
    var lo, hi := p[..Rank(p, q)], p[Rank(p, q)..];
    assert p == lo + hi && Insert(p, q) == lo + [q] + hi;
    RankCovers(p, q);
    var a, b := ClockwiseRepeat(lo, q, hi, h);
    VNodesConcat(ids, a, b);
    VNodesConcat(ids, a + [q], b);
    VNodesConcat(ids, a, [q]);
    assert VNodesAt(ids, [q]) == [VNodeAt(ids, q)];
    var i :| 0 <= i < |a| && a[i] == q;
    assert VNodesAt(ids, a)[i] == VNodeAt(ids, q);
    hide VNodesAt, FirstOfEach, VNodeAt, Clockwise, Insert;
    RepeatIsSkipped(VNodesAt(ids, a), VNodeAt(ids, q), VNodesAt(ids, b));
  }

  lemma RankCovers(p: seq<Hash>, q: Hash)
    requires Sorted(p) && q in p
    ensures q in p[..Rank(p, q)]
  {
    var k := Rank(p, q);
    var i :| 0 <= i < |p| && p[i] == q;
    assert i < k;
    assert p[..k][i] == q;
  }

  lemma {:induction false} RepeatedPoints(ids: map<Hash, Str>, p: seq<Hash>, qs: seq<Hash>, h: Hash)
    requires Sorted(p) && forall q :: q in qs ==> q in p
    ensures FirstOfEach(VNodesAt(ids, Clockwise(InsertAll(p, qs), h))) == FirstOfEach(VNodesAt(ids, Clockwise(p, h)))
  {
    if qs != [] {
      var init := qs[..|qs| - 1];
      RepeatedPoints(ids, p, init, h);
      InsertAllSorted(p, init);
      RepeatedPoint(ids, InsertAll(p, init), qs[|qs| - 1], h);
    }
  }

  /** Adding a present node again with the same count duplicates its points in the ring, but
      leaves names, node lists and every answer as they were; one RemoveNode clears all copies. */
  lemma AddAgainChangesNoAnswer(r: Ring, hash: Str -> Hash, node: Str, h: Hash)
    requires Consistent(r, hash) && node in r.vnodes
    ensures var r' := Added(r, hash, node, |r.vnodes[node]|);
            && |r'.points| == |r.points| + |r.vnodes[node]|
            && r'.ids == r.ids && r'.vnodes == r.vnodes
            && Preference(r', h) == Preference(r, h) && Owner(r', h) == Owner(r, h)
            && Removed(r', node) == Removed(r, node)
  {
    var hs, r' := r.vnodes[node], Added(r, hash, node, |r.vnodes[node]|);
    AddAgainFields(r, hash, node);
    hide Consistent, Added, Hashes;
    RepeatedPoints(r.ids, r.points, hs, h);
    OwnerIsFirst(r, h);
    OwnerIsFirst(r', h);
    hide FirstOfEach, Clockwise;
    WithoutInserted(r.points, hs, PointsOf(hs));
  }

  /** The new virtual nodes beyond the old count are free and distinct from the old ones. */
  ghost predicate FreshBeyond(r: Ring, hash: Str -> Hash, node: Str, count: nat)
    requires node in r.vnodes
  {
    forall i :: |r.vnodes[node]| <= i < count ==> hash(VNodeId(node, i)) !in r.points
  }

  /** Adding a present node again with another count: a later RemoveNode clears every copy exactly if
      the count is not smaller than before. Otherwise the virtual nodes beyond it stay in the ring,
      though the node is gone. */
  lemma ReAddIsClearedIff(r: Ring, hash: Str -> Hash, node: Str, count: nat)
    requires Consistent(r, hash) && node in r.vnodes && FreshBeyond(r, hash, node, count)
    ensures Removed(Added(r, hash, node, count), node).points == Removed(r, node).points <==> count >= |r.vnodes[node]|
  {
    hide VNodeId, NodeOf, Without, InsertAll, Sort, AddIds;
    var hs, hs' := r.vnodes[node], Hashes(hash, node, count);
    assert Registered(r, hash, node);
    AddedPoints(r, hash, node, count);
    WithoutInserted(r.points, hs', PointsOf(hs'));
    if count >= |hs| {
      forall q | q in r.points ensures q in PointsOf(hs') <==> q in PointsOf(hs) {
        if q in hs { var i :| 0 <= i < |hs| && hs[i] == q; assert hs'[i] == q; }
        if q in hs' { var i :| 0 <= i < count && hs'[i] == q; assert i < |hs| && hs[i] == q; }
      }
      WithoutSame(r.points, PointsOf(hs'), PointsOf(hs));
    } else {
      var q := hs[count];
      RegisteredPoints(r, hash, node, q);
      assert q !in hs';
      FilterMembers(r.points, q, PointsOf(hs'));
      FilterMembers(r.points, q, PointsOf(hs));
      assert q in Without(r.points, PointsOf(hs')) && q !in Without(r.points, PointsOf(hs));
    }
  }

  lemma {:induction false} WithoutSame(p: seq<Hash>, a: set<Hash>, b: set<Hash>)
    requires forall q :: q in p ==> (q in a <==> q in b)
    ensures Without(p, a) == Without(p, b)
  {
    if p != [] { WithoutSame(p[1..], a, b); }
  }

  lemma AddAgainFields(r: Ring, hash: Str -> Hash, node: Str)
    requires Consistent(r, hash) && node in r.vnodes
    ensures var hs, r' := r.vnodes[node], Added(r, hash, node, |r.vnodes[node]|);
            && r'.points == InsertAll(r.points, hs) && |r'.points| == |r.points| + |hs|
            && r'.ids == r.ids && r'.vnodes == r.vnodes
            && Sorted(r.points) && forall q :: q in hs ==> q in r.points
  {
    hide NodeOf, VNodeId, Sort, InsertAll, AddIds;
    var hs, r' := r.vnodes[node], Added(r, hash, node, |r.vnodes[node]|);
    assert Registered(r, hash, node);
    assert hs == Hashes(hash, node, |hs|);
    AddedPoints(r, hash, node, |hs|);
    InsertAllSorted(r.points, hs);
    assert |r'.points| == |multiset(r'.points)|;
    forall q | q in hs ensures q in r.points { RegisteredPoints(r, hash, node, q); }
    SameIds(r.ids, hash, node, |hs|, hs);
  }

  lemma {:induction false} SameIds(ids: map<Hash, Str>, hash: Str -> Hash, node: Str, count: nat, hs: seq<Hash>)
    requires count <= |hs|
    requires forall i :: 0 <= i < |hs| ==>
        hs[i] == hash(VNodeId(node, i)) && hs[i] in ids && ids[hs[i]] == VNodeId(node, i)
    ensures AddIds(ids, hash, node, count) == ids
  {
    if count > 0 { SameIds(ids, hash, node, count - 1, hs); }
  }

  /** The owner of a hash heads its preference list. */
  lemma OwnerIsFirst(r: Ring, h: Hash)
    ensures r.points == [] ==> Preference(r, h) == []
    ensures r.points != [] ==>
        |Clockwise(r.points, h)| > 0 && |Preference(r, h)| > 0 && Preference(r, h)[0].node == Owner(r, h)
  {
    FilterMembers(r.points, h, {});
    if r.points != [] {
      assert r.points[0] in Clockwise(r.points, h);
      var walk := VNodesAt(r.ids, Clockwise(r.points, h));
      FirstOfEachPrefix(walk, 1);
      assert walk[..1][..0] == [];
      assert FirstOfEach(walk[..1]) == [walk[0]];
    }
  }
}
