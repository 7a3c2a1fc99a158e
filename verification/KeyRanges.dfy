/** Which hash ranges change hands when a node joins or leaves the ring. */
module KeyRanges {
  import opened GoStrings
  import opened HashRing
  import opened RingMembership

  datatype KeyRange = KeyRange(start: Hash, end: Hash)

  // ---------- the two range tests of the storage node ----------

  /** The streaming test: [start, end), wrapping when start > end. */
  predicate KeyInRange(h: Hash, r: KeyRange) {
    (h >= r.start && h < r.end) || (r.start > r.end && (h >= r.start || h < r.end))
  }

  /** keyInRanges. */
  method KeyInRanges(keyHash: Hash, ranges: seq<KeyRange>) returns (b: bool)
    ensures b <==> exists i :: 0 <= i < |ranges| && KeyInRange(keyHash, ranges[i])
  {
    for i := 0 to |ranges|
      invariant forall j :: 0 <= j < i ==> !KeyInRange(keyHash, ranges[j])
    {
      var r := ranges[i];
      if keyHash >= r.start && keyHash < r.end {
        return true;
      }
      if r.start > r.end {
        if keyHash >= r.start || keyHash < r.end {
          return true;
        }
      }
    }
    return false;
  }

  /** The memtable and SSTable scan test. */
  predicate ScanInRange(h: Hash, r: KeyRange) {
    if r.end > r.start then h >= r.start && h < r.end else h >= r.start || h < r.end
  }

  /** The two tests agree on a range exactly when its ends differ; on [s, s) one accepts nothing
      and the other everything. */
  lemma TestsAgreeIff(r: KeyRange)
    ensures (forall h: Hash :: KeyInRange(h, r) <==> ScanInRange(h, r)) <==> r.start != r.end
  {
    if r.start == r.end {
      assert !KeyInRange(r.start, r) && ScanInRange(r.start, r);
    }
  }

  // ---------- the calculation ----------

  /** The range recorded for the point at position `i`: from the previous point to it. */
  function Arc(p: seq<Hash>, i: nat): (r: KeyRange)
    requires i < |p|
  {
    KeyRange(p[PrevIndex(i, |p|)], p[i])
  }

  /** The position of the first copy of a point. */
  function FirstCopy(p: seq<Hash>, q: Hash): (k: nat)
    requires q in p
    ensures k < |p| && p[k] == q && q !in p[..k]
  {
    if p[0] == q then 0 else 1 + FirstCopy(p[1..], q)
  }

  /** The range recorded for a copy of a point: from the point before its first copy. */
  function ArcTo(p: seq<Hash>, i: nat): (r: KeyRange)
    requires i < |p|
  {
    Arc(p, FirstCopy(p, p[i]))
  }

  lemma NoOtherCopy(p: seq<Hash>, i: nat)
    requires StrictlyIncreasing(p) && i < |p|
    ensures ArcTo(p, i) == Arc(p, i)
  {
    var k := FirstCopy(p, p[i]);
  }

  ghost predicate Moves(t: Ring, r: Ring, node: Str, i: nat)
    requires i < |t.points|
  {
    NodeAt(t, t.points[i]) == node && Owner(r, t.points[i]) != [] && Owner(r, t.points[i]) != node
  }

  /** Both calculations: for each of the node's points in `t`, the range before it goes under the
      point's owner in `r`. */
  ghost function Assigned(t: Ring, r: Ring, node: Str, i: nat): (m: map<Str, seq<KeyRange>>)
    requires i <= |t.points|
  {
    if i == 0 then map[]
    else
      var m := Assigned(t, r, node, i - 1);
      if Moves(t, r, node, i - 1) then
        var o := Owner(r, t.points[i - 1]);
        m[o := (if o in m then m[o] else []) + [ArcTo(t.points, i - 1)]]
      else m
  }

  /** Hash `h` is in a range listed under `o`. */
  ghost predicate Listed(m: map<Str, seq<KeyRange>>, o: Str, h: Hash) {
    o in m && exists i :: 0 <= i < |m[o]| && KeyInRange(h, m[o][i])
  }

  /** The position of the first point above `h`, wrapping. */
  function FirstAbove(p: seq<Hash>, h: Hash): (k: nat)
    requires p != []
    ensures k < |p|
  {
    if Rank(p, h) == |p| then 0 else Rank(p, h)
  }

  /** A hash lies in the arc that ends at the first point above it, and in no other; if the ring is
      one point, in none. */
  lemma ArcOfHash(p: seq<Hash>, h: Hash, i: nat)
    requires Sorted(p) && i < |p|
    ensures KeyInRange(h, ArcTo(p, i)) <==> p[0] != p[|p| - 1] && p[i] == p[FirstAbove(p, h)]
  {
    var k, f := Rank(p, h), FirstCopy(p, p[i]);
    hide Rank, FirstCopy;
    assert f > 0 ==> p[f - 1] in p[..f];
    if f > 0 {
      if k < f { assert p[k] <= p[f - 1]; }
      if k > f { assert p[f] <= h; }
    } else {
      if 0 < k { assert p[0] <= h; }
      if k < |p| { assert p[k] <= p[|p| - 1]; }
    }
  }

  /** The point at position `i` puts `h` under `o`. */
  ghost predicate Lists(t: Ring, r: Ring, node: Str, i: nat, o: Str, h: Hash) {
    i < |t.points| && Moves(t, r, node, i) && o == Owner(r, t.points[i]) && KeyInRange(h, ArcTo(t.points, i))
  }

  lemma {:induction false} AssignedListed(t: Ring, r: Ring, node: Str, n: nat, o: Str, h: Hash)
    requires n <= |t.points|
    ensures Listed(Assigned(t, r, node, n), o, h) <==> exists i :: 0 <= i < n && Lists(t, r, node, i, o, h)
  {
    hide Moves, Owner, KeyInRange, ArcTo;
    if n > 0 {
      var m, m' := Assigned(t, r, node, n - 1), Assigned(t, r, node, n);
      AssignedListed(t, r, node, n - 1, o, h);
      if Moves(t, r, node, n - 1) && o == Owner(r, t.points[n - 1]) {
        ListedAfter(m, o, ArcTo(t.points, n - 1), h);
      }
      if Listed(m', o, h) {
        if Listed(m, o, h) {
          var i: nat :| i < n - 1 && Lists(t, r, node, i, o, h);
        } else {
          assert Lists(t, r, node, n - 1, o, h);
        }
      } else if exists i :: 0 <= i < n && Lists(t, r, node, i, o, h) {
        var i: nat :| i < n && Lists(t, r, node, i, o, h);
        assert i == n - 1;
      }
    }
  }

  lemma ListedAfter(m: map<Str, seq<KeyRange>>, o: Str, arc: KeyRange, h: Hash)
    ensures Listed(m[o := (if o in m then m[o] else []) + [arc]], o, h) <==> Listed(m, o, h) || KeyInRange(h, arc)
  {
    var old' := if o in m then m[o] else [];
    var m' := m[o := old' + [arc]];
    assert m'[o][|old'|] == arc;
    if Listed(m, o, h) {
      var i :| 0 <= i < |m[o]| && KeyInRange(h, m[o][i]);
      assert m'[o][i] == m[o][i];
    }
  }

  /** The exact content of the result for every ring, copies included, every ring of owners and every
      hash: it lists `h` under the owner of the first point above `h`, if that point belongs to the
      node; a ring that is one point lists nothing. */
  lemma ListedAt(t: Ring, r: Ring, node: Str, o: Str, h: Hash)
    requires Sorted(t.points) && t.points != []
    ensures var p := t.points; var q := p[FirstAbove(p, h)];
            Listed(Assigned(t, r, node, |p|), o, h) <==>
            p[0] != p[|p| - 1] && NodeAt(t, q) == node && o == Owner(r, q) && o != [] && o != node
  {
    hide KeyInRange, ArcTo, Owner, NodeAt, Assigned, Listed, FirstAbove;
    var p := t.points;
    AssignedListed(t, r, node, |p|, o, h);
    forall i | 0 <= i < |p|
      ensures KeyInRange(h, ArcTo(p, i)) <==> p[0] != p[|p| - 1] && p[i] == p[FirstAbove(p, h)] {
      ArcOfHash(p, h, i);
    }
    var k := FirstAbove(p, h);
    assert Lists(t, r, node, k, o, h) <==> p[0] != p[|p| - 1] && Moves(t, r, node, k) && o == Owner(r, p[k]);
  }

  /** With the node's own ring and the ring without it. */
  lemma ListedExactly(t: Ring, hash: Str -> Hash, node: Str, o: Str, h: Hash)
    requires Consistent(t, hash) && StrictlyIncreasing(t.points) && node in t.vnodes && t.points != []
    ensures var r, q := Removed(t, node), t.points[FirstAbove(t.points, h)];
            Listed(Assigned(t, r, node, |t.points|), o, h) <==> NodeAt(t, q) == node && o == Owner(r, q) && o != []
  {
    hide Listed, Assigned;
    ListedAt(t, Removed(t, node), node, o, h);
    OwnerOtherThan(t, hash, node, t.points[FirstAbove(t.points, h)]);
    if |t.points| == 1 { OnePoint(t, hash, node); }
  }

  /** Once a node is gone it owns nothing. */
  lemma OwnerOtherThan(t: Ring, hash: Str -> Hash, node: Str, h: Hash)
    requires Consistent(t, hash) && node in t.vnodes
    ensures Removed(t, node).points != [] ==> Owner(Removed(t, node), h) != node
  {
    var r := Removed(t, node);
    RemoveKeepsConsistent(t, hash, node);
    if r.points != [] {
      FilterMembers(r.points, h, {});
      assert r.points[0] in Clockwise(r.points, h);
      var q := Clockwise(r.points, h)[0];
      assert q in Clockwise(r.points, h);
      PointsOfNode(r, hash, node, q);
    }
  }

  lemma OnePoint(t: Ring, hash: Str -> Hash, node: Str)
    requires Consistent(t, hash) && node in t.vnodes && |t.points| == 1
    ensures NodeAt(t, t.points[0]) == node ==> Removed(t, node).points == []
  {
    var q := t.points[0];
    PointsOfNode(t, hash, node, q);
    var dead := PointsOf(t.vnodes[node]);
    FilterMembers(t.points, q, dead);
    var rest := Without(t.points, dead);
    if rest != [] { assert rest[0] in rest; }
  }

  // ---------- who moves ----------

  /** How many leading points are below `h`. */
  function RankBelow(p: seq<Hash>, h: Hash): (k: nat)
    ensures k <= |p|
    ensures forall i :: 0 <= i < k ==> p[i] < h
    ensures k < |p| ==> p[k] >= h
  {
    if p == [] || p[0] >= h then 0 else 1 + RankBelow(p[1..], h)
  }

  /** The position of the point that owns `h`: the first at or above it, wrapping. */
  function FirstFrom(p: seq<Hash>, h: Hash): (k: nat)
    requires p != []
    ensures k < |p|
  {
    if RankBelow(p, h) == |p| then 0 else RankBelow(p, h)
  }

  /** Off the ring points both lookups meet the same point; at one, the range test is one ahead. */
  lemma LookupsCompared(p: seq<Hash>, h: Hash)
    requires Sorted(p) && p != []
    ensures h !in p ==> FirstAbove(p, h) == FirstFrom(p, h)
    ensures StrictlyIncreasing(p) ==>
        forall i :: 0 <= i < |p| && p[i] == h ==> FirstFrom(p, h) == i && FirstAbove(p, h) == NextIndex(i, |p|)
  {
    var a, b := Rank(p, h), RankBelow(p, h);
    hide Rank, RankBelow;
    if StrictlyIncreasing(p) {
      forall i | 0 <= i < |p| && p[i] == h ensures b == i && a == i + 1 {
        assert i + 1 < |p| ==> p[i] < p[i + 1];
      }
    }
  }

  function NextIndex(i: nat, n: nat): (j: nat)
    requires i < n
    ensures j < n
  {
    if i + 1 == n then 0 else i + 1
  }

  lemma RotationFrom(p: seq<Hash>, h: Hash)
    requires Sorted(p) && p != []
    ensures var q := p[FirstFrom(p, h)];
            && Clockwise(p, h) == Clockwise(p, q) && |Clockwise(p, h)| > 0 && Clockwise(p, h)[0] == q
  {
    var b := RankBelow(p, h);
    var k := FirstFrom(p, h);
    hide RankBelow, Clockwise;
    ClockwiseIsRotation(p, h, b);
    ClockwiseIsRotation(p, p[k], k);
    if b == |p| {
      assert p[|p|..] + p[..|p|] == p;
      assert p[0..] + p[..0] == p;
    } else {
      assert (p[b..] + p[..b])[0] == p[b];
    }
  }

  /** The owner with and without the node, in terms of the point that owns `h`. */
  lemma OwnersCompared(t: Ring, hash: Str -> Hash, node: Str, h: Hash)
    requires Consistent(t, hash) && node in t.vnodes && t.points != []
    ensures var r, q := Removed(t, node), t.points[FirstFrom(t.points, h)];
            && Owner(t, h) == NodeAt(t, q)
            && (NodeAt(t, q) != node ==> Owner(r, h) == Owner(t, h))
            && Owner(r, h) == Owner(r, q)
  {
    var r, q, dead := Removed(t, node), t.points[FirstFrom(t.points, h)], PointsOf(t.vnodes[node]);
    RotationFrom(t.points, h);
    ClockwiseWithout(t.points, h, dead);
    ClockwiseWithout(t.points, q, dead);
    PointsOfNode(t, hash, node, q);
    if NodeAt(t, q) != node {
      FilterMembers(t.points, h, dead);
      assert q in r.points;
      assert Without(Clockwise(t.points, h), dead)[0] == q;
    }
  }

  /** Join and leave: a hash that is no ring point is listed exactly when its owner with the node
      differs from its owner without it, and then under the latter. Here `t` is the ring with
      the node, so `t` without it is the ring before a join or after a leave. */
  lemma ListedIffMoved(t: Ring, hash: Str -> Hash, node: Str, o: Str, h: Hash)
    requires Consistent(t, hash) && StrictlyIncreasing(t.points) && node in t.vnodes
    requires h !in t.points
    ensures var r := Removed(t, node);
            Listed(Assigned(t, r, node, |t.points|), o, h) <==>
              Owner(t, h) != Owner(r, h) && o == Owner(r, h) && o != []
  {
    if t.points == [] {
    } else {
      ListedExactly(t, hash, node, o, h);
      LookupsCompared(t.points, h);
      OwnersCompared(t, hash, node, h);
      OwnerOtherThan(t, hash, node, h);
    }
  }

  /** Between the points of `with`, the ring that has the node, `m` lists just the hashes whose owner
      differs from that in `without`, each under its owner in `without`. */
  ghost predicate ListsWhatMoves(m: map<Str, seq<KeyRange>>, with: Ring, without: Ring) {
    forall o, h :: h !in with.points ==>
      (Listed(m, o, h) <==> Owner(with, h) != Owner(without, h) && o == Owner(without, h) && o != [])
  }

  /** At a ring point the calculation looks at the next point instead: there it lists the point just
      under its other owner if it moves, and nowhere else, exactly when the point and its successor
      both belong to the node or neither does. */
  lemma AtRingPoint(t: Ring, hash: Str -> Hash, node: Str, i: nat)
    requires Consistent(t, hash) && StrictlyIncreasing(t.points) && node in t.vnodes && [] !in t.vnodes
    requires i < |t.points| && Removed(t, node).points != []
    ensures var r, h, next := Removed(t, node), t.points[i], t.points[NextIndex(i, |t.points|)];
            ListsJust(Assigned(t, r, node, |t.points|), h, Owner(t, h) != Owner(r, h), Owner(r, h))
            <==> (NodeAt(t, h) == node <==> NodeAt(t, next) == node)
  {
    hide Owner, Listed, Removed, Assigned, Consistent, NodeAt, NextIndex;
    var r, h, next := Removed(t, node), t.points[i], t.points[NextIndex(i, |t.points|)];
    var m := Assigned(t, r, node, |t.points|);
    MovedAtPoint(t, hash, node, i);
    forall o ensures Listed(m, o, h) <==> NodeAt(t, next) == node && o == Owner(r, next) {
      ListedAtPoint(t, hash, node, i, o);
    }
    if NodeAt(t, h) == node { SameOwnerWithout(t, hash, node, i); }
    JustListed(m, h, NodeAt(t, next) == node, Owner(r, next), NodeAt(t, h) == node, Owner(r, h));
  }

  /** If `h` moves it is listed under `o` and nowhere else; if not it is not listed. */
  ghost predicate ListsJust(m: map<Str, seq<KeyRange>>, h: Hash, moves: bool, o: Str) {
    forall o' :: Listed(m, o', h) <==> moves && o' == o
  }

  lemma JustListed(m: map<Str, seq<KeyRange>>, h: Hash, b: bool, o: Str, b': bool, o': Str)
    requires ListsJust(m, h, b, o) && (b' ==> o == o')
    ensures ListsJust(m, h, b', o') <==> b == b'
  {
    hide Listed;
    assert Listed(m, o, h) <==> b;
    if b != b' { assert Listed(m, o', h) <==> b && o' == o; }
  }

  /** Once its point is gone, a node's point and the next one lead to the same owner. */
  lemma SameOwnerWithout(t: Ring, hash: Str -> Hash, node: Str, i: nat)
    requires Consistent(t, hash) && StrictlyIncreasing(t.points) && node in t.vnodes
    requires i < |t.points| && NodeAt(t, t.points[i]) == node
    ensures Owner(Removed(t, node), t.points[i]) == Owner(Removed(t, node), t.points[NextIndex(i, |t.points|)])
  {
    hide Consistent, NodeAt, Clockwise, Without, StrictlyIncreasing;
    PointsOfNode(t, hash, node, t.points[i]);
    ClockwiseNext(t.points, i, PointsOf(t.vnodes[node]));
  }

  lemma ClockwiseNext(p: seq<Hash>, i: nat, dead: set<Hash>)
    requires StrictlyIncreasing(p) && i < |p| && p[i] in dead
    ensures Clockwise(Without(p, dead), p[i]) == Clockwise(Without(p, dead), p[NextIndex(i, |p|)])
  {
    hide Clockwise, Without;
    var n := NextIndex(i, |p|);
    ClockwiseWithout(p, p[i], dead);
    ClockwiseWithout(p, p[n], dead);
    ClockwiseIsRotation(p, p[i], i);
    ClockwiseIsRotation(p, p[n], n);
    NextRotation(p, i, dead);
  }

  /** Two neighbouring rotations differ by a dead point at one end or the other. */
  lemma NextRotation(p: seq<Hash>, i: nat, dead: set<Hash>)
    requires i < |p| && p[i] in dead
    ensures var n := NextIndex(i, |p|); Without(p[i..] + p[..i], dead) == Without(p[n..] + p[..n], dead)
  {
    var n, q: seq<Hash>, rest := NextIndex(i, |p|), [p[i]], p[i + 1..] + p[..i];
    assert p[i..] + p[..i] == q + rest && p[n..] + p[..n] == rest + q;
    WithoutConcat(q, rest, dead);
    WithoutConcat(rest, q, dead);
    assert q[1..] == [] && Without(q, dead) == [];
  }

  lemma MovedAtPoint(t: Ring, hash: Str -> Hash, node: Str, i: nat)
    requires Consistent(t, hash) && StrictlyIncreasing(t.points) && node in t.vnodes
    requires i < |t.points| && Removed(t, node).points != []
    ensures Owner(t, t.points[i]) != Owner(Removed(t, node), t.points[i]) <==> NodeAt(t, t.points[i]) == node
  {
    var h := t.points[i];
    LookupsCompared(t.points, h);
    hide FirstAbove, FirstFrom;
    OwnersCompared(t, hash, node, h);
    OwnerOtherThan(t, hash, node, h);
  }

  lemma ListedAtPoint(t: Ring, hash: Str -> Hash, node: Str, i: nat, o: Str)
    requires Consistent(t, hash) && StrictlyIncreasing(t.points) && node in t.vnodes && [] !in t.vnodes
    requires i < |t.points| && Removed(t, node).points != []
    ensures var r, next := Removed(t, node), t.points[NextIndex(i, |t.points|)];
            Listed(Assigned(t, r, node, |t.points|), o, t.points[i]) <==> NodeAt(t, next) == node && o == Owner(r, next)
  {
    hide Consistent, NodeAt, Owner, Listed, Removed, Assigned;
    var r, h, next := Removed(t, node), t.points[i], t.points[NextIndex(i, |t.points|)];
    LookupsCompared(t.points, h);
    OwnerNamed(r, hash, next, t, node);
    ListedExactly(t, hash, node, o, h);
  }

  lemma OwnerNamed(r: Ring, hash: Str -> Hash, h: Hash, t: Ring, node: Str)
    requires Consistent(t, hash) && node in t.vnodes && r == Removed(t, node) && r.points != [] && [] !in t.vnodes
    ensures Owner(r, h) != []
  {
    RemoveKeepsConsistent(t, hash, node);
    FilterMembers(r.points, h, {});
    assert r.points[0] in Clockwise(r.points, h);
    var q := Clockwise(r.points, h)[0];
    assert q in Clockwise(r.points, h);
    PointsOfNode(r, hash, node, q);
  }

  ghost predicate NoneTrivial(m: map<Str, seq<KeyRange>>) {
    forall o :: o in m ==> forall i :: 0 <= i < |m[o]| ==> m[o][i].start != m[o][i].end
  }

  /** No recorded range starts at its end, so both range tests read every one of them alike. */
  lemma {:induction false} NoRangeStartsAtItsEnd(t: Ring, hash: Str -> Hash, node: Str, n: nat)
    requires Consistent(t, hash) && StrictlyIncreasing(t.points) && node in t.vnodes && n <= |t.points|
    ensures NoneTrivial(Assigned(t, Removed(t, node), node, n))
  {
    if n > 0 {
      var r := Removed(t, node);
      NoRangeStartsAtItsEnd(t, hash, node, n - 1);
      if Moves(t, r, node, n - 1) {
        assert |t.points| > 1 by { if |t.points| == 1 { OnePoint(t, hash, node); } }
        NoOtherCopy(t.points, n - 1);
        var arc := ArcTo(t.points, n - 1);
        assert arc.start != arc.end;
        hide ArcTo, Moves, Owner, Consistent, Removed;
        var m, o := Assigned(t, r, node, n - 1), Owner(r, t.points[n - 1]);
        AppendKeepsNoneTrivial(m, o, arc);
      }
    }
  }

  lemma AppendKeepsNoneTrivial(m: map<Str, seq<KeyRange>>, o: Str, arc: KeyRange)
    requires NoneTrivial(m) && arc.start != arc.end
    ensures NoneTrivial(m[o := (if o in m then m[o] else []) + [arc]])
  {
  }

  // ---------- cloning the ring ----------

  function CountNode(vs: seq<VNode>, n: Str): (c: nat) {
    if vs == [] then 0 else CountNode(vs[..|vs| - 1], n) + if vs[|vs| - 1].node == n then 1 else 0
  }

  ghost function PointsNamed(ids: map<Hash, Str>, pts: seq<Hash>, n: Str): (s: set<Hash>) {
    set q | q in pts && NodeOf(IdAt(ids, q)) == n
  }

  /** On distinct points the count is the number of the node's points. */
  lemma {:induction false} CountIsPointCount(ids: map<Hash, Str>, pts: seq<Hash>, n: Str)
    requires StrictlyIncreasing(pts)
    ensures CountNode(VNodesAt(ids, pts), n) == |PointsNamed(ids, pts, n)|
  {
    hide NodeOf;
    if pts == [] {
      assert PointsNamed(ids, pts, n) == {};
    } else {
      var init, last := pts[..|pts| - 1], pts[|pts| - 1];
      CountIsPointCount(ids, init, n);
      assert last !in init;
      assert pts == init + [last];
      PointsNamedStep(ids, init, last, n);
      hide PointsNamed;
      var vs := VNodesAt(ids, pts);
      assert vs[..|vs| - 1] == VNodesAt(ids, init);
    }
  }

  lemma PointsNamedStep(ids: map<Hash, Str>, init: seq<Hash>, last: Hash, n: Str)
    requires last !in init
    ensures |PointsNamed(ids, init + [last], n)| ==
        |PointsNamed(ids, init, n)| + if NodeOf(IdAt(ids, last)) == n then 1 else 0
  {
    hide NodeOf;
    var rest := PointsNamed(ids, init, n);
    assert PointsNamed(ids, init + [last], n) == if NodeOf(IdAt(ids, last)) == n then rest + {last} else rest;
  }

  lemma {:induction false} DistinctPointCount(hs: seq<Hash>)
    requires forall i, j :: 0 <= i < j < |hs| ==> hs[i] != hs[j]
    ensures |PointsOf(hs)| == |hs|
  {
    if hs != [] {
      var init := hs[..|hs| - 1];
      DistinctPointCount(init);
      assert hs == init + [hs[|hs| - 1]];
      assert PointsOf(hs) == PointsOf(init) + {hs[|hs| - 1]};
    }
  }

  /** Counting a node's virtual nodes recovers how many it was added with. */
  lemma CountRecovered(r: Ring, hash: Str -> Hash, n: Str)
    requires Consistent(r, hash) && StrictlyIncreasing(r.points)
    ensures CountNode(VNodesAt(r.ids, r.points), n) == if n in r.vnodes then |r.vnodes[n]| else 0
  {
    hide NodeOf;
    CountIsPointCount(r.ids, r.points, n);
    var mine := PointsNamed(r.ids, r.points, n);
    if n in r.vnodes {
      assert Registered(r, hash, n);
      DistinctPointCount(r.vnodes[n]);
      forall q | q in r.points ensures q in mine <==> q in PointsOf(r.vnodes[n]) { PointsOfNode(r, hash, n, q); }
      forall q | q in r.vnodes[n] ensures q in r.points { RegisteredPoints(r, hash, n, q); }
      assert mine == PointsOf(r.vnodes[n]);
    } else {
      forall q | q in r.points ensures q !in mine { PointsOfNode(r, hash, n, q); }
      assert mine == {};
    }
  }

  /** The part of `r` made of the nodes in `done`. */
  ghost predicate PartOf(c: Ring, r: Ring, hash: Str -> Hash, done: set<Str>) {
    && Consistent(c, hash) && StrictlyIncreasing(c.points) && c.vnodes.Keys == done <= r.vnodes.Keys
    && forall n :: n in done ==> c.vnodes[n] == r.vnodes[n]
  }

  lemma {:induction false} InsertAllStrict(p: seq<Hash>, qs: seq<Hash>)
    requires StrictlyIncreasing(p)
    requires forall i :: 0 <= i < |qs| ==> qs[i] !in p
    requires forall i, j :: 0 <= i < j < |qs| ==> qs[i] != qs[j]
    ensures StrictlyIncreasing(InsertAll(p, qs))
  {
    if qs != [] {
      var init, q := qs[..|qs| - 1], qs[|qs| - 1];
      InsertAllStrict(p, init);
      InsertAllSorted(p, init);
      InsertStrict(InsertAll(p, init), q);
    }
  }

  lemma PartGrows(c: Ring, r: Ring, hash: Str -> Hash, done: set<Str>, n: Str)
    requires Consistent(r, hash) && PartOf(c, r, hash, done) && n in r.vnodes && n !in done
    ensures PartOf(Added(c, hash, n, |r.vnodes[n]|), r, hash, done + {n})
  {
    hide NodeOf, VNodeId, Sort, InsertAll, AddIds;
    var hs := r.vnodes[n];
    assert Registered(r, hash, n);
    hide Registered;
    assert Hashes(hash, n, |hs|) == hs;
    forall i | 0 <= i < |hs|
      ensures hs[i] !in c.ids && hs[i] !in c.points
    {
      NewPointIsFree(c, r, hash, done, n, hs[i]);
    }
    var c' := Added(c, hash, n, |hs|);
    assert StrictlyIncreasing(c'.points) by { AddedPoints(c, hash, n, |hs|); InsertAllStrict(c.points, hs); }
    assert Consistent(c', hash) by { AddKeepsConsistent(c, hash, n, |hs|); }
    assert c'.vnodes == c.vnodes[n := hs];
  }

  lemma NewPointIsFree(c: Ring, r: Ring, hash: Str -> Hash, done: set<Str>, n: Str, q: Hash)
    requires Consistent(r, hash) && PartOf(c, r, hash, done) && n in r.vnodes && n !in done && q in r.vnodes[n]
    ensures q !in c.ids && q !in c.points
  {
    if q in c.ids {
      RegisteredPoints(r, hash, NodeOf(c.ids[q]), q);
      RegisteredPoints(r, hash, n, q);
      assert false;
    }
  }

  lemma {:induction false} StrictIsUnique(a: seq<Hash>, b: seq<Hash>)
    requires StrictlyIncreasing(a) && StrictlyIncreasing(b) && forall x :: x in a <==> x in b
    ensures a == b
  {
    assert |a| > 0 ==> a[0] in b;
    assert |b| > 0 ==> b[0] in a;
    if a != [] && b != [] {
      assert a[0] == b[0];
      assert a == [a[0]] + a[1..] && b == [b[0]] + b[1..];
      forall x ensures x in a[1..] <==> x in b[1..] {
        if x in a[1..] { var i :| 1 <= i < |a| && a[i] == x; assert x in b && a[0] < a[i]; }
        if x in b[1..] { var i :| 1 <= i < |b| && b[i] == x; assert x in a && b[0] < b[i]; }
      }
      StrictIsUnique(a[1..], b[1..]);
    }
  }

  /** A part with every physical node has the same points and names. */
  lemma WholePart(c: Ring, r: Ring, hash: Str -> Hash)
    requires Consistent(r, hash) && StrictlyIncreasing(r.points) && PartOf(c, r, hash, PhysicalNodes(r))
    ensures c.points == r.points && c.ids == r.ids
  {
    forall q ensures q in c.ids <==> q in r.ids {
      if q in r.ids {
        var n := NodeOf(r.ids[q]);
        assert q in r.vnodes[n];
        assert n in c.vnodes;
        RegisteredPoints(c, hash, n, q);
      }
      if q in c.ids { RegisteredPoints(r, hash, NodeOf(c.ids[q]), q); }
    }
    StrictIsUnique(c.points, r.points);
    forall q | q in r.ids ensures c.ids[q] == r.ids[q] {
      var n := NodeOf(r.ids[q]);
      var i :| 0 <= i < |r.vnodes[n]| && r.vnodes[n][i] == q;
      assert Registered(r, hash, n) && Registered(c, hash, n);
    }
  }

  /** How many entries of the ring carry the node's name: its virtual nodes, copies included. */
  ghost function CountIn(r: Ring, n: Str): (c: nat) { CountNode(VNodesAt(r.ids, r.points), n) }

  /** The ring made by adding nodes, in the given order, with the counts they have in `r`. */
  ghost function Built(r: Ring, hash: Str -> Hash, order: seq<Str>): (c: Ring) {
    if order == [] then Ring([], map[], map[])
    else Added(Built(r, hash, order[..|order| - 1]), hash, order[|order| - 1], CountIn(r, order[|order| - 1]))
  }

  /** `order` names every node with a virtual node in the ring once. */
  ghost predicate Orders(order: seq<Str>, r: Ring) {
    && (forall i, j :: 0 <= i < j < |order| ==> order[i] != order[j])
    && (forall n :: n in order <==> CountIn(r, n) > 0)
  }

  /** cloneHashRing: count every node's virtual nodes, then add the nodes to an empty ring. */
  method CloneHashRing(original: ConsistentHasher) returns (newRing: ConsistentHasher, ghost order: seq<Str>)
    ensures fresh(newRing) && newRing.hash == original.hash
    ensures Orders(order, original.State()) && newRing.State() == Built(original.State(), original.hash, order)
  {
    var allVNodes := original.GetAllVirtualNodes();
    var counts := CountVirtualNodes(allVNodes);
    newRing, order := AddAll(original.hash, counts, original.State());
  }

  /** The second loop of cloneHashRing: add every counted node, in whatever order. */
  method AddAll(hash: Str -> Hash, counts: map<Str, nat>, ghost r: Ring)
    returns (newRing: ConsistentHasher, ghost order: seq<Str>)
    requires forall n :: n in counts <==> CountIn(r, n) > 0
    requires forall n :: n in counts ==> counts[n] == CountIn(r, n)
    ensures fresh(newRing) && newRing.hash == hash
    ensures Orders(order, r) && newRing.State() == Built(r, hash, order)
  {
    hide Added, CountIn;
    newRing := new ConsistentHasher(hash);
    order := [];
    var rest := counts.Keys;
    while rest != {}
      invariant rest <= counts.Keys && newRing.hash == hash && fresh(newRing)
      invariant forall n :: n in order <==> n in counts && n !in rest
      invariant forall i, j :: 0 <= i < j < |order| ==> order[i] != order[j]
      invariant newRing.State() == Built(r, hash, order)
      decreases |rest|
    {
      var nodeID :| nodeID in rest;
      newRing.AddNode(nodeID, counts[nodeID]);
      assert (order + [nodeID])[..|order|] == order;
      order := order + [nodeID];
      rest := rest - {nodeID};
    }
  }

  ghost function Named(order: seq<Str>): (s: set<Str>) { set n | n in order }

  /** On a consistent ring without copies every partial clone is a part of it. */
  lemma {:induction false} BuiltIsPart(r: Ring, hash: Str -> Hash, order: seq<Str>)
    requires Consistent(r, hash) && StrictlyIncreasing(r.points)
    requires forall i, j :: 0 <= i < j < |order| ==> order[i] != order[j]
    requires forall n :: n in order ==> CountIn(r, n) > 0
    ensures PartOf(Built(r, hash, order), r, hash, Named(order))
  {
    hide Consistent, StrictlyIncreasing, PartOf, Added, CountIn;
    if order == [] {
      EmptyPart(r, hash);
      assert Named(order) == {};
    } else {
      var init, n := order[..|order| - 1], order[|order| - 1];
      BuiltIsPart(r, hash, init);
      CountedNode(r, hash, n);
      PartGrows(Built(r, hash, init), r, hash, Named(init), n);
      assert order == init + [n];
      assert Named(order) == Named(init) + {n};
    }
  }

  lemma CountedNode(r: Ring, hash: Str -> Hash, n: Str)
    requires Consistent(r, hash) && StrictlyIncreasing(r.points) && CountIn(r, n) > 0
    ensures n in r.vnodes && CountIn(r, n) == |r.vnodes[n]|
  {
    CountRecovered(r, hash, n);
  }

  /** The clone of a consistent ring without copies has its points and names. */
  lemma CloneIsExact(r: Ring, hash: Str -> Hash, order: seq<Str>)
    requires Consistent(r, hash) && StrictlyIncreasing(r.points) && Orders(order, r)
    ensures PartOf(Built(r, hash, order), r, hash, PhysicalNodes(r))
    ensures Built(r, hash, order).points == r.points && Built(r, hash, order).ids == r.ids
  {
    hide Consistent, StrictlyIncreasing, PartOf, Built, CountIn;
    BuiltIsPart(r, hash, order);
    forall n ensures n in Named(order) <==> n in PhysicalNodes(r) { CountedIffPhysical(r, hash, n); }
    assert Named(order) == PhysicalNodes(r);
    WholePart(Built(r, hash, order), r, hash);
  }

  lemma CountedIffPhysical(r: Ring, hash: Str -> Hash, n: Str)
    requires Consistent(r, hash) && StrictlyIncreasing(r.points)
    ensures CountIn(r, n) > 0 <==> n in PhysicalNodes(r)
  {
    CountRecovered(r, hash, n);
  }

  /** No two of the virtual nodes a clone makes collide. */
  ghost predicate NoClash(r: Ring, hash: Str -> Hash, order: seq<Str>) {
    forall n, m, i: nat, j: nat ::
      n in order && m in order && i < CountIn(r, n) && j < CountIn(r, m) && (n, i) != (m, j) ==>
      hash(VNodeId(n, i)) != hash(VNodeId(m, j))
  }

  /** The names of the virtual nodes a clone makes. */
  ghost function CloneNames(r: Ring, order: seq<Str>): (names: set<Str>) {
    set n, i | n in order && 0 <= i < CountIn(r, n) :: VNodeId(n, i)
  }

  /** They do not collide exactly if the hash tells their names apart. */
  lemma NoClashIff(r: Ring, hash: Str -> Hash, order: seq<Str>)
    ensures NoClash(r, hash, order) <==> Separates(hash, CloneNames(r, order))
  {
    hide VNodeId, CountIn;
    if NoClash(r, hash, order) {
      forall a, b | a in CloneNames(r, order) && b in CloneNames(r, order) && hash(a) == hash(b) ensures a == b {
        var n, i :| n in order && 0 <= i < CountIn(r, n) && a == VNodeId(n, i);
        var m, j :| m in order && 0 <= j < CountIn(r, m) && b == VNodeId(m, j);
      }
    }
    if Separates(hash, CloneNames(r, order)) {
      forall n, m, i: nat, j: nat |
        n in order && m in order && i < CountIn(r, n) && j < CountIn(r, m) && (n, i) != (m, j)
        ensures hash(VNodeId(n, i)) != hash(VNodeId(m, j))
      {
        assert VNodeId(n, i) in CloneNames(r, order) && VNodeId(m, j) in CloneNames(r, order);
        if VNodeId(n, i) == VNodeId(m, j) { VNodeIdInjective(n, i, m, j); }
      }
    }
  }

  lemma {:induction false} BuiltPoints(r: Ring, hash: Str -> Hash, order: seq<Str>)
    requires NoClash(r, hash, order) && forall i, j :: 0 <= i < j < |order| ==> order[i] != order[j]
    ensures StrictlyIncreasing(Built(r, hash, order).points)
    ensures forall q :: q in Built(r, hash, order).points ==>
        exists n, i: nat :: n in order && i < CountIn(r, n) && q == hash(VNodeId(n, i))
  {
    hide VNodeId, CountIn;
    if order != [] {
      var init, n := order[..|order| - 1], order[|order| - 1];
      assert order == init + [n];
      BuiltPoints(r, hash, init);
      var c, hs := Built(r, hash, init), Hashes(hash, n, CountIn(r, n));
      AddedPoints(c, hash, n, CountIn(r, n));
      forall i | 0 <= i < |hs| ensures hs[i] !in c.points {
        assert forall m, j: nat :: m in init && j < CountIn(r, m) ==> hash(VNodeId(m, j)) != hs[i];
      }
      InsertAllStrict(c.points, hs);
    }
  }

  /** As long as virtual nodes do not collide, a clone has the original's points exactly if the
      original has no point twice. */
  lemma CloneIsExactIff(r: Ring, hash: Str -> Hash, order: seq<Str>)
    requires Consistent(r, hash) && Orders(order, r) && NoClash(r, hash, order)
    ensures Built(r, hash, order).points == r.points <==> StrictlyIncreasing(r.points)
  {
    hide Consistent, Built, NoClash;
    BuiltPoints(r, hash, order);
    if StrictlyIncreasing(r.points) { CloneIsExact(r, hash, order); }
  }

  /** So the clone of a ring to which a node was added twice has virtual nodes the ring never had. */
  lemma ReAddedRingIsNotCloned(r: Ring, hash: Str -> Hash, node: Str, order: seq<Str>)
    requires Consistent(r, hash) && node in r.vnodes && r.vnodes[node] != []
    requires var r' := Added(r, hash, node, |r.vnodes[node]|); Orders(order, r') && NoClash(r', hash, order)
    ensures var r' := Added(r, hash, node, |r.vnodes[node]|); Built(r', hash, order).points != r'.points
  {
    hide Consistent, Built, NoClash, Added, CountIn, Orders, StrictlyIncreasing;
    var r' := Added(r, hash, node, |r.vnodes[node]|);
    AddAgainIsConsistent(r, hash, node);
    CloneIsExactIff(r', hash, order);
  }

  lemma AddAgainIsConsistent(r: Ring, hash: Str -> Hash, node: Str)
    requires Consistent(r, hash) && node in r.vnodes && r.vnodes[node] != []
    ensures var r' := Added(r, hash, node, |r.vnodes[node]|); Consistent(r', hash) && !StrictlyIncreasing(r'.points)
  {
    hide Added, StrictlyIncreasing, InsertAll, Consistent, Sorted;
    var r', hs := Added(r, hash, node, |r.vnodes[node]|), r.vnodes[node];
    AddAgainFields(r, hash, node);
    InsertAllSorted(r.points, hs);
    assert forall q :: q in hs ==> q in r.points;
    SameMembersConsistent(r, r', hash);
    assert hs[0] in hs && hs[0] in multiset(r.points) && hs[0] in multiset(hs);
    assert multiset(r'.points)[hs[0]] >= 2;
    if StrictlyIncreasing(r'.points) { StrictMultiplicity(r'.points, hs[0]); }
  }

  lemma SameMembersConsistent(r: Ring, r': Ring, hash: Str -> Hash)
    requires Consistent(r, hash) && Sorted(r'.points) && r'.ids == r.ids && r'.vnodes == r.vnodes
    requires forall q :: q in r'.points <==> q in r.points
    ensures Consistent(r', hash)
  {
    hide NodeOf, VNodeId, Sorted;
    assert forall n :: n in r.vnodes ==> (Registered(r', hash, n) <==> Registered(r, hash, n));
  }

  lemma {:induction false} StrictMultiplicity(p: seq<Hash>, q: Hash)
    requires StrictlyIncreasing(p)
    ensures multiset(p)[q] <= 1
  {
    if p != [] {
      var init, last := p[..|p| - 1], p[|p| - 1];
      StrictMultiplicity(init, q);
      assert p == init + [last];
      if last == q { assert q !in init; assert q !in multiset(init); }
    }
  }

  lemma EmptyPart(r: Ring, hash: Str -> Hash)
    ensures PartOf(Ring([], map[], map[]), r, hash, {})
  {
  }

  /** The counting loop of cloneHashRing. */
  method CountVirtualNodes(vs: seq<VNode>) returns (counts: map<Str, nat>)
    ensures forall n :: n in counts <==> CountNode(vs, n) > 0
    ensures forall n :: n in counts ==> counts[n] == CountNode(vs, n)
  {
    counts := map[];
    for i := 0 to |vs|
      invariant forall n :: n in counts <==> CountNode(vs[..i], n) > 0
      invariant forall n :: n in counts ==> counts[n] == CountNode(vs[..i], n)
    {
      assert vs[..i + 1][..i] == vs[..i];
      var n := vs[i].node;
      counts := counts[n := (if n in counts then counts[n] else 0) + 1];
    }
    assert vs[..|vs|] == vs;
  }

  /** The loop of both calculations, over the virtual nodes of the ring that has the node. */
  method AssignRanges(with: ConsistentHasher, owners: ConsistentHasher, nodeID: Str)
    returns (m: map<Str, seq<KeyRange>>)
    requires Sorted(owners.ring)
    ensures m == Assigned(with.State(), owners.State(), nodeID, |with.ring|)
  {
    var allVNodes := with.GetAllVirtualNodes();
    m := map[];
    for i := 0 to |allVNodes|
      invariant m == Assigned(with.State(), owners.State(), nodeID, i)
    {
      var vnode := allVNodes[i];
      if vnode.node != nodeID {
        continue;
      }
      var owner := owners.GetNodeForHash(vnode.hash);
      if owner == [] || owner == nodeID {
        continue;
      }
      var prevHash := with.GetPreviousHash(vnode.hash);
      PreviousOf(with.ring, i, prevHash);
      m := m[owner := (if owner in m then m[owner] else []) + [KeyRange(prevHash, vnode.hash)]];
    }
  }

  lemma PreviousOf(p: seq<Hash>, i: nat, prev: Hash)
    requires i < |p|
    requires p[i] in p ==> exists j :: 0 <= j < |p| && p[j] == p[i] && p[i] !in p[..j] && prev == p[PrevIndex(j, |p|)]
    ensures KeyRange(prev, p[i]) == ArcTo(p, i)
  {
    var j :| 0 <= j < |p| && p[j] == p[i] && p[i] !in p[..j] && prev == p[PrevIndex(j, |p|)];
    var k := FirstCopy(p, p[i]);
    assert j == k;
  }

  /** CalculateKeyRangesForNewNode: by old owner, the ranges that move to the new node. On a
      consistent ring without copies the temporary ring is the ring after the join. */
  method CalculateKeyRangesForNewNode(current: ConsistentHasher, nodeID: Str, virtualNodes: nat)
    returns (m: map<Str, seq<KeyRange>>, ghost order: seq<Str>)
    requires Sorted(current.ring)
    ensures Orders(order, current.State())
    ensures var t := Added(Built(current.State(), current.hash, order), current.hash, nodeID, virtualNodes);
            m == Assigned(t, current.State(), nodeID, |t.points|)
    ensures Consistent(current.State(), current.hash) && StrictlyIncreasing(current.ring)
            && nodeID !in current.nodeVNodes && NoCollision(current.State(), current.hash, nodeID, virtualNodes) ==>
              var t := Added(current.State(), current.hash, nodeID, virtualNodes);
              && m == Assigned(t, Removed(t, nodeID), nodeID, |t.points|)
              && ListsWhatMoves(m, t, current.State()) && NoneTrivial(m)
  {
    var tempRing;
    tempRing, order := CloneHashRing(current);
    tempRing.AddNode(nodeID, virtualNodes);
    m := AssignRanges(tempRing, current, nodeID);
    ghost var r, hash := current.State(), current.hash;
    if Consistent(r, hash) && StrictlyIncreasing(r.points) && nodeID !in r.vnodes
       && NoCollision(r, hash, nodeID, virtualNodes) {
      JoinOnClone(r, hash, order, nodeID, virtualNodes);
      JoinListsWhatMoves(r, hash, nodeID, virtualNodes);
    }
  }

  lemma JoinListsWhatMoves(r: Ring, hash: Str -> Hash, node: Str, count: nat)
    requires Consistent(r, hash) && StrictlyIncreasing(r.points) && node !in r.vnodes
    requires NoCollision(r, hash, node, count)
    ensures var t := Added(r, hash, node, count); var m := Assigned(t, Removed(t, node), node, |t.points|);
            ListsWhatMoves(m, t, r) && NoneTrivial(m)
  {
    hide Consistent, NoCollision, Assigned, Removed, StrictlyIncreasing, Listed, Owner;
    var t := Added(r, hash, node, count);
    AddKeepsConsistent(r, hash, node, count);
    AddedStrict(r, hash, node, count);
    RemoveUndoesAdd(r, hash, node, count);
    LeaveListsWhatMoves(t, hash, node);
  }

  lemma LeaveListsWhatMoves(t: Ring, hash: Str -> Hash, node: Str)
    requires Consistent(t, hash) && StrictlyIncreasing(t.points) && node in t.vnodes
    ensures var m := Assigned(t, Removed(t, node), node, |t.points|);
            ListsWhatMoves(m, t, Removed(t, node)) && NoneTrivial(m)
  {
    hide Consistent, Assigned, Removed, StrictlyIncreasing, Listed, Owner;
    var r := Removed(t, node);
    var m := Assigned(t, r, node, |t.points|);
    forall o, h | h !in t.points
      ensures Listed(m, o, h) <==> Owner(t, h) != Owner(r, h) && o == Owner(r, h) && o != [] {
      ListedIffMoved(t, hash, node, o, h);
    }
    NoRangeStartsAtItsEnd(t, hash, node, |t.points|);
  }

  lemma JoinOnClone(r: Ring, hash: Str -> Hash, order: seq<Str>, node: Str, count: nat)
    requires Consistent(r, hash) && StrictlyIncreasing(r.points) && Orders(order, r)
    requires node !in r.vnodes && NoCollision(r, hash, node, count)
    ensures var t, t' := Added(r, hash, node, count), Added(Built(r, hash, order), hash, node, count);
            |t.points| == |t'.points| &&
            Assigned(t', r, node, |t'.points|) == Assigned(t, Removed(t, node), node, |t.points|)
  {
    hide Consistent, Built, NoCollision, Assigned;
    CloneIsExact(r, hash, order);
    RemoveUndoesAdd(r, hash, node, count);
    var t, t' := Added(r, hash, node, count), Added(Built(r, hash, order), hash, node, count);
    SameAnswers(t', t, r, Removed(t, node), node, |t.points|);
  }

  /** CalculateKeyRangesForRemovedNode: by new owner, the ranges that leave the removed node; for an
      unknown node, none. */
  method CalculateKeyRangesForRemovedNode(current: ConsistentHasher, nodeID: Str)
    returns (m: map<Str, seq<KeyRange>>, ghost order: seq<Str>)
    ensures Orders(order, current.State())
    ensures m ==
        Assigned(current.State(), Removed(Built(current.State(), current.hash, order), nodeID), nodeID, |current.ring|)
    ensures Consistent(current.State(), current.hash) && nodeID !in current.nodeVNodes ==> m == map[]
    ensures Consistent(current.State(), current.hash) && StrictlyIncreasing(current.ring)
            && nodeID in current.nodeVNodes ==>
              && m == Assigned(current.State(), Removed(current.State(), nodeID), nodeID, |current.ring|)
              && ListsWhatMoves(m, current.State(), Removed(current.State(), nodeID)) && NoneTrivial(m)
  {
    var tempRing;
    tempRing, order := CloneHashRing(current);
    ghost var r, hash := current.State(), current.hash;
    tempRing.RemoveNode(nodeID);
    BuiltSorted(r, hash, order, nodeID);
    m := AssignRanges(current, tempRing, nodeID);
    if Consistent(r, hash) && nodeID !in r.vnodes { NothingToLeave(r, hash, tempRing.State(), nodeID, |r.points|); }
    if Consistent(r, hash) && StrictlyIncreasing(r.points) && nodeID in r.vnodes {
      LeaveOnClone(r, hash, order, nodeID);
      LeaveListsWhatMoves(r, hash, nodeID);
    }
  }

  lemma {:induction false} BuiltSorted(r: Ring, hash: Str -> Hash, order: seq<Str>, node: Str)
    ensures Sorted(Built(r, hash, order).points) && Sorted(Removed(Built(r, hash, order), node).points)
  {
    hide Added, CountIn;
    if order != [] {
      BuiltSorted(r, hash, order[..|order| - 1], node);
      AddedPoints(Built(r, hash, order[..|order| - 1]), hash, order[|order| - 1], CountIn(r, order[|order| - 1]));
    }
    var c := Built(r, hash, order);
    if node in c.vnodes { WithoutSorted(c.points, PointsOf(c.vnodes[node])); }
  }

  lemma {:induction false} NothingToLeave(t: Ring, hash: Str -> Hash, r: Ring, node: Str, n: nat)
    requires Consistent(t, hash) && node !in t.vnodes && n <= |t.points|
    ensures Assigned(t, r, node, n) == map[]
  {
    hide ArcTo, Owner;
    if n > 0 {
      NothingToLeave(t, hash, r, node, n - 1);
      PointsOfNode(t, hash, node, t.points[n - 1]);
    }
  }

  lemma LeaveOnClone(r: Ring, hash: Str -> Hash, order: seq<Str>, node: Str)
    requires Consistent(r, hash) && StrictlyIncreasing(r.points) && Orders(order, r) && node in r.vnodes
    ensures Assigned(r, Removed(Built(r, hash, order), node), node, |r.points|) ==
        Assigned(r, Removed(r, node), node, |r.points|)
  {
    hide Consistent, Built, Assigned, Removed;
    CloneIsExact(r, hash, order);
    RemovedFromClone(Built(r, hash, order), r, hash, node);
    SameAnswers(r, r, Removed(Built(r, hash, order), node), Removed(r, node), node, |r.points|);
  }

  lemma AddedStrict(r: Ring, hash: Str -> Hash, node: Str, count: nat)
    requires Consistent(r, hash) && StrictlyIncreasing(r.points) && NoCollision(r, hash, node, count)
    ensures StrictlyIncreasing(Added(r, hash, node, count).points)
  {
    AddedPoints(r, hash, node, count);
    forall i | 0 <= i < count ensures Hashes(hash, node, count)[i] !in r.points { }
    InsertAllStrict(r.points, Hashes(hash, node, count));
  }

  /** The calculation reads only points and names. */
  lemma {:induction false} SameAnswers(t: Ring, t': Ring, r: Ring, r': Ring, node: Str, n: nat)
    requires t.points == t'.points && t.ids == t'.ids && r.points == r'.points && r.ids == r'.ids && n <= |t.points|
    ensures Assigned(t, r, node, n) == Assigned(t', r', node, n)
  {
    if n > 0 { SameAnswers(t, t', r, r', node, n - 1); }
  }

  /** Removing a node from a clone removes it from the ring, even if the clone never had it. */
  lemma RemovedFromClone(c: Ring, r: Ring, hash: Str -> Hash, node: Str)
    requires Consistent(r, hash) && StrictlyIncreasing(r.points) && node in r.vnodes
    requires PartOf(c, r, hash, PhysicalNodes(r)) && c.points == r.points && c.ids == r.ids
    ensures Removed(c, node).points == Removed(r, node).points && Removed(c, node).ids == Removed(r, node).ids
    ensures StrictlyIncreasing(Removed(c, node).points)
  {
    if node !in c.vnodes {
      assert r.vnodes[node] == [];
      WithoutNothing(r.points, {});
      assert PointsOf(r.vnodes[node]) == {};
      assert r.ids - {} == r.ids;
    }
    WithoutStrict(r.points, PointsOf(r.vnodes[node]));
  }

  // ---------- rings with copies ----------

  /** The first point above `h` of a larger ring is in the smaller one exactly if it is the first there. */
  lemma FirstOfMore(p: seq<Hash>, p': seq<Hash>, h: Hash)
    requires Sorted(p) && Sorted(p') && p != [] && p' != [] && forall x :: x in p ==> x in p'
    ensures p'[FirstAbove(p', h)] in p <==> p'[FirstAbove(p', h)] == p[FirstAbove(p, h)]
  {
    var a, b := Rank(p, h), Rank(p', h);
    hide Rank;
    var x := p'[FirstAbove(p', h)];
    if x in p {
      var j :| 0 <= j < |p| && p[j] == x;
      var least := p[FirstAbove(p, h)];
      assert least in p';
      var i :| 0 <= i < |p'| && p'[i] == least;
    }
  }

  lemma {:induction false} NamedAtMostCounted(ids: map<Hash, Str>, pts: seq<Hash>, n: Str)
    ensures |PointsNamed(ids, pts, n)| <= CountNode(VNodesAt(ids, pts), n)
    ensures CountNode(VNodesAt(ids, pts), n) > 0 ==> PointsNamed(ids, pts, n) != {}
  {
    hide NodeOf, PointsNamed, CountNode;
    if pts == [] {
      NothingNamed(ids, n);
    } else {
      var init, last := pts[..|pts| - 1], pts[|pts| - 1];
      NamedAtMostCounted(ids, init, n);
      assert pts == init + [last];
      NamedAtMostOneMore(ids, init, last, n);
      CountOneMore(ids, pts, init, n);
    }
  }

  lemma NothingNamed(ids: map<Hash, Str>, n: Str)
    ensures PointsNamed(ids, [], n) == {} && CountNode(VNodesAt(ids, []), n) == 0
  {
  }

  lemma CountOneMore(ids: map<Hash, Str>, pts: seq<Hash>, init: seq<Hash>, n: Str)
    requires pts != [] && init == pts[..|pts| - 1]
    ensures CountNode(VNodesAt(ids, pts), n) ==
        CountNode(VNodesAt(ids, init), n) + if NodeOf(IdAt(ids, pts[|init|])) == n then 1 else 0
  {
    hide NodeOf;
    var vs := VNodesAt(ids, pts);
    assert vs[..|vs| - 1] == VNodesAt(ids, init);
  }

  lemma NamedAtMostOneMore(ids: map<Hash, Str>, init: seq<Hash>, last: Hash, n: Str)
    ensures var rest, all := PointsNamed(ids, init, n), PointsNamed(ids, init + [last], n);
            if NodeOf(IdAt(ids, last)) == n then all != {} && |all| <= |rest| + 1 else all == rest
  {
    hide NodeOf;
    var rest, all := PointsNamed(ids, init, n), PointsNamed(ids, init + [last], n);
    if NodeOf(IdAt(ids, last)) == n {
      assert last in all;
      assert all == rest + {last};
    }
  }

  lemma SmallerSet(a: set<Hash>, b: set<Hash>)
    requires a <= b
    ensures |a| <= |b|
  {
    assert b == a + (b - a);
  }

  /** With copies a node is counted at least as often as it has points; an unknown node is not counted. */
  lemma CountedAtLeast(r: Ring, hash: Str -> Hash, n: Str)
    requires Consistent(r, hash)
    ensures n in r.vnodes ==> |r.vnodes[n]| <= CountIn(r, n)
    ensures n !in r.vnodes ==> CountIn(r, n) == 0
  {
    hide NodeOf, CountNode;
    NamedAtMostCounted(r.ids, r.points, n);
    var mine := PointsNamed(r.ids, r.points, n);
    if n in r.vnodes {
      assert Registered(r, hash, n);
      DistinctPointCount(r.vnodes[n]);
      forall q | q in r.vnodes[n] ensures q in mine { RegisteredPoints(r, hash, n, q); }
      SmallerSet(PointsOf(r.vnodes[n]), mine);
    } else if q :| q in mine {
      PointsOfNode(r, hash, n, q);
    }
  }

  lemma {:induction false} BuiltHas(r: Ring, hash: Str -> Hash, order: seq<Str>, n: Str, i: nat)
    requires n in order && i < CountIn(r, n)
    ensures hash(VNodeId(n, i)) in Built(r, hash, order).points
  {
    hide VNodeId, CountIn;
    var init, last := order[..|order| - 1], order[|order| - 1];
    var c := Built(r, hash, init);
    BuiltSorted(r, hash, init, n);
    AddedPoints(c, hash, last, CountIn(r, last));
    if n == last {
      assert Hashes(hash, last, CountIn(r, last))[i] == hash(VNodeId(n, i));
    } else {
      assert n in init;
      BuiltHas(r, hash, init, n, i);
    }
  }

  /** A clone has all points of the ring. */
  lemma CloneHasAll(r: Ring, hash: Str -> Hash, order: seq<Str>, q: Hash)
    requires Consistent(r, hash) && Orders(order, r) && q in r.points
    ensures q in Built(r, hash, order).points
  {
    hide VNodeId, NodeOf, CountIn, Built;
    var n := NodeOf(r.ids[q]);
    assert Registered(r, hash, n);
    var i :| 0 <= i < |r.vnodes[n]| && r.vnodes[n][i] == q;
    CountedAtLeast(r, hash, n);
    BuiltHas(r, hash, order, n, i);
  }

  /** A clone is consistent and has the ring's nodes. */
  lemma {:induction false} CloneIsConsistent(r: Ring, hash: Str -> Hash, order: seq<Str>)
    requires NoClash(r, hash, order) && forall i, j :: 0 <= i < j < |order| ==> order[i] != order[j]
    ensures Consistent(Built(r, hash, order), hash)
    ensures forall n :: n in Built(r, hash, order).vnodes <==> n in order
  {
    hide VNodeId, CountIn, Consistent, Sort, AddIds;
    if order == [] {
      EmptyIsConsistent(hash);
    } else {
      var init, n := order[..|order| - 1], order[|order| - 1];
      assert order == init + [n];
      var c, count := Built(r, hash, init), CountIn(r, n);
      CloneIsConsistent(r, hash, init);
      BuiltPoints(r, hash, init);
      PointsAreNamed(c, hash);
      AddKeepsConsistent(c, hash, n, count);
    }
  }

  lemma EmptyIsConsistent(hash: Str -> Hash)
    ensures Consistent(Ring([], map[], map[]), hash)
  {
  }

  lemma PointsAreNamed(r: Ring, hash: Str -> Hash)
    requires Consistent(r, hash)
    ensures Sorted(r.points) && forall q :: q in r.points <==> q in r.ids
  {
  }

  /** A join on a ring with copies: the clone has further virtual nodes of the copied ones. Every
      hash the calculation lists moves and is listed under its old owner; of those that move it lists
      exactly the ones for which no further virtual node comes before the ring's next point. */
  lemma JoinWithCopiesListsIff(r: Ring, hash: Str -> Hash, order: seq<Str>, node: Str, count: nat, o: Str, h: Hash)
    requires Consistent(r, hash) && Orders(order, r) && NoClash(r, hash, order) && node !in r.vnodes
    requires NoCollision(Built(r, hash, order), hash, node, count)
    requires var c := Added(Built(r, hash, order), hash, node, count); h !in c.points && c.points != []
    requires Added(r, hash, node, count).points != []
    ensures var t, c := Added(r, hash, node, count), Added(Built(r, hash, order), hash, node, count);
            Listed(Assigned(c, r, node, |c.points|), o, h) <==>
            && Owner(t, h) == node && o == Owner(r, h) && o != []
            && c.points[FirstAbove(c.points, h)] == t.points[FirstAbove(t.points, h)]
  {
    hide Consistent, Built, NoClash, CountIn, Assigned, Listed, FirstAbove, Added, Removed, Owner, NodeAt, NoCollision;
    var b := Built(r, hash, order);
    var t, c := Added(r, hash, node, count), Added(b, hash, node, count);
    var q, q' := t.points[FirstAbove(t.points, h)], c.points[FirstAbove(c.points, h)];
    CloneIsConsistent(r, hash, order);
    forall x | x in r.points ensures x in b.points { CloneHasAll(r, hash, order, x); }
    assert node !in b.vnodes by { CountedAtLeast(r, hash, node); }
    NoCollisionBelow(r, hash, b, node, count);
    PointsAfterJoin(r, hash, node, count);
    PointsAfterJoin(b, hash, node, count);
    OwnersAround(r, hash, node, count, h);
    OwnersAround(b, hash, node, count, h);
    FirstOfMore(t.points, c.points, h);
    ListedAt(c, r, node, o, h);
    if q' in Hashes(hash, node, count) && r.points != [] { TwoPoints(c.points, q', r.points[0]); }
    if r.points == [] {
      NobodyOwns(r, q');
      NobodyOwns(r, h);
    }
  }

  lemma NobodyOwns(r: Ring, h: Hash)
    requires r.points == []
    ensures Owner(r, h) == []
  {
  }

  lemma TwoPoints(p: seq<Hash>, x: Hash, y: Hash)
    requires Sorted(p) && x in p && y in p && x != y
    ensures p[0] != p[|p| - 1]
  {
    var i, j :| 0 <= i < |p| && 0 <= j < |p| && p[i] == x && p[j] == y;
    assert p[0] <= p[i] <= p[|p| - 1] && p[0] <= p[j] <= p[|p| - 1];
  }

  lemma NoCollisionBelow(r: Ring, hash: Str -> Hash, b: Ring, node: Str, count: nat)
    requires Consistent(r, hash) && Consistent(b, hash) && NoCollision(b, hash, node, count)
    requires forall q :: q in r.points ==> q in b.points
    ensures NoCollision(r, hash, node, count)
  {
  }

  lemma PointsAfterJoin(r: Ring, hash: Str -> Hash, node: Str, count: nat)
    requires Consistent(r, hash) && NoCollision(r, hash, node, count)
    ensures var t, hs := Added(r, hash, node, count), Hashes(hash, node, count);
            && Sorted(t.points) && (forall q :: q in t.points <==> q in r.points || q in hs)
            && forall q :: q in hs ==> q !in r.points
  {
    AddedPoints(r, hash, node, count);
  }

  /** Who owns `h` after and before a join, by the first point above it. */
  lemma OwnersAround(r: Ring, hash: Str -> Hash, node: Str, count: nat, h: Hash)
    requires Consistent(r, hash) && node !in r.vnodes && NoCollision(r, hash, node, count)
    requires Added(r, hash, node, count).points != [] && h !in Added(r, hash, node, count).points
    ensures var t := Added(r, hash, node, count); var q := t.points[FirstAbove(t.points, h)];
            && Owner(t, h) == NodeAt(t, q) && (NodeAt(t, q) == node <==> q in Hashes(hash, node, count))
            && Owner(r, h) == Owner(r, q) && (r.points != [] ==> Owner(r, q) != node)
  {
    hide Owner, FirstAbove, NoCollision, NodeAt;
    var t := Added(r, hash, node, count);
    AddKeepsConsistent(r, hash, node, count);
    RemoveUndoesAdd(r, hash, node, count);
    LookupsCompared(t.points, h);
    OwnersCompared(t, hash, node, h);
    var q := t.points[FirstAbove(t.points, h)];
    OwnerOtherThan(t, hash, node, q);
    PointsOfNode(t, hash, node, q);
  }

  lemma FirstAboveIs(p: seq<Hash>, h: Hash, x: Hash)
    requires Sorted(p) && x in p && x > h && forall y :: y in p && y > h ==> y >= x
    ensures p[FirstAbove(p, h)] == x
  {
    var k := Rank(p, h);
    hide Rank;
    var i :| 0 <= i < |p| && p[i] == x;
    assert k <= i;
    assert p[k] in p;
  }

  /** Node "a" at 10, added twice, counts two virtual nodes, the second at 20. When "b" joins at 30 it
      takes hash 15 from "a", but on the clone 20 comes first and the hash is not listed. */
  lemma JoinMissesHash() returns (r: Ring, hash: Str -> Hash, order: seq<Str>, node: Str, h: Hash)
    ensures Consistent(r, hash) && Orders(order, r) && node !in r.vnodes
    ensures var t, c := Added(r, hash, node, 1), Added(Built(r, hash, order), hash, node, 1);
            && Owner(t, h) == node != Owner(r, h)
            && forall o :: !Listed(Assigned(c, r, node, |c.points|), o, h)
  {
    hide Owner, Listed, Assigned, Consistent, Added, NodeAt, Orders, NoClash, NoCollision, Built;
    r, hash := TwiceAdded();
    order, node, h := [[97]], [98], 15;
    CloneOfTwice(r, hash);
    var t, c := Added(r, hash, node, 1), Added(Built(r, hash, order), hash, node, 1);
    JoinAtThirty(r, hash);
    JoinAtThirty(Built(r, hash, order), hash);
    FirstAboveIs(t.points, h, 30);
    FirstAboveIs(c.points, h, 20);
    OwnersAround(r, hash, node, 1, h);
    assert Hashes(hash, node, 1)[0] == 30;
    forall o ensures !Listed(Assigned(c, r, node, |c.points|), o, h) {
      JoinWithCopiesListsIff(r, hash, order, node, 1, o, h);
    }
  }

  ghost predicate TwiceHash(hash: Str -> Hash) {
    hash(VNodeId([97], 0)) == 10 && hash(VNodeId([97], 1)) == 20 && hash(VNodeId([98], 0)) == 30
  }

  lemma TwiceAdded() returns (r: Ring, hash: Str -> Hash)
    ensures Twice(r, hash)
  {
    var a0, a1, b0 := VNodeId([97], 0), VNodeId([97], 1), VNodeId([98], 0);
    NodeOfVNodeId([97], 0);
    NodeOfVNodeId([97], 1);
    NodeOfVNodeId([98], 0);
    assert a0[|a0| - 1] != a1[|a1| - 1];
    hide VNodeId, NodeOf;
    hash := (s: Str) => if s == a0 then 10 else if s == a1 then 20 else 30;
    r := Ring([10, 10], map[10 := a0], map[[97] := [10]]);
    assert Registered(r, hash, [97]);
  }

  ghost predicate Twice(r: Ring, hash: Str -> Hash) {
    && Consistent(r, hash) && TwiceHash(hash)
    && r.points == [10, 10] && r.vnodes == map[[97] := [10]] && NodeAt(r, 10) == [97]
  }

  lemma CountedTwice(r: Ring, n: Str)
    requires r.points == [10, 10] && NodeAt(r, 10) == [97]
    ensures CountIn(r, n) == if n == [97] then 2 else 0
  {
    hide NodeOf;
    var vs := VNodesAt(r.ids, r.points);
    assert vs[0].node == [97] && vs[1].node == [97];
    var one := vs[..1];
    assert one[..0] == [] && one[0] == vs[0];
    assert CountNode(one, n) == if n == [97] then 1 else 0;
    assert vs[..|vs| - 1] == one;
  }

  lemma CloneOfTwice(r: Ring, hash: Str -> Hash)
    requires Twice(r, hash)
    ensures Orders([[97]], r) && NoClash(r, hash, [[97]])
    ensures var b := Built(r, hash, [[97]]); Consistent(b, hash) && forall q :: q in b.points <==> q == 10 || q == 20
  {
    hide VNodeId, NodeOf, Consistent, CountIn, Sort, AddIds;
    forall n ensures CountIn(r, n) == if n == [97] then 2 else 0 { CountedTwice(r, n); }
    var order: seq<Str> := [[97]];
    CloneIsConsistent(r, hash, order);
    assert order[..0] == [];
    var hs := Hashes(hash, [97], 2);
    AddedPoints(Ring([], map[], map[]), hash, [97], 2);
    assert hs[0] == 10 && hs[1] == 20;
  }

  /** "b" joins at 30. */
  lemma JoinAtThirty(r: Ring, hash: Str -> Hash)
    requires Consistent(r, hash) && TwiceHash(hash) && 30 !in r.points
    ensures NoCollision(r, hash, [98], 1)
    ensures var t := Added(r, hash, [98], 1);
            Sorted(t.points) && forall q :: q in t.points <==> q in r.points || q == 30
  {
    hide VNodeId, NodeOf, Consistent, Added;
    PointsAreNamed(r, hash);
    AddedPoints(r, hash, [98], 1);
    assert Hashes(hash, [98], 1) == [30];
  }

  /** A leave on a ring with copies: the calculation lists just the hashes that move, each under one
      node, the owner of the ring's next point on the clone without the leaving node. */
  lemma LeaveWithCopiesListsIff(r: Ring, hash: Str -> Hash, order: seq<Str>, node: Str, o: Str, h: Hash)
    requires Consistent(r, hash) && Orders(order, r) && NoClash(r, hash, order) && node in r.vnodes
    requires r.points != [] && h !in r.points
    ensures var c, q := Removed(Built(r, hash, order), node), r.points[FirstAbove(r.points, h)];
            Listed(Assigned(r, c, node, |r.points|), o, h) <==> Owner(r, h) == node && o == Owner(c, q) && o != []
  {
    hide Consistent, Built, NoClash, CountIn, Assigned, Listed, FirstAbove, Removed, Owner, NodeAt;
    var b, q := Built(r, hash, order), r.points[FirstAbove(r.points, h)];
    var c := Removed(b, node);
    PointsAreNamed(r, hash);
    ListedAt(r, c, node, o, h);
    LookupsCompared(r.points, h);
    OwnersCompared(r, hash, node, h);
    if NodeAt(r, q) == node && o == Owner(c, q) && o != [] {
      CloneIsConsistent(r, hash, order);
      var x := OwningPoint(c, q);
      OtherNodeLeft(r, hash, order, node, q, x);
    }
  }

  lemma OwningPoint(r: Ring, h: Hash) returns (x: Hash)
    requires Owner(r, h) != []
    ensures x in r.points && Owner(r, h) == NodeAt(r, x)
  {
    FilterMembers(r.points, h, {});
    assert r.points[0] in Clockwise(r.points, h);
    x := Clockwise(r.points, h)[0];
    assert x in Clockwise(r.points, h);
  }

  /** A node left on the clone has a point on the ring, so the ring is more than the leaving node's point. */
  lemma OtherNodeLeft(r: Ring, hash: Str -> Hash, order: seq<Str>, node: Str, q: Hash, x: Hash)
    requires Consistent(r, hash) && Orders(order, r) && q in r.points && NodeAt(r, q) == node && node in r.vnodes
    requires var b := Built(r, hash, order);
             Consistent(b, hash) && (forall n :: n in b.vnodes <==> n in order) && x in Removed(b, node).points
    ensures NodeAt(Removed(Built(r, hash, order), node), x) != node && r.points[0] != r.points[|r.points| - 1]
  {
    hide Built, CountIn, Consistent, NodeAt, Removed;
    var b := Built(r, hash, order);
    PointsOfNode(r, hash, node, q);
    CountedAtLeast(r, hash, node);
    assert node in b.vnodes;
    LeftNodes(b, hash, node, x);
    var y := CountedPoint(r, NodeAt(Removed(b, node), x));
    PointsAreNamed(r, hash);
    TwoPoints(r.points, q, y);
  }

  lemma LeftNodes(b: Ring, hash: Str -> Hash, node: Str, x: Hash)
    requires Consistent(b, hash) && node in b.vnodes && x in Removed(b, node).points
    ensures NodeAt(Removed(b, node), x) in b.vnodes && NodeAt(Removed(b, node), x) != node
  {
    hide Consistent, NodeAt;
    RemoveKeepsConsistent(b, hash, node);
    PointsOfNode(Removed(b, node), hash, node, x);
  }

  lemma CountedPoint(r: Ring, n: Str) returns (y: Hash)
    requires CountIn(r, n) > 0
    ensures y in r.points && NodeAt(r, y) == n
  {
    NamedAtMostCounted(r.ids, r.points, n);
    y :| y in PointsNamed(r.ids, r.points, n);
  }

  /** A ring point can move without being listed: with one virtual node each, the leaving node's
      own point goes to the other node, yet no recorded range contains it. */
  lemma RingPointCanBeMissed() returns (t: Ring, hash: Str -> Hash, node: Str, h: Hash)
    ensures Consistent(t, hash) && StrictlyIncreasing(t.points) && node in t.vnodes && [] !in t.vnodes
    ensures Owner(t, h) != Owner(Removed(t, node), h)
    ensures forall o :: !Listed(Assigned(t, Removed(t, node), node, |t.points|), o, h)
  {
    hide Consistent, NodeAt, Listed, Owner, Assigned;
    t, hash := TwoNodeRing();
    node, h := [98], 20;
    RemovedFromTwo(t);
    forall o
      ensures !Listed(Assigned(t, Removed(t, node), node, |t.points|), o, h)
    {
      ListedAtPoint(t, hash, node, 1, o);
    }
    MovedAtPoint(t, hash, node, 1);
  }

  /** Nodes "a" at 10 and "b" at 20. */
  lemma TwoNodeRing() returns (t: Ring, hash: Str -> Hash)
    ensures Consistent(t, hash) && t.points == [10, 20] && t.vnodes == map[[97] := [10], [98] := [20]]
    ensures NodeAt(t, 10) == [97] && NodeAt(t, 20) == [98]
  {
    var ida, idb := VNodeId([97], 0), VNodeId([98], 0);
    NodeOfVNodeId([97], 0);
    NodeOfVNodeId([98], 0);
    assert ida[0] != idb[0];
    hide VNodeId, NodeOf;
    hash := (s: Str) => if s == ida then 10 else 20;
    t := Ring([10, 20], map[10 := ida, 20 := idb], map[[97] := [10], [98] := [20]]);
    assert Registered(t, hash, [97]) && Registered(t, hash, [98]);
  }

  lemma RemovedFromTwo(t: Ring)
    requires t.points == [10, 20] && t.vnodes == map[[97] := [10], [98] := [20]]
    ensures Removed(t, [98]).points != []
  {
    FilterMembers(t.points, 0, PointsOf([20]));
    assert 10 in t.points && 10 !in PointsOf([20]);
    assert 10 in Without(t.points, PointsOf([20]));
  }
}
