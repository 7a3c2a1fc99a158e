/** Vector clocks: lists of (coordinator, counter) entries compared component by component. */
module VectorClocks {
  import opened GoStrings

  datatype Entry = Entry(node: Str, ts: int)

  type Clock = seq<Entry>

  datatype Order = Identical | Before | After | Concurrent

  /** The map a clock stands for: the last entry of a coordinator wins. */
  function MapOf(c: Clock): (m: map<Str, int>)
    ensures forall n :: n in m <==> exists i :: 0 <= i < |c| && c[i].node == n
  {
    if c == [] then map[]
    else
      var last := c[|c| - 1];
      var m := MapOf(c[..|c| - 1]);
      assert forall n :: n in m <==> exists i :: 0 <= i < |c| - 1 && c[i].node == n by {
        assert forall i :: 0 <= i < |c| - 1 ==> c[..|c| - 1][i] == c[i];
      }
      assert c[|c| - 1].node == last.node;
      m[last.node := last.ts]
  }

  /** A map read with 0 for a missing key, as Go does. */
  function Get(m: map<Str, int>, n: Str): (ts: int) {
    if n in m then m[n] else 0
  }

  /** The component of coordinator `n`; a missing component counts as 0. */
  function At(c: Clock, n: Str): (ts: int) {
    Get(MapOf(c), n)
  }

  ghost predicate UniqueIds(c: Clock) {
    forall i, j :: 0 <= i < j < |c| ==> c[i].node != c[j].node
  }

  ghost predicate NonNegative(c: Clock) {
    forall i :: 0 <= i < |c| ==> c[i].ts >= 0
  }

  /** The pointwise order. */
  ghost predicate Leq(a: Clock, b: Clock) {
    forall n :: At(a, n) <= At(b, n)
  }

  ghost function Relate(a: Clock, b: Clock): (r: Order) {
    if Leq(a, b) then if Leq(b, a) then Identical else Before
    else if Leq(b, a) then After else Concurrent
  }

  lemma {:induction false} NonNegativeAt(c: Clock, n: Str)
    requires NonNegative(c)
    ensures At(c, n) >= 0
  {
    if c != [] { NonNegativeAt(c[..|c| - 1], n); }
  }

  lemma {:induction false} UniqueAt(c: Clock, i: nat)
    requires UniqueIds(c) && i < |c|
    ensures At(c, c[i].node) == c[i].ts
  {
    if i < |c| - 1 { UniqueAt(c[..|c| - 1], i); }
  }

  /** The last entry of a coordinator decides its component. */
  lemma {:induction false} LastEntryWins(c: Clock, i: nat)
    requires i < |c| && forall j :: i < j < |c| ==> c[j].node != c[i].node
    ensures At(c, c[i].node) == c[i].ts
  {
    if i < |c| - 1 { LastEntryWins(c[..|c| - 1], i); }
  }

  /** The order is a preorder, and Relate is its dual under swapped arguments. */
  lemma OrderLaws(a: Clock, b: Clock, c: Clock)
    ensures Relate(a, a) == Identical
    ensures Relate(a, b) == Before <==> Relate(b, a) == After
    ensures Relate(a, b) == Identical <==> Relate(b, a) == Identical
    ensures Relate(a, b).Before? && (Relate(b, c).Before? || Relate(b, c).Identical?) ==> Relate(a, c) == Before
    ensures Relate(a, b).Identical? ==> Relate(a, c) == Relate(b, c) && Relate(c, a) == Relate(c, b)
    ensures Leq(a, b) && Leq(b, c) ==> Leq(a, c)
  {
    if Leq(a, b) && Leq(b, c) { LeqTransitive(a, b, c); }
    if Leq(a, b) && Leq(b, c) && Leq(c, a) { LeqTransitive(b, c, a); LeqTransitive(c, a, b); }
    if Leq(a, b) && Leq(b, a) {
      if Leq(a, c) { LeqTransitive(b, a, c); }
      if Leq(c, a) { LeqTransitive(c, a, b); }
      if Leq(c, b) { LeqTransitive(c, b, a); }
    }
  }

  lemma LeqTransitive(a: Clock, b: Clock, c: Clock)
    requires Leq(a, b) && Leq(b, c)
    ensures Leq(a, c)
  {
    forall n ensures At(a, n) <= At(c, n) { assert At(a, n) <= At(b, n) <= At(c, n); }
  }

  // ---------- the coordinator's operations ----------

  /** toMap. */
  method ToMap(c: Clock) returns (m: map<Str, int>)
    ensures m == MapOf(c)
  {
    m := map[];
    for i := 0 to |c|
      invariant m == MapOf(c[..i])
    {
      assert c[..i + 1][..i] == c[..i];
      m := m[c[i].node := c[i].ts];
    }
    assert c[..|c|] == c;
  }

  lemma AppendEntry(c: Clock, e: Entry)
    ensures MapOf(c + [e]) == MapOf(c)[e.node := e.ts]
    ensures UniqueIds(c) && e.node !in MapOf(c) ==> UniqueIds(c + [e])
  {
    assert (c + [e])[..|c|] == c;
  }

  /** A map's bindings as entries, in whatever order the map yields them. */
  method FromMap(m: map<Str, int>) returns (c: Clock)
    ensures MapOf(c) == m && UniqueIds(c)
  {
    c := [];
    var rest := m.Keys;
    while rest != {}
      invariant rest <= m.Keys && UniqueIds(c)
      invariant forall n :: n in MapOf(c) <==> n in m && n !in rest
      invariant forall n :: n in MapOf(c) ==> MapOf(c)[n] == m[n]
      decreases |rest|
    {
      var n :| n in rest;
      AppendEntry(c, Entry(n, m[n]));
      c := c + [Entry(n, m[n])];
      rest := rest - {n};
    }
  }

  /** Compare: decides the pointwise order. */
  method Compare(vc1: Clock, vc2: Clock) returns (r: Order)
    ensures r == Relate(vc1, vc2)
  {
    var map1 := ToMap(vc1);
    var map2 := ToMap(vc2);
    AgreeOnKeys(vc1, vc2);
    AgreeOnKeys(vc2, vc1);
    hide MapOf, Leq, At;
    var allBefore, allAfter := true, true;
    var rest := map1.Keys + map2.Keys;
    while rest != {}
      invariant rest <= map1.Keys + map2.Keys
      invariant allBefore <==> forall n :: n in map1.Keys + map2.Keys - rest ==> Get(map1, n) <= Get(map2, n)
      invariant allAfter <==> forall n :: n in map1.Keys + map2.Keys - rest ==> Get(map1, n) >= Get(map2, n)
      decreases |rest|
    {
      var nodeID :| nodeID in rest;
      var ts1, ts2 := Get(map1, nodeID), Get(map2, nodeID);
      if ts1 < ts2 {
        allAfter := false;
      } else if ts1 > ts2 {
        allBefore := false;
      }
      rest := rest - {nodeID};
    }
    if allBefore && allAfter {
      return Identical;
    }
    if allBefore {
      return Before;
    }
    if allAfter {
      return After;
    }
    return Concurrent;
  }

  /** Only the components present on either side decide the order. */
  lemma AgreeOnKeys(a: Clock, b: Clock)
    ensures Leq(a, b) <==> forall n :: n in MapOf(a).Keys + MapOf(b).Keys ==> Get(MapOf(a), n) <= Get(MapOf(b), n)
  {
    if Leq(a, b) {
      forall n | n in MapOf(a).Keys + MapOf(b).Keys
        ensures Get(MapOf(a), n) <= Get(MapOf(b), n)
      {
        assert At(a, n) <= At(b, n);
      }
    } else {
      var n :| At(a, n) > At(b, n);
      assert n in MapOf(a).Keys + MapOf(b).Keys;
    }
  }

  /** The largest timestamp of coordinator `n` among all entries seen so far. */
  ghost predicate MaxOf(m: map<Str, int>, seen: seq<Entry>) {
    && (forall i :: 0 <= i < |seen| ==> seen[i].node in m && seen[i].ts <= m[seen[i].node])
    && (forall n :: n in m ==> exists i :: 0 <= i < |seen| && seen[i].node == n && seen[i].ts == m[n])
  }

  /** All entries of all clocks, in order. */
  ghost function Flatten(clocks: seq<Clock>): (s: seq<Entry>) {
    if clocks == [] then [] else Flatten(clocks[..|clocks| - 1]) + clocks[|clocks| - 1]
  }

  /** Merge: for every coordinator the largest timestamp any of the clocks holds. */
  method Merge(clocks: seq<Clock>) returns (merged: Clock)
    ensures UniqueIds(merged) && MaxOf(MapOf(merged), Flatten(clocks))
  {
    var m: map<Str, int> := map[];
    for i := 0 to |clocks|
      invariant MaxOf(m, Flatten(clocks[..i]))
    {
      var clock := clocks[i];
      assert clocks[..i + 1][..i] == clocks[..i];
      ghost var before := Flatten(clocks[..i]);
      assert before + clock[..0] == before;
      for j := 0 to |clock|
        invariant MaxOf(m, before + clock[..j])
      {
        var entry := clock[j];
        assert before + clock[..j + 1] == before + clock[..j] + [entry];
        MaxOfStep(m, before + clock[..j], entry);
        if entry.node !in m || entry.ts > m[entry.node] {
          m := m[entry.node := entry.ts];
        }
      }
      assert before + clock[..|clock|] == Flatten(clocks[..i + 1]);
    }
    assert clocks[..|clocks|] == clocks;
    merged := FromMap(m);
  }

  lemma MaxOfStep(m: map<Str, int>, seen: seq<Entry>, e: Entry)
    requires MaxOf(m, seen)
    ensures MaxOf(if e.node !in m || e.ts > m[e.node] then m[e.node := e.ts] else m, seen + [e])
  {
    var m' := if e.node !in m || e.ts > m[e.node] then m[e.node := e.ts] else m;
    var seen' := seen + [e];
    assert seen'[|seen|] == e;
    forall n | n in m' ensures exists i :: 0 <= i < |seen'| && seen'[i].node == n && seen'[i].ts == m'[n] {
      if n in m && m'[n] == m[n] {
        var i :| 0 <= i < |seen| && seen[i].node == n && seen[i].ts == m[n];
        assert seen'[i] == seen[i];
      }
    }
  }

  /** Merge gives the least upper bound of non-negative clocks without repeated coordinators. */
  lemma MergeIsLeastUpperBound(clocks: seq<Clock>, merged: Clock)
    requires forall i :: 0 <= i < |clocks| ==> NonNegative(clocks[i]) && UniqueIds(clocks[i])
    requires MaxOf(MapOf(merged), Flatten(clocks))
    ensures forall i :: 0 <= i < |clocks| ==> Leq(clocks[i], merged)
    ensures forall u :: NonNegative(u) && (forall i :: 0 <= i < |clocks| ==> Leq(clocks[i], u)) ==> Leq(merged, u)
  {
    var m, seen := MapOf(merged), Flatten(clocks);
    forall i | 0 <= i < |clocks| ensures Leq(clocks[i], merged) {
      forall n ensures At(clocks[i], n) <= At(merged, n) {
        FlattenMember(clocks, i);
        if n in MapOf(clocks[i]) {
          var j :| 0 <= j < |clocks[i]| && clocks[i][j].node == n;
          UniqueAt(clocks[i], j);
          assert clocks[i][j] in seen;
        } else if n in m {
          var k :| 0 <= k < |seen| && seen[k].node == n && seen[k].ts == m[n];
          var _, _ := MemberOfFlatten(clocks, seen[k]);
        }
      }
    }
    forall u | NonNegative(u) && (forall i :: 0 <= i < |clocks| ==> Leq(clocks[i], u)) ensures Leq(merged, u) {
      forall n ensures At(merged, n) <= At(u, n) {
        NonNegativeAt(u, n);
        if n in m {
          var k :| 0 <= k < |seen| && seen[k].node == n && seen[k].ts == m[n];
          var i, j := MemberOfFlatten(clocks, seen[k]);
          UniqueAt(clocks[i], j);
          assert At(clocks[i], n) <= At(u, n);
        }
      }
    }
  }

  lemma {:induction false} FlattenMember(clocks: seq<Clock>, i: nat)
    requires i < |clocks|
    ensures forall e :: e in clocks[i] ==> e in Flatten(clocks)
  {
    if i < |clocks| - 1 { FlattenMember(clocks[..|clocks| - 1], i); }
  }

  lemma {:induction false} MemberOfFlatten(clocks: seq<Clock>, e: Entry) returns (i: nat, j: nat)
    requires e in Flatten(clocks)
    ensures i < |clocks| && j < |clocks[i]| && clocks[i][j] == e
  {
    var last := clocks[|clocks| - 1];
    if e in last {
      i := |clocks| - 1;
      j :| j < |last| && last[j] == e;
    } else {
      i, j := MemberOfFlatten(clocks[..|clocks| - 1], e);
    }
  }

  // ---------- the storage node's comparison ----------

  /** Compare of the storage node: 1 for a newer, -1 for b newer, 0 otherwise. A component of
      `a` that `b` lacks counts as newer whatever its value. */
  method StorageCompare(a: Clock, b: Clock) returns (r: int)
    ensures r == Sign(StorageGreater(MapOf(a), MapOf(b)), StorageSmaller(MapOf(a), MapOf(b)))
  {
    var aMap := ToMap(a);
    var bMap := ToMap(b);
    var aGreater, bGreater := ScanLeft(aMap, bMap);
    var more := ScanRight(aMap, bMap);
    bGreater := bGreater || more;
    if aGreater && !bGreater {
      return 1;
    } else if !aGreater && bGreater {
      return -1;
    }
    return 0;
  }

  /** The loop of Compare over the components of `a`. */
  method ScanLeft(a: map<Str, int>, b: map<Str, int>) returns (aGreater: bool, bGreater: bool)
    ensures aGreater <==> StorageGreater(a, b)
    ensures bGreater <==> exists n :: n in a && n in b && a[n] < b[n]
  {
    aGreater, bGreater := false, false;
    var rest := a.Keys;
    while rest != {}
      invariant rest <= a.Keys
      invariant aGreater <==> exists n :: n in a && n !in rest && (n !in b || a[n] > b[n])
      invariant bGreater <==> exists n :: n in a && n !in rest && n in b && a[n] < b[n]
      decreases |rest|
    {
      var node :| node in rest;
      if node !in b || a[node] > b[node] {
        aGreater := true;
      } else if a[node] < b[node] {
        bGreater := true;
      }
      rest := rest - {node};
    }
  }

  /** The loop of Compare over the components only `b` has. */
  method ScanRight(a: map<Str, int>, b: map<Str, int>) returns (bGreater: bool)
    ensures bGreater <==> exists n :: n in b && n !in a && b[n] > 0
  {
    bGreater := false;
    var rest := b.Keys;
    while rest != {}
      invariant rest <= b.Keys
      invariant bGreater <==> exists n :: n in b && n !in rest && n !in a && b[n] > 0
      decreases |rest|
    {
      var node :| node in rest;
      if node !in a && b[node] > 0 {
        bGreater := true;
      }
      rest := rest - {node};
    }
  }

  ghost predicate StorageGreater(a: map<Str, int>, b: map<Str, int>) {
    exists n :: n in a && (n !in b || a[n] > b[n])
  }

  ghost predicate StorageSmaller(a: map<Str, int>, b: map<Str, int>) {
    || (exists n :: n in a && n in b && a[n] < b[n])
    || (exists n :: n in b && n !in a && b[n] > 0)
  }

  ghost function Sign(greater: bool, smaller: bool): (r: int) {
    if greater && !smaller then 1 else if smaller && !greater then -1 else 0
  }

  /** What a three-way answer should be: 1 for After, -1 for Before. */
  ghost function SignOf(o: Order): (r: int) {
    match o case After => 1 case Before => -1 case _ => 0
  }

  /** On non-negative clocks the storage node's answer is the causal order unless `a` holds an
      explicit zero that `b` lacks; then it is right exactly when `a` was not at or before `b`. */
  lemma StorageCompareAgreesIff(a: Clock, b: Clock)
    requires NonNegative(a) && NonNegative(b)
    ensures Sign(StorageGreater(MapOf(a), MapOf(b)), StorageSmaller(MapOf(a), MapOf(b))) == SignOf(Relate(a, b))
            <==> !Leq(a, b) || forall n :: n in MapOf(a) && n !in MapOf(b) ==> At(a, n) != 0
  {
    var ma, mb := MapOf(a), MapOf(b);
    AgreeOnKeys(a, b);
    AgreeOnKeys(b, a);
    forall n ensures At(a, n) >= 0 && At(b, n) >= 0 { NonNegativeAt(a, n); NonNegativeAt(b, n); }
    assert forall n :: n in ma ==> ma[n] == At(a, n);
    assert forall n :: n in mb ==> mb[n] == At(b, n);
    assert StorageSmaller(ma, mb) <==> !Leq(b, a);
    if forall n :: n in ma && n !in mb ==> At(a, n) != 0 {
      assert StorageGreater(ma, mb) <==> !Leq(a, b);
    } else {
      var n :| n in ma && n !in mb && At(a, n) == 0;
      assert StorageGreater(ma, mb);
    }
  }

  /** An input on which the storage node's answer differs from the causal order. */
  lemma StorageCompareCanBeWrong()
    ensures var a, b: Clock := [Entry([1], 0)], [Entry([2], 5)];
            && Relate(a, b) == Before
            && Sign(StorageGreater(MapOf(a), MapOf(b)), StorageSmaller(MapOf(a), MapOf(b))) == 0
  {
    var a: Clock, b: Clock := [Entry([1], 0)], [Entry([2], 5)];
    assert MapOf(a) == map[[1] := 0] by { assert a[..0] == []; }
    assert MapOf(b) == map[[2] := 5] by { assert b[..0] == []; }
    assert At(b, [2]) > At(a, [2]);
    assert [1] in MapOf(a) && [1] !in MapOf(b) && [2] in MapOf(b) && [2] !in MapOf(a);
  }
}
