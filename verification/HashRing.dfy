/** The consistent-hash ring: virtual nodes on a circle of 64-bit hashes. */
module HashRing {
  import opened GoStrings

  type Hash = h: int | 0 <= h < 0x1_0000_0000_0000_0000

  // ---------- virtual node names ----------

  const VNODE: Str := [45, 118, 110, 111, 100, 101, 45]    // "-vnode-"

  /** Decimal rendering, as %d does for a non-negative number. */
  function Decimal(n: nat): (s: Str)
    ensures forall i :: 0 <= i < |s| ==> 48 <= s[i] <= 57
  {
    if n < 10 then [48 + n] else Decimal(n / 10) + [48 + n % 10]
  }

  function VNodeId(node: Str, i: nat): (id: Str) { node + VNODE + Decimal(i) }

  /** The text before the last "-vnode-" that starts at or before `idx`; all of it if none does. */
  function NodeBefore(id: Str, idx: int): (node: Str)
    requires idx + |VNODE| <= |id|
    decreases idx + 1
  {
    if idx < 0 then id
    else if id[idx..idx + |VNODE|] == VNODE then id[..idx]
    else NodeBefore(id, idx - 1)
  }

  function NodeOf(id: Str): (node: Str) { NodeBefore(id, |id| - |VNODE|) }

  /** extractNodeID: scan back from the end for the last "-vnode-". */
  method ExtractNodeID(vnodeID: Str) returns (node: Str)
    ensures node == NodeOf(vnodeID)
  {
    var idx := |vnodeID| - |VNODE|;
    while idx >= 0
      invariant idx + |VNODE| <= |vnodeID|
      invariant NodeOf(vnodeID) == NodeBefore(vnodeID, idx)
      decreases idx + 1
    {
      if vnodeID[idx..idx + |VNODE|] == VNODE {
        return vnodeID[..idx];
      }
      idx := idx - 1;
    }
    return vnodeID;
  }

  /** "-vnode-" stands at position `i`. */
  ghost predicate MarkerAt(id: Str, i: int) {
    0 <= i && i + 7 <= |id| && id[i..i + 7] == [45, 118, 110, 111, 100, 101, 45]
  }

  /** The text before the last "-vnode-" is taken, and all of it if there is none. */
  lemma NodeOfIsBeforeLast(id: Str, idx: int)
    requires -1 <= idx && (idx >= 0 ==> MarkerAt(id, idx)) && forall i :: idx < i ==> !MarkerAt(id, i)
    ensures NodeOf(id) == if idx >= 0 then id[..idx] else id
  {
    BackTo(id, idx, |id| - 7);
  }

  lemma {:induction false} BackTo(id: Str, idx: int, from: int)
    requires -1 <= idx && from + 7 <= |id| && (idx >= 0 ==> idx <= from && MarkerAt(id, idx))
    requires forall i :: idx < i ==> !MarkerAt(id, i)
    ensures NodeBefore(id, from) == if idx >= 0 then id[..idx] else id
    decreases from + 1
  {
    if from >= 0 && idx < from {
      assert !MarkerAt(id, from);
      BackTo(id, idx, from - 1);
    }
  }

  /** The node ID is recovered from a virtual node's name, even if it contains "-vnode-" itself. */
  lemma NodeOfVNodeId(node: Str, i: nat)
    ensures NodeOf(VNodeId(node, i)) == node
  {
    ScanStopsAtNode(node, i, |VNodeId(node, i)| - |VNODE|);
  }

  lemma {:induction false} ScanStopsAtNode(node: Str, i: nat, idx: nat)
    requires |node| <= idx && idx + |VNODE| <= |VNodeId(node, i)|
    ensures NodeBefore(VNodeId(node, i), idx) == node
    decreases idx
  {
    var id := VNodeId(node, i);
    if idx == |node| {
      assert id[idx..idx + |VNODE|] == VNODE;
      assert id[..idx] == node;
    } else {
      assert id[idx..idx + |VNODE|][6] == id[idx + 6] == Decimal(i)[idx - 1 - |node|];
      assert VNODE[6] == 45;
      ScanStopsAtNode(node, i, idx - 1);
    }
  }

  /** Reading digits from left to right, on top of what was read before. */
  function ReadDigits(before: nat, s: Str): (n: nat)
    requires forall i :: 0 <= i < |s| ==> 48 <= s[i] <= 57
    decreases |s|
  {
    if s == [] then before else ReadDigits(10 * before + (s[0] - 48), s[1..])
  }

  lemma {:induction false} ReadLastDigit(before: nat, s: Str, d: nat)
    requires d < 10 && forall i :: 0 <= i < |s| ==> 48 <= s[i] <= 57
    ensures ReadDigits(before, s + [48 + d]) == 10 * ReadDigits(before, s) + d
    decreases |s|
  {
    var t := s + [48 + d];
    if s == [] {
      assert t[1..] == [];
    } else {
      assert t[1..] == s[1..] + [48 + d];
      ReadLastDigit(10 * before + (s[0] - 48), s[1..], d);
    }
  }

  /** The rendering reads back as the number and has no needless zero in front. */
  lemma {:induction false} DecimalReadsBack(n: nat)
    ensures ReadDigits(0, Decimal(n)) == n
    ensures Decimal(n) != [] && (Decimal(n)[0] == 48 <==> n == 0) && (n == 0 ==> Decimal(n) == [48])
  {
    if n < 10 {
      assert Decimal(n)[1..] == [];
    } else {
      DecimalReadsBack(n / 10);
      ReadLastDigit(0, Decimal(n / 10), n % 10);
    }
  }

  /** A virtual node's name is the node ID, then "-vnode-", then digits that read as the index. */
  lemma VNodeIdReads(node: Str, i: nat)
    ensures var id := VNodeId(node, i); var digits := id[|node| + 7..];
            && |id| > |node| + 7 && id[..|node|] == node && id[|node|..|node| + 7] == [45, 118, 110, 111, 100, 101, 45]
            && (forall j :: 0 <= j < |digits| ==> 48 <= digits[j] <= 57) && ReadDigits(0, digits) == i
  {
    DecimalReadsBack(i);
    var id := VNodeId(node, i);
    assert id[|node| + 7..] == Decimal(i);
  }

  /** Different virtual nodes have different names. */
  lemma VNodeIdInjective(n: Str, i: nat, m: Str, j: nat)
    requires VNodeId(n, i) == VNodeId(m, j)
    ensures n == m && i == j
  {
    NodeOfVNodeId(n, i);
    NodeOfVNodeId(m, j);
    VNodeIdReads(n, i);
    VNodeIdReads(m, j);
  }

  /** `hash` tells the names apart. */
  ghost predicate Separates(hash: Str -> Hash, names: set<Str>) {
    forall a, b :: a in names && b in names && hash(a) == hash(b) ==> a == b
  }

  /** The names of a node's virtual nodes. */
  ghost function NamesOf(node: Str, count: nat): (names: set<Str>) {
    set i | 0 <= i < count :: VNodeId(node, i)
  }

  // ---------- sorted points ----------

  ghost predicate Sorted(p: seq<Hash>) {
    forall i, j :: 0 <= i < j < |p| ==> p[i] <= p[j]
  }

  ghost predicate StrictlyIncreasing(p: seq<Hash>) {
    forall i, j :: 0 <= i < j < |p| ==> p[i] < p[j]
  }

  /** How many leading points are at most `q`. */
  function Rank(p: seq<Hash>, q: Hash): (k: nat)
    ensures k <= |p|
    ensures forall i :: 0 <= i < k ==> p[i] <= q
    ensures k < |p| ==> p[k] > q
  {
    if p == [] || p[0] > q then 0 else 1 + Rank(p[1..], q)
  }

  function Insert(p: seq<Hash>, q: Hash): (r: seq<Hash>) {
    p[..Rank(p, q)] + [q] + p[Rank(p, q)..]
  }

  function InsertAll(p: seq<Hash>, qs: seq<Hash>): (r: seq<Hash>) {
    if qs == [] then p else Insert(InsertAll(p, qs[..|qs| - 1]), qs[|qs| - 1])
  }

  /** The sorted arrangement of `p`. */
  function Sort(p: seq<Hash>): (r: seq<Hash>) { InsertAll([], p) }

  lemma InsertSorted(p: seq<Hash>, q: Hash)
    requires Sorted(p)
    ensures Sorted(Insert(p, q)) && multiset(Insert(p, q)) == multiset(p) + multiset{q}
  {
    var k := Rank(p, q);
    assert p == p[..k] + p[k..];
    SortedBetween(p, k, q);
  }

  lemma SortedBetween(p: seq<Hash>, k: nat, q: Hash)
    requires Sorted(p) && k <= |p|
    requires forall i :: 0 <= i < k ==> p[i] <= q
    requires k < |p| ==> p[k] > q
    ensures Sorted(p[..k] + [q] + p[k..])
  {
    var r := p[..k] + [q] + p[k..];
    forall i, j | 0 <= i < j < |r| ensures r[i] <= r[j] {
      if k < j { assert r[j] == p[j - 1] && p[k] <= p[j - 1]; }
    }
  }

  lemma InsertStrict(p: seq<Hash>, q: Hash)
    requires StrictlyIncreasing(p) && q !in p
    ensures StrictlyIncreasing(Insert(p, q))
  {
    var k := Rank(p, q);
    StrictBetween(p, k, q);
  }

  lemma StrictBetween(p: seq<Hash>, k: nat, q: Hash)
    requires StrictlyIncreasing(p) && k <= |p| && q !in p
    requires forall i :: 0 <= i < k ==> p[i] <= q
    requires k < |p| ==> p[k] > q
    ensures StrictlyIncreasing(p[..k] + [q] + p[k..])
  {
    var r := p[..k] + [q] + p[k..];
    forall i, j | 0 <= i < j < |r| ensures r[i] < r[j] {
      if j == k { assert r[i] == p[i] && p[i] in p; }
      else if k < j { assert r[j] == p[j - 1] && p[k] <= p[j - 1]; if i < k { assert r[i] == p[i] < p[j - 1]; } }
    }
  }

  lemma {:induction false} InsertAllSorted(p: seq<Hash>, qs: seq<Hash>)
    requires Sorted(p)
    ensures Sorted(InsertAll(p, qs)) && multiset(InsertAll(p, qs)) == multiset(p) + multiset(qs)
    ensures forall x :: x in InsertAll(p, qs) <==> x in p || x in qs
  {
    if qs != [] {
      var init, q := qs[..|qs| - 1], qs[|qs| - 1];
      InsertAllSorted(p, init);
      InsertSorted(InsertAll(p, init), q);
      assert qs == init + [q];
      InsertMembers(InsertAll(p, init), q);
    }
  }

  lemma InsertMembers(p: seq<Hash>, q: Hash)
    ensures forall x :: x in Insert(p, q) <==> x in p || x == q
  {
    var k := Rank(p, q);
    assert p == p[..k] + p[k..];
  }

  lemma {:induction false} InsertAllAppend(p: seq<Hash>, a: seq<Hash>, b: seq<Hash>)
    ensures InsertAll(p, a + b) == InsertAll(InsertAll(p, a), b)
  {
    if b == [] {
      assert a + b == a;
    } else {
      assert (a + b)[..|a + b| - 1] == a + b[..|b| - 1];
      InsertAllAppend(p, a, b[..|b| - 1]);
    }
  }

  lemma {:induction false} SortOfSorted(p: seq<Hash>)
    requires Sorted(p)
    ensures Sort(p) == p
  {
    if p != [] {
      var init := p[..|p| - 1];
      SortOfSorted(init);
      assert p == init + [p[|p| - 1]];
    }
  }

  /** Sorting is determined: any sorted arrangement of the same points is this one. */
  lemma {:induction false} SortedIsUnique(a: seq<Hash>, b: seq<Hash>)
    requires Sorted(a) && Sorted(b) && multiset(a) == multiset(b)
    ensures a == b
  {
    assert |a| == |multiset(a)| == |multiset(b)| == |b|;
    if a != [] {
      assert a[0] == b[0] by { assert a[0] in multiset(b) && b[0] in multiset(a); }
      assert multiset(a[1..]) == multiset(a) - multiset{a[0]} by { assert a == [a[0]] + a[1..]; }
      assert multiset(b[1..]) == multiset(b) - multiset{b[0]} by { assert b == [b[0]] + b[1..]; }
      SortedIsUnique(a[1..], b[1..]);
      assert a == [a[0]] + a[1..] && b == [b[0]] + b[1..];
    }
  }

  // ---------- walking clockwise ----------

  function AtLeast(p: seq<Hash>, h: Hash): (r: seq<Hash>) {
    if p == [] then [] else if p[0] >= h then [p[0]] + AtLeast(p[1..], h) else AtLeast(p[1..], h)
  }

  function Below(p: seq<Hash>, h: Hash): (r: seq<Hash>) {
    if p == [] then [] else if p[0] < h then [p[0]] + Below(p[1..], h) else Below(p[1..], h)
  }

  function Without(p: seq<Hash>, dead: set<Hash>): (r: seq<Hash>) {
    if p == [] then [] else if p[0] in dead then Without(p[1..], dead) else [p[0]] + Without(p[1..], dead)
  }

  /** The points in the order a clockwise walk from `h` meets them. */
  function Clockwise(p: seq<Hash>, h: Hash): (r: seq<Hash>) { AtLeast(p, h) + Below(p, h) }

  lemma {:induction false} HalvesConcat(a: seq<Hash>, b: seq<Hash>, h: Hash)
    ensures AtLeast(a + b, h) == AtLeast(a, h) + AtLeast(b, h)
    ensures Below(a + b, h) == Below(a, h) + Below(b, h)
  {
    if a == [] {
      assert a + b == b;
    } else {
      assert (a + b)[1..] == a[1..] + b;
      HalvesConcat(a[1..], b, h);
    }
  }

  lemma {:induction false} WithoutConcat(a: seq<Hash>, b: seq<Hash>, dead: set<Hash>)
    ensures Without(a + b, dead) == Without(a, dead) + Without(b, dead)
  {
    if a == [] {
      assert a + b == b;
    } else {
      assert (a + b)[1..] == a[1..] + b;
      WithoutConcat(a[1..], b, dead);
    }
  }

  lemma {:induction false} FiltersCommute(p: seq<Hash>, h: Hash, dead: set<Hash>)
    ensures AtLeast(Without(p, dead), h) == Without(AtLeast(p, h), dead)
    ensures Below(Without(p, dead), h) == Without(Below(p, h), dead)
  {
    if p != [] { FiltersCommute(p[1..], h, dead); }
  }

  lemma {:induction false} FilterMembers(p: seq<Hash>, h: Hash, dead: set<Hash>)
    ensures forall x :: x in AtLeast(p, h) <==> x in p && x >= h
    ensures forall x :: x in Below(p, h) <==> x in p && x < h
    ensures forall x :: x in Without(p, dead) <==> x in p && x !in dead
    ensures forall x :: x in Clockwise(p, h) <==> x in p
  {
    if p != [] {
      FilterMembers(p[1..], h, dead);
      assert p == [p[0]] + p[1..];
    }
  }

  /** Removing points and walking commute. */
  lemma ClockwiseWithout(p: seq<Hash>, h: Hash, dead: set<Hash>)
    ensures Clockwise(Without(p, dead), h) == Without(Clockwise(p, h), dead)
  {
    FiltersCommute(p, h, dead);
    WithoutConcat(AtLeast(p, h), Below(p, h), dead);
  }

  lemma {:induction false} WithoutSorted(p: seq<Hash>, dead: set<Hash>)
    requires Sorted(p)
    ensures Sorted(Without(p, dead))
  {
    if p != [] {
      assert forall i :: 0 <= i < |p| - 1 ==> p[1..][i] == p[i + 1];
      WithoutSorted(p[1..], dead);
      var w := Without(p[1..], dead);
      forall j | 0 <= j < |w| ensures p[0] <= w[j] {
        FilterMembers(p[1..], 0, dead);
        assert w[j] in w;
      }
    }
  }

  lemma {:induction false} WithoutStrict(p: seq<Hash>, dead: set<Hash>)
    requires StrictlyIncreasing(p)
    ensures StrictlyIncreasing(Without(p, dead))
  {
    if p != [] {
      assert forall i :: 0 <= i < |p| - 1 ==> p[1..][i] == p[i + 1];
      WithoutStrict(p[1..], dead);
      var w := Without(p[1..], dead);
      forall j | 0 <= j < |w| ensures p[0] < w[j] {
        FilterMembers(p[1..], 0, dead);
        assert w[j] in w;
      }
    }
  }

  /** Removing what was inserted gives back the points. */
  lemma {:induction false} WithoutInserted(p: seq<Hash>, qs: seq<Hash>, dead: set<Hash>)
    requires forall q :: q in qs ==> q in dead
    ensures Without(InsertAll(p, qs), dead) == Without(p, dead)
  {
    if qs != [] {
      var init, q := qs[..|qs| - 1], qs[|qs| - 1];
      WithoutInserted(p, init, dead);
      var m := InsertAll(p, init);
      var k := Rank(m, q);
      assert m == m[..k] + m[k..];
      WithoutConcat(m[..k], m[k..], dead);
      WithoutConcat(m[..k] + [q], m[k..], dead);
      WithoutConcat(m[..k], [q], dead);
      assert Without([q], dead) == [] by { assert [q][1..] == []; }
    }
  }

  lemma {:induction false} WithoutNothing(p: seq<Hash>, dead: set<Hash>)
    requires forall q :: q in p ==> q !in dead
    ensures Without(p, dead) == p
  {
    if p != [] { WithoutNothing(p[1..], dead); }
  }

  /** On sorted points the walk is the rotation that starts at the first point >= `h`. */
  lemma {:induction false} ClockwiseIsRotation(p: seq<Hash>, h: Hash, k: nat)
    requires k <= |p|
    requires forall i :: 0 <= i < k ==> p[i] < h
    requires forall i :: k <= i < |p| ==> p[i] >= h
    ensures Clockwise(p, h) == p[k..] + p[..k]
  {
    hide AtLeast, Below;
    var a, b := p[..k], p[k..];
    assert forall i :: 0 <= i < |b| ==> b[i] == p[k + i];
    AllBelow(a, h);
    AllAtLeast(b, h);
    HalvesConcat(a, b, h);
    assert p == a + b && [] + b == b && a + [] == a;
  }

  lemma {:induction false} AllBelow(p: seq<Hash>, h: Hash)
    requires forall i :: 0 <= i < |p| ==> p[i] < h
    ensures Below(p, h) == p && AtLeast(p, h) == []
  {
    if p != [] { AllBelow(p[1..], h); }
  }

  lemma {:induction false} AllAtLeast(p: seq<Hash>, h: Hash)
    requires forall i :: 0 <= i < |p| ==> p[i] >= h
    ensures AtLeast(p, h) == p && Below(p, h) == []
  {
    if p != [] { AllAtLeast(p[1..], h); }
  }

  /** sort.Search: the first position whose point is at least `h`. */
  method SearchFirst(p: seq<Hash>, h: Hash) returns (idx: nat)
    requires Sorted(p)
    ensures idx <= |p|
    ensures forall i :: 0 <= i < idx ==> p[i] < h
    ensures forall i :: idx <= i < |p| ==> p[i] >= h
  {
    var lo, hi := 0, |p|;
    while lo < hi
      invariant 0 <= lo <= hi <= |p|
      invariant forall i :: 0 <= i < lo ==> p[i] < h
      invariant forall i :: hi <= i < |p| ==> p[i] >= h
    {
      var mid := (lo + hi) / 2;
      if p[mid] >= h {
        hi := mid;
      } else {
        lo := mid + 1;
      }
    }
    idx := lo;
  }
}
