/** MergeRanges: joining overlapping and adjacent hash ranges. */
module RangeMerging {
  import opened HashRing
  import opened KeyRanges

  ghost predicate SortedByStart(rs: seq<KeyRange>) {
    forall i, j :: 0 <= i < j < |rs| ==> rs[i].start <= rs[j].start
  }

  ghost predicate NonWrapping(rs: seq<KeyRange>) {
    forall i :: 0 <= i < |rs| ==> rs[i].start <= rs[i].end
  }

  ghost predicate Covered(rs: seq<KeyRange>, h: Hash) {
    exists i :: 0 <= i < |rs| && KeyInRange(h, rs[i])
  }

  /** Strictly separated: a gap between any two ranges, in order. */
  ghost predicate Separated(rs: seq<KeyRange>) {
    forall i, j :: 0 <= i < j < |rs| ==> rs[i].end < rs[j].start
  }

  method Swap(a: array<KeyRange>, i: nat, j: nat)
    requires i < j < a.Length
    modifies a
    ensures a[i] == old(a[j]) && a[j] == old(a[i])
    ensures forall k :: 0 <= k < a.Length && k != i && k != j ==> a[k] == old(a[k])
    ensures multiset(a[..]) == multiset(old(a[..]))
  {
    a[i], a[j] := a[j], a[i];
  }

  /** The exchange sort of MergeRanges, in place. */
  method ExchangeSort(a: array<KeyRange>)
    modifies a
    ensures SortedByStart(a[..]) && multiset(a[..]) == multiset(old(a[..]))
  {
    for i := 0 to a.Length
      invariant forall p, q :: 0 <= p < i && p < q < a.Length ==> a[p].start <= a[q].start
      invariant multiset(a[..]) == multiset(old(a[..]))
    {
      for j := i + 1 to a.Length
        invariant forall p, q :: 0 <= p < i && p < q < a.Length ==> a[p].start <= a[q].start
        invariant forall q :: i < q < j ==> a[i].start <= a[q].start
        invariant multiset(a[..]) == multiset(old(a[..]))
      {
        if a[j].start < a[i].start {
          Swap(a, i, j);
        }
      }
    }
  }

  /** How one more range, in start order, changes the merged list. */
  function Absorb(merged: seq<KeyRange>, c: KeyRange): (r: seq<KeyRange>)
    requires merged != []
  {
    var last := merged[|merged| - 1];
    if c.start <= last.end then
      if c.end > last.end then merged[|merged| - 1 := KeyRange(last.start, c.end)] else merged
    else merged + [c]
  }

  function MergeSorted(rs: seq<KeyRange>): (r: seq<KeyRange>)
    ensures rs != [] ==> r != []
  {
    if rs == [] then [] else if |rs| == 1 then rs else Absorb(MergeSorted(rs[..|rs| - 1]), rs[|rs| - 1])
  }

  /** MergeRanges. The exchange sort is not stable, so which order equal starts end up in is open. */
  method MergeRanges(ranges: seq<KeyRange>) returns (merged: seq<KeyRange>, ghost sorted: seq<KeyRange>)
    ensures SortedByStart(sorted) && multiset(sorted) == multiset(ranges) && merged == MergeSorted(sorted)
    ensures forall h :: Covered(merged, h) <==> KeptAt(sorted, h)
    ensures (forall h :: Covered(merged, h) <==> Covered(ranges, h)) <==>
        forall k :: 0 <= k < |sorted| && Swallowed(sorted, k) ==> Bridged(sorted, sorted[k])
    ensures NonWrapping(ranges) ==>
        NonWrapping(merged) && Separated(merged) && forall h :: Covered(merged, h) <==> Covered(ranges, h)
  {
    hide MergeSorted, KeyInRange, Swallowed, Bridged;
    if |ranges| == 0 {
      MergeNothing();
      return ranges, ranges;
    }
    var a := new KeyRange[|ranges|](i requires 0 <= i < |ranges| => ranges[i]);
    assert a[..] == ranges;
    ExchangeSort(a);
    sorted := a[..];
    assert |sorted| == |multiset(sorted)| == |multiset(ranges)| == |ranges|;
    merged := MergeLoop(a);
    SameCover(ranges, sorted);
    MergeCoversExactly(sorted);
    UnionKeptIff(sorted);
    if NonWrapping(ranges) {
      MergeIsRight(sorted);
    }
  }

  /** The merging loop of MergeRanges. */
  method MergeLoop(a: array<KeyRange>) returns (merged: seq<KeyRange>)
    requires a.Length > 0
    ensures merged == MergeSorted(a[..])
  {
    merged := [a[0]];
    assert a[..1] == [a[0]];
    for i := 1 to a.Length
      invariant merged != [] && merged == MergeSorted(a[..i])
    {
      assert a[..i + 1][..i] == a[..i];
      var current := a[i];
      var last := merged[|merged| - 1];
      if current.start <= last.end {
        if current.end > last.end {
          merged := merged[|merged| - 1 := KeyRange(last.start, current.end)];
        }
      } else {
        merged := merged + [current];
      }
    }
    assert a[..a.Length] == a[..];
  }

  lemma MergeNothing()
    ensures MergeSorted([]) == []
  {
  }

  lemma SameCover(ranges: seq<KeyRange>, sorted: seq<KeyRange>)
    requires multiset(sorted) == multiset(ranges)
    ensures NonWrapping(ranges) ==> NonWrapping(sorted)
    ensures forall h :: Covered(sorted, h) <==> Covered(ranges, h)
  {
    forall i | 0 <= i < |sorted| ensures sorted[i] in ranges { assert sorted[i] in multiset(ranges); }
    forall i | 0 <= i < |ranges| ensures ranges[i] in sorted { assert ranges[i] in multiset(sorted); }
    forall h ensures Covered(sorted, h) <==> Covered(ranges, h) {
      if Covered(sorted, h) {
        var i :| 0 <= i < |sorted| && KeyInRange(h, sorted[i]);
        var j :| 0 <= j < |ranges| && ranges[j] == sorted[i];
      }
      if Covered(ranges, h) {
        var i :| 0 <= i < |ranges| && KeyInRange(h, ranges[i]);
        var j :| 0 <= j < |sorted| && sorted[j] == ranges[i];
      }
    }
  }

  /** On non-wrapping ranges in start order the merge keeps the union and separates the parts. */
  lemma {:induction false} MergeIsRight(rs: seq<KeyRange>)
    requires SortedByStart(rs) && NonWrapping(rs)
    ensures var m := MergeSorted(rs);
            && NonWrapping(m) && Separated(m)
            && (rs != [] ==> m[|m| - 1].start <= rs[|rs| - 1].start)
            && forall h :: Covered(m, h) <==> Covered(rs, h)
  {
    if |rs| > 1 {
      var init, c := rs[..|rs| - 1], rs[|rs| - 1];
      MergeIsRight(init);
      var m := MergeSorted(init);
      assert rs == init + [c] && m[|m| - 1].start <= c.start;
      AbsorbShape(m, c);
      hide KeyInRange, Covered, Absorb, Separated;
      forall h ensures Covered(MergeSorted(rs), h) <==> Covered(rs, h) {
        CoverAppend(init, c, h);
        AbsorbCover(m, c, h);
      }
    }
  }

  lemma AbsorbShape(m: seq<KeyRange>, c: KeyRange)
    requires m != [] && NonWrapping(m) && Separated(m) && c.start <= c.end && m[|m| - 1].start <= c.start
    ensures var m' := Absorb(m, c);
            NonWrapping(m') && Separated(m') && m' != [] && m'[|m'| - 1].start <= c.start
  {
    var m', last := Absorb(m, c), m[|m| - 1];
    forall i, j | 0 <= i < j < |m'| ensures m'[i].end < m'[j].start {
      if j < |m| { assert m'[i] == m[i] && m'[j].start == m[j].start; }
      else { assert m'[i] == m[i] && (i == |m| - 1 || m[i].end < last.start); }
    }
  }

  lemma CoverAppend(rs: seq<KeyRange>, c: KeyRange, h: Hash)
    ensures Covered(rs + [c], h) <==> Covered(rs, h) || KeyInRange(h, c)
  {
    if Covered(rs, h) { var i :| 0 <= i < |rs| && KeyInRange(h, rs[i]); assert (rs + [c])[i] == rs[i]; }
    assert (rs + [c])[|rs|] == c;
  }

  lemma AbsorbCover(m: seq<KeyRange>, c: KeyRange, h: Hash)
    requires m != [] && m[|m| - 1].start <= m[|m| - 1].end && c.start <= c.end && m[|m| - 1].start <= c.start
    ensures Covered(Absorb(m, c), h) <==> Covered(m, h) || KeyInRange(h, c)
  {
    var init, last := m[..|m| - 1], m[|m| - 1];
    assert m == init + [last];
    CoverAppend(init, last, h);
    if c.start <= last.end {
      var joined := KeyRange(last.start, if c.end > last.end then c.end else last.end);
      assert Absorb(m, c) == init + [joined];
      CoverAppend(init, joined, h);
    } else {
      CoverAppend(m, c, h);
    }
  }

  // ---------- wrapping ranges ----------

  ghost predicate Wraps(r: KeyRange) { r.start > r.end }

  /** A wrapping range that starts within reach of an earlier range that does not wrap. */
  ghost predicate Swallowed(rs: seq<KeyRange>, k: nat)
    requires k < |rs|
  {
    Wraps(rs[k]) && exists i :: 0 <= i < k && !Wraps(rs[i]) && rs[i].end >= rs[k].start
  }

  ghost predicate KeptAt(rs: seq<KeyRange>, h: Hash) {
    exists i :: 0 <= i < |rs| && !Swallowed(rs, i) && KeyInRange(h, rs[i])
  }

  /** What the last merged range knows of the ranges merged so far. */
  ghost predicate Tops(last: KeyRange, rs: seq<KeyRange>) {
    if Wraps(last) then forall i :: 0 <= i < |rs| && !Wraps(rs[i]) ==> rs[i].end < last.start
    else
      && (forall i :: 0 <= i < |rs| && !Wraps(rs[i]) ==> rs[i].end <= last.end)
      && exists i :: 0 <= i < |rs| && !Wraps(rs[i]) && rs[i].end == last.end
  }

  /** Whatever wraps: the merge covers exactly the ranges that are not swallowed. */
  lemma {:induction false} MergeCoversExactly(rs: seq<KeyRange>)
    requires SortedByStart(rs)
    ensures forall h :: Covered(MergeSorted(rs), h) <==> KeptAt(rs, h)
    ensures rs != [] ==> var m := MergeSorted(rs); m[|m| - 1].start <= rs[|rs| - 1].start && Tops(m[|m| - 1], rs)
  {
    if |rs| == 1 {
      assert !Swallowed(rs, 0);
      assert Tops(rs[0], rs);
    } else if |rs| > 1 {
      var init, c := rs[..|rs| - 1], rs[|rs| - 1];
      MergeCoversExactly(init);
      var m := MergeSorted(init);
      assert rs == init + [c] && m[|m| - 1].start <= c.start;
      AbsorbTops(m, init, c);
      hide KeyInRange, Covered, Absorb, Swallowed, KeptAt, Tops;
      forall h ensures Covered(MergeSorted(rs), h) <==> KeptAt(rs, h) {
        AbsorbKept(m, init, c, h);
        KeptAppend(init, c, h);
      }
    }
  }

  lemma AbsorbTops(m: seq<KeyRange>, rs: seq<KeyRange>, c: KeyRange)
    requires m != [] && m[|m| - 1].start <= c.start && Tops(m[|m| - 1], rs)
    ensures var m' := Absorb(m, c); m' != [] && m'[|m'| - 1].start <= c.start && Tops(m'[|m'| - 1], rs + [c])
  {
    var m', last, rs' := Absorb(m, c), m[|m| - 1], rs + [c];
    assert rs'[|rs|] == c && forall i :: 0 <= i < |rs| ==> rs'[i] == rs[i];
    if !Wraps(last) {
      var i :| 0 <= i < |rs| && !Wraps(rs[i]) && rs[i].end == last.end;
      assert rs'[i].end == last.end;
    }
  }

  lemma AbsorbKept(m: seq<KeyRange>, rs: seq<KeyRange>, c: KeyRange, h: Hash)
    requires m != [] && m[|m| - 1].start <= c.start && Tops(m[|m| - 1], rs)
    ensures Covered(Absorb(m, c), h) <==> Covered(m, h) || (!Swallowed(rs + [c], |rs|) && KeyInRange(h, c))
  {
    var last, rs' := m[|m| - 1], rs + [c];
    assert forall i :: 0 <= i < |rs| ==> rs'[i] == rs[i];
    if c.start > last.end {
      CoverAppend(m, c, h);
      assert !Swallowed(rs', |rs|);
    } else if Wraps(c) {
      var i :| 0 <= i < |rs| && !Wraps(rs[i]) && rs[i].end == last.end;
      assert rs'[i].end >= c.start && !Wraps(rs'[i]);
    } else {
      AbsorbCover(m, c, h);
    }
  }

  lemma KeptAppend(rs: seq<KeyRange>, c: KeyRange, h: Hash)
    ensures KeptAt(rs + [c], h) <==> KeptAt(rs, h) || (!Swallowed(rs + [c], |rs|) && KeyInRange(h, c))
  {
    hide KeyInRange;
    var rs' := rs + [c];
    forall i | 0 <= i < |rs| ensures rs'[i] == rs[i] && (Swallowed(rs', i) <==> Swallowed(rs, i)) {
      assert forall j :: 0 <= j <= i ==> rs'[j] == rs[j];
    }
    assert rs'[|rs|] == c;
    if KeptAt(rs, h) {
      var i :| 0 <= i < |rs| && !Swallowed(rs, i) && KeyInRange(h, rs[i]);
      assert !Swallowed(rs', i) && KeyInRange(h, rs'[i]);
    }
  }

  /** Merging keeps the union exactly if every swallowed range starts in a kept one and no kept range
      ends inside it where no other kept range goes on. */
  lemma UnionKeptIff(rs: seq<KeyRange>)
    requires SortedByStart(rs)
    ensures (forall h :: Covered(MergeSorted(rs), h) <==> Covered(rs, h)) <==>
        forall k :: 0 <= k < |rs| && Swallowed(rs, k) ==> Bridged(rs, rs[k])
  {
    hide KeyInRange, Swallowed, Covered, KeptAt, Bridged, MergeSorted;
    MergeCoversExactly(rs);
    forall h | KeptAt(rs, h) ensures Covered(rs, h) { KeptIsCovered(rs, h); }
    if forall h :: Covered(rs, h) ==> KeptAt(rs, h) {
      forall k | 0 <= k < |rs| && Swallowed(rs, k) ensures Bridged(rs, rs[k]) { KeptIsBridged(rs, k); }
    }
    if forall k :: 0 <= k < |rs| && Swallowed(rs, k) ==> Bridged(rs, rs[k]) {
      forall h | Covered(rs, h) ensures KeptAt(rs, h) { CoveredIsKept(rs, h); }
    }
  }

  lemma KeptIsCovered(rs: seq<KeyRange>, h: Hash)
    requires KeptAt(rs, h)
    ensures Covered(rs, h)
  {
  }

  lemma KeptIsBridged(rs: seq<KeyRange>, k: nat)
    requires k < |rs| && Swallowed(rs, k) && forall h :: Covered(rs, h) ==> KeptAt(rs, h)
    ensures Bridged(rs, rs[k])
  {
    hide KeptAt;
    assert KeyInRange(rs[k].start, rs[k]);
    hide KeyInRange, Swallowed;
    assert Covered(rs, rs[k].start);
    forall i | 0 <= i < |rs| && KeyInRange(rs[i].end, rs[k])
      ensures KeptAt(rs, rs[i].end)
    {
      assert Covered(rs, rs[i].end);
    }
  }

  lemma CoveredIsKept(rs: seq<KeyRange>, h: Hash)
    requires Covered(rs, h) && forall k :: 0 <= k < |rs| && Swallowed(rs, k) ==> Bridged(rs, rs[k])
    ensures KeptAt(rs, h)
  {
    hide Bridged, KeyInRange;
    var k :| 0 <= k < |rs| && KeyInRange(h, rs[k]);
    if Swallowed(rs, k) { KeptInside(rs, k, h); }
  }

  ghost predicate Bridged(rs: seq<KeyRange>, r: KeyRange) {
    KeptAt(rs, r.start) &&
    forall i :: 0 <= i < |rs| && !Swallowed(rs, i) && KeyInRange(rs[i].end, r) ==> KeptAt(rs, rs[i].end)
  }

  /** Walking a bridged range clockwise from its start never leaves the kept ranges. */
  lemma {:induction false} KeptInside(rs: seq<KeyRange>, k: nat, h: Hash)
    requires k < |rs| && Wraps(rs[k]) && Bridged(rs, rs[k]) && KeyInRange(h, rs[k])
    ensures KeptAt(rs, h)
    decreases if h >= rs[k].start then h - rs[k].start else h + TOP
  {
    var r := rs[k];
    if h != r.start {
      var prev: Hash := if h == 0 then TOP else h - 1;
      assert KeyInRange(prev, r);
      KeptInside(rs, k, prev);
      var i :| 0 <= i < |rs| && !Swallowed(rs, i) && KeyInRange(prev, rs[i]);
      assert KeyInRange(h, rs[i]) || rs[i].end == h;
    }
  }

  /** The largest hash, in every wrapping range and in no other. */
  const TOP: Hash := 0xFFFF_FFFF_FFFF_FFFF

  /** With one wrapping range the union is kept exactly if no earlier range reaches its start. */
  lemma OneWrappingRangeIff(rs: seq<KeyRange>, k: nat)
    requires SortedByStart(rs) && k < |rs| && Wraps(rs[k]) && forall i :: 0 <= i < |rs| && i != k ==> !Wraps(rs[i])
    ensures (forall h :: Covered(MergeSorted(rs), h) <==> Covered(rs, h)) <==>
        forall i :: 0 <= i < k ==> rs[i].end < rs[k].start
  {
    MergeCoversExactly(rs);
    assert KeyInRange(TOP, rs[k]);
    if i :| 0 <= i < k && rs[i].end >= rs[k].start {
      assert Swallowed(rs, k);
      assert !KeptAt(rs, TOP) && Covered(rs, TOP);
    } else {
      assert forall i :: 0 <= i < |rs| ==> !Swallowed(rs, i);
    }
  }

  /** On the arcs a ring gives, that is exactly if the arc that ends at the last point is not among
      them: the arc that wraps starts there. */
  lemma RingArcsIff(p: seq<Hash>, rs: seq<KeyRange>, at: seq<nat>, k: nat)
    requires StrictlyIncreasing(p) && |p| > 1 && SortedByStart(rs) && |at| == |rs|
    requires forall i :: 0 <= i < |rs| ==> at[i] < |p| && rs[i] == Arc(p, at[i])
    requires k < |rs| && at[k] == 0 && forall i :: 0 <= i < |rs| && i != k ==> at[i] != 0
    ensures (forall h :: Covered(MergeSorted(rs), h) <==> Covered(rs, h)) <==> |p| - 1 !in at
  {
    hide MergeSorted, Covered;
    var n := |p|;
    assert rs[k] == KeyRange(p[n - 1], p[0]);
    forall i | 0 <= i < |rs| && i != k ensures !Wraps(rs[i]) && i < k && (rs[i].end < rs[k].start <==> at[i] != n - 1) {
      assert rs[i] == KeyRange(p[at[i] - 1], p[at[i]]);
    }
    OneWrappingRangeIff(rs, k);
    if n - 1 in at {
      var i :| 0 <= i < |at| && at[i] == n - 1;
      assert i < k && rs[i].end >= rs[k].start;
    }
  }

  /** Two neighbouring arcs of a ring with points 10, 20 and 30: hash 5 is lost. */
  lemma WrappingRangeCanBeLost()
    ensures var p: seq<Hash> := [10, 20, 30];
            var rs := [Arc(p, 2), Arc(p, 0)];
            SortedByStart(rs) && Covered(rs, 5) && !Covered(MergeSorted(rs), 5)
  {
    var p: seq<Hash> := [10, 20, 30];
    var rs := [Arc(p, 2), Arc(p, 0)];
    assert rs == [KeyRange(20, 30), KeyRange(30, 10)];
    assert rs[..1] == [KeyRange(20, 30)];
    assert KeyInRange(5, rs[1]);
    assert MergeSorted(rs) == [KeyRange(20, 30)];
  }
}
