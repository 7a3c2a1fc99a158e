/** Compaction: the k-way merge of sorted tables and the choice of one version per key. */
module Compaction {
  import opened GoStrings
  import opened VectorClocks
  import opened SSTableFormat

  datatype KeyValue = KeyValue(tenant: Str, key: Str, value: Str, clock: Clock, timestamp: int, tombstone: bool)

  /** An open input table: its keys in the order GetAllKeys lists them, and Get, which may fail. */
  datatype Reader = Reader(keys: seq<Str>, get: Str -> Option<KeyValue>)

  // ---------- the k-way merge ----------

  /** What the merger takes from a reader from key `i` on: it stops for good at the first failing read. */
  ghost function Stream(r: Reader, i: nat): (es: seq<KeyValue>)
    decreases |r.keys| - i
  {
    if i >= |r.keys| || r.get(r.keys[i]).None? then []
    else [r.get(r.keys[i]).value] + Stream(r, i + 1)
  }

  /** A reader contributes all its entries exactly if no read fails. */
  lemma {:induction false} StreamIsCompleteIff(r: Reader, i: nat)
    requires i <= |r.keys|
    ensures |Stream(r, i)| <= |r.keys| - i
    ensures |Stream(r, i)| == |r.keys| - i <==> forall j :: i <= j < |r.keys| ==> r.get(r.keys[j]).Some?
    ensures forall j :: 0 <= j < |Stream(r, i)| ==> r.get(r.keys[i + j]) == Some(Stream(r, i)[j])
    decreases |r.keys| - i
  {
    if i < |r.keys| && r.get(r.keys[i]).Some? { StreamIsCompleteIff(r, i + 1); }
  }

  datatype MergeEntry = MergeEntry(entry: KeyValue, readerIdx: nat)

  /** `h` has a least key on the heap. */
  ghost predicate Least(heap: seq<MergeEntry>, h: MergeEntry) {
    forall i :: 0 <= i < |heap| ==> !Less(heap[i].entry.key, h.entry.key)
  }

  lemma {:induction false} SomeLeast(heap: seq<MergeEntry>) returns (i: nat)
    requires heap != []
    ensures i < |heap| && Least(heap, heap[i])
  {
    hide Less;
    var init, last := heap[..|heap| - 1], heap[|heap| - 1];
    if init == [] {
      LessIrreflexive(last.entry.key);
      i := 0;
    } else {
      i := SomeLeast(init);
      if Less(last.entry.key, heap[i].entry.key) {
        LessAsymmetric(last.entry.key, heap[i].entry.key);
        forall j | 0 <= j < |heap| ensures !Less(heap[j].entry.key, last.entry.key) {
          if j == |init| { LessIrreflexive(last.entry.key); }
          else {
            assert heap[j] == init[j];
            if Less(heap[j].entry.key, last.entry.key) {
              LessTransitive(heap[j].entry.key, last.entry.key, heap[i].entry.key);
            }
          }
        }
        i := |init|;
      } else {
        assert forall j :: 0 <= j < |init| ==> heap[j] == init[j];
      }
    }
  }

  /** The heap holds the head of every reader's pending entries. */
  ghost predicate HeapOk(heap: seq<MergeEntry>, pending: seq<seq<KeyValue>>) {
    && (forall i :: 0 <= i < |heap| ==> heap[i].readerIdx < |pending| && pending[heap[i].readerIdx] != []
                                        && heap[i].entry == pending[heap[i].readerIdx][0])
    && (forall i, j :: 0 <= i < j < |heap| ==> heap[i].readerIdx != heap[j].readerIdx)
    && (forall r :: 0 <= r < |pending| && pending[r] != [] ==> exists i :: 0 <= i < |heap| && heap[i].readerIdx == r)
  }

  /** Taking `e`, a least head, from the pending entries leaves `after`. */
  ghost predicate Takes(pending: seq<seq<KeyValue>>, e: KeyValue, r: nat, after: seq<seq<KeyValue>>) {
    && r < |pending| && pending[r] != [] && e == pending[r][0] && after == pending[r := pending[r][1..]]
    && forall q :: 0 <= q < |pending| && pending[q] != [] ==> !Less(pending[q][0].key, e.key)
  }

  class KWayMerger {
    const readers: seq<Reader>
    var heap: seq<MergeEntry>
    var indices: seq<nat>
    ghost var pending: seq<seq<KeyValue>>    // per reader, the entries still to come

    ghost predicate Valid()
      reads this
    {
      && |readers| == |indices| == |pending| && HeapOk(heap, pending)
      && forall r :: 0 <= r < |readers| ==> pending[r] != [] ==> pending[r][1..] == Stream(readers[r], indices[r])
    }

    /** newKWayMerger: the first entry of every reader goes on the heap. */
    constructor (readers: seq<Reader>)
      ensures Valid() && this.readers == readers && |pending| == |readers|
      ensures forall r :: 0 <= r < |readers| ==> pending[r] == Stream(readers[r], 0)
    {
      this.readers := readers;
      heap, indices := [], seq(|readers|, _ => 0);
      pending := seq(|readers|, _ => []);
      new;
      for i := 0 to |readers|
        invariant Valid()
        invariant forall r :: 0 <= r < i ==> pending[r] == Stream(readers[r], 0)
        invariant forall r :: i <= r < |readers| ==> pending[r] == [] && indices[r] == 0
      {
        Advance(i);
      }
    }

    /** advance: push the reader's next entry, if it can be read. */
    method Advance(r: nat)
      requires Valid() && r < |readers| && pending[r] == []
      modifies this
      ensures Valid()
      ensures pending == old(pending)[r := Stream(readers[r], old(indices[r]))]
      ensures forall q :: 0 <= q < |readers| && q != r ==> indices[q] == old(indices[q])
    {
      if indices[r] >= |readers[r].keys| {
        assert pending[r := []] == pending;
        return;
      }
      var key := readers[r].keys[indices[r]];
      ghost var stream := Stream(readers[r], indices[r]);
      indices := indices[r := indices[r] + 1];
      var entry := readers[r].get(key);
      if entry.None? {
        assert pending[r := []] == pending;
        return;
      }
      PushHead(heap, pending, r, stream);
      heap := heap + [MergeEntry(entry.value, r)];
      pending := pending[r := stream];
    }

    /** next: pop a least entry and advance its reader. */
    method Next() returns (e: Option<KeyValue>, ghost r: nat)
      requires Valid()
      modifies this
      ensures Valid()
      ensures e.None? <==> old(heap) == []
      ensures e.None? ==> pending == old(pending)
      ensures e.Some? ==> Takes(old(pending), e.value, r, pending)
    {
      hide Less, HeapOk;
      r := 0;
      if heap == [] {
        return None, r;
      }
      var top := Pop();
      r := top.readerIdx;
      Advance(top.readerIdx);
      e := Some(top.entry);
      assert pending == old(pending)[r := old(pending)[r][1..]];
    }

    /** heap.Pop: some entry with a least key leaves the heap. */
    method Pop() returns (top: MergeEntry)
      requires Valid() && heap != []
      modifies this
      ensures Valid() && indices == old(indices) && top.readerIdx < |old(pending)|
      ensures pending == old(pending)[top.readerIdx := []]
      ensures old(pending)[top.readerIdx] != [] && top.entry == old(pending)[top.readerIdx][0]
      ensures old(pending)[top.readerIdx][1..] == Stream(readers[top.readerIdx], indices[top.readerIdx])
      ensures forall q :: 0 <= q < |old(pending)| && old(pending)[q] != [] ==>
          !Less(old(pending)[q][0].key, top.entry.key)
    {
      hide Less, Stream;
      ghost var least := SomeLeast(heap);
      var i :| 0 <= i < |heap| && forall j :: 0 <= j < |heap| ==> !Less(heap[j].entry.key, heap[i].entry.key);
      top := heap[i];
      LeastHead(heap, pending, i);
      PopHead(heap, pending, i);
      heap := heap[..i] + heap[i + 1..];
      pending := pending[top.readerIdx := []];
    }
  }

  lemma PushHead(heap: seq<MergeEntry>, pending: seq<seq<KeyValue>>, r: nat, stream: seq<KeyValue>)
    requires HeapOk(heap, pending) && r < |pending| && pending[r] == [] && stream != []
    ensures HeapOk(heap + [MergeEntry(stream[0], r)], pending[r := stream])
  {
    var heap', pending' := heap + [MergeEntry(stream[0], r)], pending[r := stream];
    forall q | 0 <= q < |pending'| && pending'[q] != []
      ensures exists i :: 0 <= i < |heap'| && heap'[i].readerIdx == q
    {
      if q == r {
        assert heap'[|heap|].readerIdx == q;
      } else {
        var i :| 0 <= i < |heap| && heap[i].readerIdx == q;
        assert heap'[i].readerIdx == q;
      }
    }
  }

  lemma PopHead(heap: seq<MergeEntry>, pending: seq<seq<KeyValue>>, i: nat)
    requires HeapOk(heap, pending) && i < |heap|
    ensures HeapOk(heap[..i] + heap[i + 1..], pending[heap[i].readerIdx := []])
  {
    var heap', pending' := heap[..i] + heap[i + 1..], pending[heap[i].readerIdx := []];
    forall j | 0 <= j < |heap'|
      ensures heap'[j] == heap[if j < i then j else j + 1] && heap'[j].readerIdx != heap[i].readerIdx
    { }
    forall j, l | 0 <= j < l < |heap'| ensures heap'[j].readerIdx != heap'[l].readerIdx { }
    forall q | 0 <= q < |pending'| && pending'[q] != []
      ensures exists j :: 0 <= j < |heap'| && heap'[j].readerIdx == q
    {
      assert q != heap[i].readerIdx && pending[q] != [];
      var j :| 0 <= j < |heap| && heap[j].readerIdx == q;
      assert heap'[if j < i then j else j - 1].readerIdx == q;
    }
  }

  lemma LeastHead(heap: seq<MergeEntry>, pending: seq<seq<KeyValue>>, i: nat)
    requires HeapOk(heap, pending) && i < |heap| && Least(heap, heap[i])
    ensures forall q :: 0 <= q < |pending| && pending[q] != [] ==> !Less(pending[q][0].key, heap[i].entry.key)
  {
    hide Less;
    forall q | 0 <= q < |pending| && pending[q] != [] ensures !Less(pending[q][0].key, heap[i].entry.key) {
      var j :| 0 <= j < |heap| && heap[j].readerIdx == q;
    }
  }

  // ---------- what a whole merge emits ----------

  /** Taking `out`, one entry at a time, leads from `start` to `now`. */
  ghost predicate Emits(start: seq<seq<KeyValue>>, out: seq<KeyValue>, now: seq<seq<KeyValue>>)
    decreases |out|
  {
    if out == [] then now == start
    else exists mid, r {:trigger Takes(mid, out[|out| - 1], r, now)} ::
        Emits(start, out[..|out| - 1], mid) && Takes(mid, out[|out| - 1], r, now)
  }

  lemma EmitsOne(start: seq<seq<KeyValue>>, out: seq<KeyValue>, mid: seq<seq<KeyValue>>, e: KeyValue, r: nat,
        now: seq<seq<KeyValue>>)
    requires Emits(start, out, mid) && Takes(mid, e, r, now)
    ensures Emits(start, out + [e], now)
  {
    var out' := out + [e];
    assert out'[..|out'| - 1] == out;
    assert Takes(mid, out'[|out'| - 1], r, now);
  }

  ghost function Union(pending: seq<seq<KeyValue>>): (m: multiset<KeyValue>) {
    if pending == [] then multiset{} else Union(pending[..|pending| - 1]) + multiset(pending[|pending| - 1])
  }

  lemma {:induction false} UnionUpdate(p: seq<seq<KeyValue>>, r: nat, s: seq<KeyValue>)
    requires r < |p|
    ensures Union(p[r := s]) + multiset(p[r]) == Union(p) + multiset(s)
  {
    var init, p' := p[..|p| - 1], p[r := s];
    if r == |p| - 1 {
      assert p'[..|p| - 1] == init;
    } else {
      UnionUpdate(init, r, s);
      assert p'[..|p| - 1] == init[r := s] && p'[|p| - 1] == p[|p| - 1] && init[r] == p[r];
      var last := multiset(p[|p| - 1]);
      assert Union(p') + multiset(p[r]) == Union(init[r := s]) + multiset(p[r]) + last;
      assert Union(p) + multiset(s) == Union(init) + multiset(s) + last;
    }
  }

  lemma Balance(out: multiset<KeyValue>, e: multiset<KeyValue>, mid: multiset<KeyValue>, rest: multiset<KeyValue>,
        now: multiset<KeyValue>, all: multiset<KeyValue>)
    requires out + mid == all && now + (e + rest) == mid + rest
    ensures out + e + now == all
  {
    forall x
      ensures (out + e + now)[x] == all[x]
    {
      assert (now + (e + rest))[x] == (mid + rest)[x] && (out + mid)[x] == all[x];
    }
  }

  /** Every entry is emitted exactly once: what is out and what is pending is what there was. */
  lemma {:induction false} NothingLostOrRepeated(start: seq<seq<KeyValue>>, out: seq<KeyValue>, now: seq<seq<KeyValue>>)
    requires Emits(start, out, now)
    ensures multiset(out) + Union(now) == Union(start)
    decreases |out|
  {
    if out != [] {
      var init, e := out[..|out| - 1], out[|out| - 1];
      var mid, r :| Emits(start, init, mid) && Takes(mid, e, r, now);
      NothingLostOrRepeated(start, init, mid);
      UnionUpdate(mid, r, mid[r][1..]);
      assert mid[r] == [e] + mid[r][1..] && out == init + [e];
      Balance(multiset(init), multiset{e}, Union(mid), multiset(mid[r][1..]), Union(now), Union(start));
    }
  }

  ghost predicate Sorted(es: seq<KeyValue>) {
    forall i, j :: 0 <= i < j < |es| ==> !Less(es[j].key, es[i].key)
  }

  ghost predicate AllSorted(pending: seq<seq<KeyValue>>) {
    forall r :: 0 <= r < |pending| ==> Sorted(pending[r])
  }

  /** Nothing pending has a smaller key than what is out. */
  ghost predicate Ahead(out: seq<KeyValue>, pending: seq<seq<KeyValue>>) {
    forall i, r, j :: 0 <= i < |out| && 0 <= r < |pending| && 0 <= j < |pending[r]| ==>
      !Less(pending[r][j].key, out[i].key)
  }

  lemma LeastOfAll(pending: seq<seq<KeyValue>>, e: KeyValue, r: nat, now: seq<seq<KeyValue>>)
    requires Takes(pending, e, r, now) && AllSorted(pending)
    ensures AllSorted(now) && Ahead([e], pending)
    ensures forall q, j :: 0 <= q < |now| && 0 <= j < |now[q]| ==> now[q][j] in pending[q]
  {
    hide Less;
    forall q, j | 0 <= q < |pending| && 0 <= j < |pending[q]| ensures !Less(pending[q][j].key, e.key) {
      if j > 0 && Less(pending[q][j].key, e.key) { NotLessThenLess(pending[q][0].key, pending[q][j].key, e.key); }
    }
    forall q, j | 0 <= q < |now| && 0 <= j < |now[q]| ensures now[q][j] in pending[q] {
      assert pending[q][if q == r then j + 1 else j] == now[q][j];
    }
    assert now[r] == pending[r][1..];
  }

  /** Sorted inputs give a sorted output. */
  lemma {:induction false} MergeIsSorted(start: seq<seq<KeyValue>>, out: seq<KeyValue>, now: seq<seq<KeyValue>>)
    requires Emits(start, out, now) && AllSorted(start)
    ensures Sorted(out) && AllSorted(now) && Ahead(out, now)
    decreases |out|
  {
    hide Less;
    if out != [] {
      var init, e := out[..|out| - 1], out[|out| - 1];
      var mid, r :| Emits(start, init, mid) && Takes(mid, e, r, now);
      MergeIsSorted(start, init, mid);
      LeastOfAll(mid, e, r, now);
      SortedOne(init, e, mid, r);
      AheadOne(init, e, mid, now);
      assert out == init + [e];
    }
  }

  /** Where a reader's entries came out: in their order, those left over being the last ones. */
  lemma {:induction false} EmittedInOrder(start: seq<seq<KeyValue>>, out: seq<KeyValue>, now: seq<seq<KeyValue>>,
        r: nat)
    returns (at: seq<nat>)
    requires Emits(start, out, now) && r < |start|
    ensures |now| == |start| && |at| + |now[r]| == |start[r]| && now[r] == start[r][|at|..]
    ensures forall i :: 0 <= i < |at| ==> at[i] < |out| && out[at[i]] == start[r][i]
    ensures forall i, j :: 0 <= i < j < |at| ==> at[i] < at[j]
    decreases |out|
  {
    if out == [] {
      at := [];
    } else {
      var init, e := out[..|out| - 1], out[|out| - 1];
      var mid, q :| Emits(start, init, mid) && Takes(mid, e, q, now);
      at := EmittedInOrder(start, init, mid, r);
      if q == r {
        assert mid[r][0] == start[r][|at|];
        at := at + [|init|];
      }
    }
  }

  /** A finished merge is sorted exactly if the entries of every input are. The readers list their keys
      in the order of a hash map, so nothing in the program makes sure of that. */
  lemma MergeIsSortedIff(start: seq<seq<KeyValue>>, out: seq<KeyValue>, end: seq<seq<KeyValue>>)
    requires Emits(start, out, end) && forall r :: 0 <= r < |end| ==> end[r] == []
    ensures Sorted(out) <==> AllSorted(start)
  {
    hide Less, Emits;
    if AllSorted(start) { MergeIsSorted(start, out, end); }
    if Sorted(out) {
      forall r | 0 <= r < |start| ensures Sorted(start[r]) {
        var at := EmittedInOrder(start, out, end, r);
        assert |at| == |start[r]|;
      }
    }
  }

  // ---------- key lists and the entries read from them ----------

  /** An entry read under a listed key is that of the tenant and key the composite key is made of. */
  ghost predicate Answers(r: Reader) {
    forall i :: 0 <= i < |r.keys| && r.get(r.keys[i]).Some? ==>
      r.keys[i] == BuildKey(r.get(r.keys[i]).value.tenant, r.get(r.keys[i]).value.key)
  }

  /** Where the tenant changes, the key without its tenant does not fall. */
  ghost predicate NoFallBetweenTenants(es: seq<KeyValue>) {
    forall i :: 0 < i < |es| && es[i - 1].tenant != es[i].tenant ==> !Less(es[i].key, es[i - 1].key)
  }

  ghost predicate SortedList(keys: seq<Str>) {
    forall i, j :: 0 <= i < j < |keys| ==> !Less(keys[j], keys[i])
  }

  lemma {:induction false} AdjacentIsEnough(es: seq<KeyValue>)
    requires forall i :: 0 < i < |es| ==> !Less(es[i].key, es[i - 1].key)
    ensures Sorted(es)
  {
    hide Less;
    if es != [] {
      var init, e := es[..|es| - 1], es[|es| - 1];
      AdjacentIsEnough(init);
      forall i | 0 <= i < |init| ensures !Less(e.key, es[i].key) {
        if i < |init| - 1 && Less(e.key, es[i].key) {
          var last := es[|es| - 2].key;
          assert !Less(init[|init| - 1].key, init[i].key);
          NotLessThenLess(last, e.key, es[i].key);
        }
      }
    }
  }

  lemma SameTenantOrder(r: Reader, i: nat, j: nat)
    requires Answers(r) && i < |Stream(r, 0)| && j < |Stream(r, 0)| && Stream(r, 0)[i].tenant == Stream(r, 0)[j].tenant
    ensures i < |r.keys| && j < |r.keys|
    ensures Less(r.keys[j], r.keys[i]) <==> Less(Stream(r, 0)[j].key, Stream(r, 0)[i].key)
  {
    hide Less, Stream;
    StreamIsCompleteIff(r, 0);
    var es := Stream(r, 0);
    assert r.get(r.keys[0 + i]) == Some(es[i]) && r.get(r.keys[0 + j]) == Some(es[j]);
    LessBehindPrefix(es[i].tenant + [COLON], es[j].key, es[i].key);
  }

  /** A key list in the order of composite keys gives entries in the order the heap compares them by,
      that of the keys without tenants, exactly if the key falls nowhere the tenant changes. */
  lemma SortedListIsEnoughIff(r: Reader)
    requires Answers(r) && SortedList(r.keys)
    ensures Sorted(Stream(r, 0)) <==> NoFallBetweenTenants(Stream(r, 0))
  {
    hide Less, Stream, Answers;
    var es := Stream(r, 0);
    if NoFallBetweenTenants(es) {
      forall i | 0 < i < |es| ensures !Less(es[i].key, es[i - 1].key) {
        if es[i - 1].tenant == es[i].tenant { SameTenantOrder(r, i - 1, i); }
      }
      AdjacentIsEnough(es);
    }
  }

  /** For the entries of one tenant, all readable, the two orders are the same. */
  lemma OneTenantSortedIff(r: Reader, tenant: Str)
    requires Answers(r)
    requires forall i :: 0 <= i < |r.keys| ==> r.get(r.keys[i]).Some? && r.get(r.keys[i]).value.tenant == tenant
    ensures Sorted(Stream(r, 0)) <==> SortedList(r.keys)
  {
    hide Less, Stream, Answers;
    StreamIsCompleteIff(r, 0);
    var es := Stream(r, 0);
    assert forall j :: 0 <= j < |es| ==> r.get(r.keys[0 + j]) == Some(es[j]);
    forall i, j | 0 <= i < j < |es| ensures Less(r.keys[j], r.keys[i]) <==> Less(es[j].key, es[i].key) {
      SameTenantOrder(r, i, j);
    }
  }

  /** Keys "a:z" and "b:a" are in order, their entries are not. */
  lemma SortedListIsNotEnough(e: KeyValue, f: KeyValue, r: Reader)
    requires e.tenant == [97] && e.key == [122] && f.tenant == [98] && f.key == [97]
    requires r.keys == [BuildKey(e.tenant, e.key), BuildKey(f.tenant, f.key)]
    requires r.get(r.keys[0]) == Some(e) && r.get(r.keys[1]) == Some(f)
    ensures Answers(r) && SortedList(r.keys) && Stream(r, 0) == [e, f] && !Sorted(Stream(r, 0))
  {
    assert Stream(r, 2) == [];
    assert Stream(r, 1) == [f];
    assert Less(f.key, e.key) && !Less(r.keys[1], r.keys[0]);
    assert Stream(r, 0) == [e, f];
    assert Stream(r, 0)[0] == e && Stream(r, 0)[1] == f;
  }

  lemma SortedOne(init: seq<KeyValue>, e: KeyValue, mid: seq<seq<KeyValue>>, r: nat)
    requires Sorted(init) && Ahead(init, mid) && r < |mid| && mid[r] != [] && mid[r][0] == e
    ensures Sorted(init + [e])
  {
    hide Less;
  }

  lemma AheadOne(init: seq<KeyValue>, e: KeyValue, mid: seq<seq<KeyValue>>, now: seq<seq<KeyValue>>)
    requires Ahead(init, mid) && Ahead([e], mid) && |now| == |mid|
    requires forall q, j :: 0 <= q < |now| && 0 <= j < |now[q]| ==> now[q][j] in mid[q]
    ensures Ahead(init + [e], now)
  {
    hide Less;
    var out := init + [e];
    forall i, r, j | 0 <= i < |out| && 0 <= r < |now| && 0 <= j < |now[r]| ensures !Less(now[r][j].key, out[i].key) {
      assert now[r][j] in mid[r];
      var k :| 0 <= k < |mid[r]| && mid[r][k] == now[r][j];
      assert i == |init| ==> out[i] == [e][0];
    }
  }

  // ---------- comparing clocks ----------

  ghost predicate Exceeds(m1: map<Str, int>, m2: map<Str, int>) {
    exists n :: n in m1 && m1[n] > Get(m2, n)
  }

  /** compareVectorClocks, as a number. */
  ghost function CompareSign(a: Clock, b: Clock): (r: int) {
    Sign(Exceeds(MapOf(a), MapOf(b)), !Leq(b, a))
  }

  /** compareVectorClocks. */
  method CompareVectorClocks(vc1: Clock, vc2: Clock) returns (r: int)
    ensures r == CompareSign(vc1, vc2)
  {
    var map1 := ToMap(vc1);
    var map2 := ToMap(vc2);
    var vc1Greater, vc2Greater := ScanFirst(map1, map2);
    var more := ScanSecond(map1, map2);
    vc2Greater := vc2Greater || more;
    SecondGreater(vc1, vc2);
    if vc1Greater && !vc2Greater {
      return 1;
    } else if vc2Greater && !vc1Greater {
      return -1;
    }
    return 0;
  }

  lemma SecondGreater(a: Clock, b: Clock)
    ensures !Leq(b, a) <==>
            || (exists n :: n in MapOf(a) && MapOf(a)[n] < Get(MapOf(b), n))
            || (exists n :: n in MapOf(b) && n !in MapOf(a) && MapOf(b)[n] > 0)
  {
    var ma, mb := MapOf(a), MapOf(b);
    if !Leq(b, a) {
      var n :| At(b, n) > At(a, n);
      if n in ma {
        assert n in MapOf(a) && MapOf(a)[n] < Get(MapOf(b), n);
      } else {
        assert n in MapOf(b) && n !in MapOf(a) && MapOf(b)[n] > 0;
      }
    } else {
      forall n | n in ma ensures ma[n] >= Get(mb, n) { assert At(b, n) <= At(a, n); }
      forall n | n in mb && n !in ma ensures mb[n] <= 0 { assert At(b, n) <= At(a, n); }
    }
  }

  method ScanFirst(map1: map<Str, int>, map2: map<Str, int>) returns (vc1Greater: bool, vc2Greater: bool)
    ensures vc1Greater <==> Exceeds(map1, map2)
    ensures vc2Greater <==> exists n :: n in map1 && map1[n] < Get(map2, n)
  {
    vc1Greater, vc2Greater := false, false;
    var rest := map1.Keys;
    while rest != {}
      invariant rest <= map1.Keys
      invariant vc1Greater <==> exists n :: n in map1 && n !in rest && map1[n] > Get(map2, n)
      invariant vc2Greater <==> exists n :: n in map1 && n !in rest && map1[n] < Get(map2, n)
      decreases |rest|
    {
      var nodeID :| nodeID in rest;
      var ts1, ts2 := map1[nodeID], Get(map2, nodeID);
      if ts1 > ts2 {
        vc1Greater := true;
      } else if ts1 < ts2 {
        vc2Greater := true;
      }
      rest := rest - {nodeID};
    }
  }

  method ScanSecond(map1: map<Str, int>, map2: map<Str, int>) returns (vc2Greater: bool)
    ensures vc2Greater <==> exists n :: n in map2 && n !in map1 && map2[n] > 0
  {
    vc2Greater := false;
    var rest := map2.Keys;
    while rest != {}
      invariant rest <= map2.Keys
      invariant vc2Greater <==> exists n :: n in map2 && n !in rest && n !in map1 && map2[n] > 0
      decreases |rest|
    {
      var nodeID :| nodeID in rest;
      if nodeID !in map1 && map2[nodeID] > 0 {
        vc2Greater := true;
      }
      rest := rest - {nodeID};
    }
  }

  /** The comparator is the causal order exactly if it already saw `a` ahead somewhere or no
      component that only `b` has is negative; in particular on all non-negative clocks. */
  lemma CompareAgreesIff(a: Clock, b: Clock)
    ensures CompareSign(a, b) == SignOf(Relate(a, b)) <==>
            Exceeds(MapOf(a), MapOf(b)) || forall n :: n in MapOf(b) && n !in MapOf(a) ==> At(b, n) >= 0
    ensures NonNegative(a) && NonNegative(b) ==> CompareSign(a, b) == SignOf(Relate(a, b))
  {
    AgreeOnKeys(a, b);
    if NonNegative(b) {
      forall n ensures At(b, n) >= 0 { NonNegativeAt(b, n); }
    }
  }

  // ---------- one version per key ----------

  datatype Dedup = Dedup(lastKey: Str, best: Option<KeyValue>, chosen: seq<KeyValue>)

  ghost function Flushed(d: Dedup): (ws: seq<KeyValue>) {
    if d.best.Some? then d.chosen + [d.best.value] else d.chosen
  }

  /** One entry of the merge: a later version of the current key may replace the best one; another
      key ends the current one. */
  ghost function Consider(d: Dedup, e: KeyValue): (d': Dedup) {
    if e.key == d.lastKey then
      if d.best.Some? && CompareSign(e.clock, d.best.value.clock) > 0 then d.(best := Some(e)) else d
    else Dedup(e.key, Some(e), Flushed(d))
  }

  ghost function Scan(out: seq<KeyValue>): (d: Dedup) {
    if out == [] then Dedup([], None, []) else Consider(Scan(out[..|out| - 1]), out[|out| - 1])
  }

  /** The versions that survive, tombstones included. */
  ghost function Chosen(out: seq<KeyValue>): (ws: seq<KeyValue>) { Flushed(Scan(out)) }

  function ToMem(e: KeyValue): (m: MemEntry) {
    MemEntry(BuildKey(e.tenant, e.key), e.value, e.clock, e.timestamp, false)
  }

  /** `m` is `w` as an SSTable stores it, no tombstone. */
  ghost predicate Carries(m: MemEntry, w: KeyValue) {
    && m.key == BuildKey(w.tenant, w.key) && m.value == w.value && m.clock == w.clock
    && m.timestamp == w.timestamp && !m.tombstone
  }

  /** What is written for them: nothing for a tombstone. */
  ghost function Output(ws: seq<KeyValue>): (ms: seq<MemEntry>) {
    if ws == [] then []
    else Output(ws[..|ws| - 1]) + (if ws[|ws| - 1].tombstone then [] else [ToMem(ws[|ws| - 1])])
  }

  ghost function Live(ws: seq<KeyValue>): (r: seq<KeyValue>) {
    if ws == [] then []
    else Live(ws[..|ws| - 1]) + (if ws[|ws| - 1].tombstone then [] else [ws[|ws| - 1]])
  }

  /** `ms` are the versions of `ws` that are no tombstones, in order. */
  ghost predicate WritesOut(ws: seq<KeyValue>, ms: seq<MemEntry>) {
    |ms| == |Live(ws)| && forall i :: 0 <= i < |ms| ==> Carries(ms[i], Live(ws)[i])
  }

  lemma {:induction false} OutputInOrder(ws: seq<KeyValue>)
    ensures WritesOut(ws, Output(ws))
  {
    if ws != [] { OutputInOrder(ws[..|ws| - 1]); }
  }

  /** mergeSSTables, from opening the readers to the last write. */
  method MergeTables(readers: seq<Reader>, writer: SSTableWriter)
    returns (ghost start: seq<seq<KeyValue>>, ghost out: seq<KeyValue>, ghost end: seq<seq<KeyValue>>)
    requires writer.Valid()
    modifies writer
    ensures writer.Valid() && writer.written == old(writer.written) + Output(Chosen(out))
    ensures WritesOut(Chosen(out), writer.written[|old(writer.written)|..])
    ensures |start| == |readers| && forall r :: 0 <= r < |readers| ==> start[r] == Stream(readers[r], 0)
    ensures Emits(start, out, end) && forall r :: 0 <= r < |end| ==> end[r] == []
  {
    hide Less, CompareSign, Stream, SSTableWriter.Valid, Emits, Takes;
    var merger := new KWayMerger(readers);
    start, out := merger.pending, [];
    NothingEmitted(start);
    var lastKey: Str, bestEntry: Option<KeyValue> := [], None;
    ghost var d := Scan([]);
    while merger.heap != []
      invariant merger.Valid() && fresh(merger) && writer.Valid()
      invariant Emits(start, out, merger.pending) && d == Scan(out)
      invariant d.lastKey == lastKey && d.best == bestEntry
      invariant writer.written == old(writer.written) + Output(d.chosen)
      decreases Left(merger.pending)
    {
      ghost var before := merger.pending;
      var next, r := merger.Next();
      var entry := next.value;
      EmitsOne(start, out, before, entry, r, merger.pending);
      LeftDrops(before, entry, r, merger.pending);
      assert (out + [entry])[..|out|] == out;
      out := out + [entry];
      d := Scan(out);
      if entry.key == lastKey {
        if bestEntry.Some? {
          var order := CompareVectorClocks(entry.clock, bestEntry.value.clock);
          if order > 0 {
            bestEntry := Some(entry);
          }
        }
        continue;
      }
      if bestEntry.Some? {
        WriteEntryIfNotTombstone(writer, bestEntry.value);
      }
      lastKey, bestEntry := entry.key, Some(entry);
    }
    if bestEntry.Some? {
      WriteEntryIfNotTombstone(writer, bestEntry.value);
    }
    end := merger.pending;
    EmptyHeap(merger.heap, end);
    OutputInOrder(Chosen(out));
    assert writer.written[|old(writer.written)|..] == Output(Chosen(out));
  }

  /** writeEntryIfNotTombstone. */
  method WriteEntryIfNotTombstone(writer: SSTableWriter, entry: KeyValue)
    requires writer.Valid()
    modifies writer
    ensures writer.Valid()
    ensures entry.tombstone ==> writer.written == old(writer.written)
    ensures !entry.tombstone ==> exists m :: Carries(m, entry) && writer.written == old(writer.written) + [m]
    ensures forall base, ws: seq<KeyValue> :: old(writer.written) == base + Output(ws) ==>
        writer.written == base + Output(ws + [entry])
  {
    hide SSTableWriter.Valid;
    forall ws: seq<KeyValue>
      ensures Output(ws + [entry]) == Output(ws) + (if entry.tombstone then [] else [ToMem(entry)])
    {
      assert (ws + [entry])[..|ws|] == ws;
    }
    if entry.tombstone {
      return;
    }
    writer.Write(ToMem(entry));
    assert Carries(ToMem(entry), entry);
  }

  lemma NothingEmitted(start: seq<seq<KeyValue>>)
    ensures Emits(start, [], start)
  {
  }

  lemma EmptyHeap(heap: seq<MergeEntry>, pending: seq<seq<KeyValue>>)
    requires HeapOk(heap, pending) && heap == []
    ensures forall r :: 0 <= r < |pending| ==> pending[r] == []
  {
  }

  /** How many entries are still pending. */
  ghost function Left(pending: seq<seq<KeyValue>>): (n: nat) {
    if pending == [] then 0 else Left(pending[..|pending| - 1]) + |pending[|pending| - 1]|
  }

  lemma {:induction false} LeftUpdate(p: seq<seq<KeyValue>>, r: nat, s: seq<KeyValue>)
    requires r < |p|
    ensures Left(p[r := s]) + |p[r]| == Left(p) + |s|
  {
    var init, p' := p[..|p| - 1], p[r := s];
    if r == |p| - 1 {
      assert p'[..|p| - 1] == init;
    } else {
      LeftUpdate(init, r, s);
      assert p'[..|p| - 1] == init[r := s];
    }
  }

  lemma LeftDrops(pending: seq<seq<KeyValue>>, e: KeyValue, r: nat, now: seq<seq<KeyValue>>)
    requires Takes(pending, e, r, now)
    ensures Left(now) < Left(pending)
  {
    LeftUpdate(pending, r, pending[r][1..]);
  }

  // ---------- what survives ----------

  ghost predicate Plain(out: seq<KeyValue>) {
    forall i :: 0 <= i < |out| ==> out[i].key != [] && NonNegative(out[i].clock)
  }

  ghost predicate Has(es: seq<KeyValue>, k: Str) {
    exists i :: 0 <= i < |es| && es[i].key == k
  }

  /** No version in `out` of `w`'s key is causally later than `w`. */
  ghost predicate Best(w: KeyValue, out: seq<KeyValue>) {
    forall i :: 0 <= i < |out| && out[i].key == w.key ==> Relate(w.clock, out[i].clock) != Before
  }

  ghost predicate Rising(ws: seq<KeyValue>) {
    forall i, j :: 0 <= i < j < |ws| ==> Less(ws[i].key, ws[j].key)
  }

  ghost predicate Distinct(ws: seq<KeyValue>) {
    forall i, j :: 0 <= i < j < |ws| ==> ws[i].key != ws[j].key
  }

  /** Entries with the same key stand together. */
  ghost predicate Grouped(out: seq<KeyValue>) {
    forall i, j, l :: 0 <= i < j < l < |out| && out[i].key == out[l].key ==> out[j].key == out[i].key
  }

  ghost predicate AllBest(ws: seq<KeyValue>, out: seq<KeyValue>) {
    forall i :: 0 <= i < |ws| ==> ws[i] in out && Best(ws[i], out)
  }

  ghost predicate Covers(ws: seq<KeyValue>, out: seq<KeyValue>) {
    forall i :: 0 <= i < |out| ==> Has(ws, out[i].key)
  }

  /** `ws` holds one version of each key of `out`, each a best one. */
  ghost predicate Picks(ws: seq<KeyValue>, out: seq<KeyValue>) {
    Distinct(ws) && AllBest(ws, out) && Covers(ws, out)
  }

  /** The scan is at the last key of what it has seen. */
  ghost predicate AtLast(d: Dedup, out: seq<KeyValue>) {
    if out == [] then d == Dedup([], None, [])
    else d.lastKey == out[|out| - 1].key && d.best.Some? && d.best.value.key == d.lastKey
  }

  /** Where equal keys stand together and none is empty, the scan picks one best version of every key. */
  lemma {:induction false} GroupedPicksBest(out: seq<KeyValue>)
    requires Grouped(out) && Plain(out)
    ensures Picks(Chosen(out), out) && AtLast(Scan(out), out)
  {
    if out != [] {
      var init, e := out[..|out| - 1], out[|out| - 1];
      assert out == init + [e];
      hide CompareSign, Relate, Best, Has;
      GroupedPicksBest(init);
      var d, ws := Scan(init), Chosen(init);
      if init != [] && e.key == d.lastKey {
        var b := d.best.value;
        assert ws[|ws| - 1] == b;
        CompareAgreesIff(e.clock, b.clock);
        SameKeyStep(ws, init, e);
      } else {
        NewKeyStep(ws, init, e);
        assert Chosen(out) == ws + [e];
      }
    }
  }

  ghost predicate NoEmptyKey(out: seq<KeyValue>) {
    forall i :: 0 <= i < |out| ==> out[i].key != []
  }

  /** Whatever comes in, as long as no key is empty the scan chooses a version of just the keys that
      come in, and each key once exactly if equal keys stand together. */
  lemma {:induction false} DistinctIffGrouped(out: seq<KeyValue>)
    requires NoEmptyKey(out)
    ensures Distinct(Chosen(out)) <==> Grouped(out)
    ensures forall k :: Has(Chosen(out), k) <==> Has(out, k)
    ensures AtLast(Scan(out), out)
  {
    hide CompareSign;
    if out != [] {
      var init, e := out[..|out| - 1], out[|out| - 1];
      DistinctIffGrouped(init);
      assert out == init + [e];
      OneMoreEntry(init, e);
    }
  }

  lemma OneMoreEntry(init: seq<KeyValue>, e: KeyValue)
    requires e.key != [] && AtLast(Scan(init), init) && (Distinct(Chosen(init)) <==> Grouped(init))
    requires forall k :: Has(Chosen(init), k) <==> Has(init, k)
    ensures Distinct(Chosen(init + [e])) <==> Grouped(init + [e])
    ensures forall k :: Has(Chosen(init + [e]), k) <==> Has(init + [e], k)
    ensures AtLast(Scan(init + [e]), init + [e])
  {
    hide CompareSign, Distinct, Grouped, Has;
    assert (init + [e])[..|init|] == init;
    if init != [] && e.key == Scan(init).lastKey {
      RepeatedKey(init, e);
      SameKeysChosen(init, e);
    } else {
      assert Chosen(init + [e]) == Chosen(init) + [e];
      FreshKey(init, Chosen(init), e);
    }
  }

  lemma RepeatedKey(init: seq<KeyValue>, e: KeyValue)
    requires init != [] && init[|init| - 1].key == e.key
    ensures Grouped(init + [e]) <==> Grouped(init)
    ensures forall k :: Has(init + [e], k) <==> Has(init, k)
  {
    var out, n := init + [e], |init|;
    assert forall i :: 0 <= i < n ==> out[i] == init[i];
    if Grouped(init) {
      forall i, j, l | 0 <= i < j < l < |out| && out[i].key == out[l].key ensures out[j].key == out[i].key {
        if l == n && j < n - 1 { assert init[i].key == init[n - 1].key; }
      }
    }
    forall k ensures Has(out, k) <==> Has(init, k) {
      if i :| 0 <= i < n && init[i].key == k { assert out[i].key == k; }
      if k == e.key { assert init[n - 1].key == k; }
    }
  }

  /** One more version of the last key leaves the chosen keys as they are. */
  lemma SameKeysChosen(init: seq<KeyValue>, e: KeyValue)
    requires init != [] && AtLast(Scan(init), init) && e.key == Scan(init).lastKey
    ensures AtLast(Scan(init + [e]), init + [e])
    ensures |Chosen(init + [e])| == |Chosen(init)|
    ensures forall i :: 0 <= i < |Chosen(init)| ==> Chosen(init + [e])[i].key == Chosen(init)[i].key
    ensures Distinct(Chosen(init + [e])) <==> Distinct(Chosen(init))
    ensures forall k :: Has(Chosen(init + [e]), k) <==> Has(Chosen(init), k)
  {
    hide CompareSign;
    assert (init + [e])[..|init|] == init;
  }

  lemma FreshKey(init: seq<KeyValue>, ws: seq<KeyValue>, e: KeyValue)
    requires (init != [] ==> init[|init| - 1].key != e.key) && forall k :: Has(ws, k) <==> Has(init, k)
    requires Distinct(ws) <==> Grouped(init)
    ensures Distinct(ws + [e]) <==> Grouped(init + [e])
    ensures forall k :: Has(ws + [e], k) <==> Has(init + [e], k)
  {
    hide Has, Distinct, Grouped;
    DistinctOne(ws, e);
    GroupedOne(init, e);
    forall k ensures Has(ws + [e], k) <==> Has(init + [e], k) { HasOne(ws, e, k); HasOne(init, e, k); }
  }

  lemma HasOne(es: seq<KeyValue>, e: KeyValue, k: Str)
    ensures Has(es + [e], k) <==> Has(es, k) || k == e.key
  {
    HasMore(es, e, k);
  }

  lemma DistinctOne(ws: seq<KeyValue>, e: KeyValue)
    ensures Distinct(ws + [e]) <==> Distinct(ws) && !Has(ws, e.key)
  {
    var ws' := ws + [e];
    assert ws'[|ws|] == e && forall i :: 0 <= i < |ws| ==> ws'[i] == ws[i];
  }

  lemma GroupedOne(init: seq<KeyValue>, e: KeyValue)
    requires init != [] ==> init[|init| - 1].key != e.key
    ensures Grouped(init + [e]) <==> Grouped(init) && !Has(init, e.key)
  {
    var out, n := init + [e], |init|;
    assert out[n] == e && forall i :: 0 <= i < n ==> out[i] == init[i];
    if i :| 0 <= i < n && init[i].key == e.key {
      assert i < n - 1 && out[i].key == out[n].key && out[n - 1].key != e.key;
    }
  }

  /** So for what the dedup loop receives: it writes one best version of every key exactly if equal
      keys stand together. */
  lemma ScanPicksBestIff(out: seq<KeyValue>)
    requires Plain(out)
    ensures Picks(Chosen(out), out) <==> Grouped(out)
  {
    hide Grouped, Distinct, AllBest, Covers;
    DistinctIffGrouped(out);
    if Grouped(out) { GroupedPicksBest(out); }
  }

  /** On a sorted sequence without empty keys the scan picks one best version of every key, in order. */
  lemma ScanPicksBest(out: seq<KeyValue>)
    requires Sorted(out) && Plain(out)
    ensures Picks(Chosen(out), out) && Rising(Chosen(out))
  {
    hide Less, Best, Has;
    SortedIsGrouped(out);
    GroupedPicksBest(out);
    ScanRises(out);
  }

  lemma SortedIsGrouped(out: seq<KeyValue>)
    requires Sorted(out)
    ensures Grouped(out)
  {
    hide Less;
    forall i, j, l | 0 <= i < j < l < |out| && out[i].key == out[l].key ensures out[j].key == out[i].key {
      LessTotal(out[i].key, out[j].key);
    }
  }

  lemma {:induction false} ScanRises(out: seq<KeyValue>)
    requires Sorted(out) && NoEmptyKey(out)
    ensures Rising(Chosen(out)) && AtLast(Scan(out), out)
    ensures forall i :: 0 <= i < |Chosen(out)| ==> !Less(out[|out| - 1].key, Chosen(out)[i].key)
  {
    hide Less, CompareSign;
    if out != [] {
      var init, e := out[..|out| - 1], out[|out| - 1];
      ScanRises(init);
      assert out == init + [e];
      var d, ws := Scan(init), Chosen(init);
      if init != [] && e.key == d.lastKey {
        SameKeysChosen(init, e);
      } else {
        assert Chosen(out) == ws + [e];
        LessIrreflexive(e.key);
        forall i | 0 <= i < |ws| ensures Less(ws[i].key, e.key) && !Less(e.key, ws[i].key) {
          LessTotal(init[|init| - 1].key, e.key);
          NotLessThenLess(ws[i].key, init[|init| - 1].key, e.key);
          LessAsymmetric(ws[i].key, e.key);
        }
      }
    }
  }

  lemma HasMore(ws: seq<KeyValue>, w: KeyValue, k: Str)
    ensures Has(ws, k) ==> Has(ws + [w], k)
    ensures Has(ws + [w], w.key)
  {
    var ws' := ws + [w];
    assert ws'[|ws|] == w;
    if i :| 0 <= i < |ws| && ws[i].key == k { assert ws'[i].key == k; }
  }

  /** A version of another key does not bear on `w`. */
  lemma BestMore(w: KeyValue, out: seq<KeyValue>, e: KeyValue)
    requires Best(w, out) && (e.key == w.key ==> Relate(w.clock, e.clock) != Before)
    ensures Best(w, out + [e])
  {
    hide Relate;
  }

  lemma NewKeyStep(ws: seq<KeyValue>, init: seq<KeyValue>, e: KeyValue)
    requires Picks(ws, init) && Grouped(init + [e]) && (init != [] ==> init[|init| - 1].key != e.key)
    ensures Picks(ws + [e], init + [e])
  {
    GroupedOne(init, e);
    assert forall j :: 0 <= j < |init| ==> init[j].key != e.key;
    hide Relate, Best, Has, Grouped;
    var ws', out := ws + [e], init + [e];
    forall i | 0 <= i < |ws| ensures ws[i].key != e.key {
      assert ws[i] in init;
      var j :| 0 <= j < |init| && init[j] == ws[i];
    }
    forall i | 0 <= i < |ws'| ensures ws'[i] in out && Best(ws'[i], out) {
      if i < |ws| { BestMore(ws[i], init, e); } else { OnlyVersion(init, e); }
    }
    forall i | 0 <= i < |out| ensures Has(ws', out[i].key) { HasMore(ws, e, out[i].key); }
  }

  lemma OnlyVersion(init: seq<KeyValue>, e: KeyValue)
    requires forall j :: 0 <= j < |init| ==> init[j].key != e.key
    ensures Best(e, init + [e])
  {
    OrderLaws(e.clock, e.clock, e.clock);
    hide Relate;
  }

  lemma SameKeyStep(ws: seq<KeyValue>, init: seq<KeyValue>, e: KeyValue)
    requires Picks(ws, init) && ws != [] && ws[|ws| - 1].key == e.key
    ensures SignOf(Relate(e.clock, ws[|ws| - 1].clock)) > 0 ==> Picks(ws[..|ws| - 1] + [e], init + [e])
    ensures SignOf(Relate(e.clock, ws[|ws| - 1].clock)) <= 0 ==> Picks(ws, init + [e])
  {
    var front, b, out := ws[..|ws| - 1], ws[|ws| - 1], init + [e];
    assert ws == front + [b];
    OrderLaws(e.clock, b.clock, e.clock);
    hide Less, Relate, Best, Has;
    FrontStaysBest(front, b, init, e);
    assert AllBest(ws, init) ==> Best(ws[|front|], init);
    if SignOf(Relate(e.clock, b.clock)) > 0 {
      LaterIsBest(b, init, e);
      SwapLast(front, b, e, out);
      forall i | 0 <= i < |out|
        ensures Has(front + [e], out[i].key)
      {
        SameKeys(ws, e, out[i].key); HasMore(front, e, e.key);
      }
    } else {
      BestMore(b, init, e);
      assert b in init;
      forall i | 0 <= i < |out| ensures Has(ws, out[i].key) { HasLast(ws); }
    }
  }

  lemma FrontStaysBest(front: seq<KeyValue>, b: KeyValue, init: seq<KeyValue>, e: KeyValue)
    requires Distinct(front + [b]) && AllBest(front + [b], init) && b.key == e.key
    ensures AllBest(front, init + [e])
  {
    hide Best;
    var ws := front + [b];
    forall i | 0 <= i < |front| ensures front[i] in init + [e] && Best(front[i], init + [e]) {
      assert ws[i] == front[i] && ws[|front|] == b;
      BestMore(front[i], init, e);
    }
  }

  lemma SwapLast(front: seq<KeyValue>, b: KeyValue, e: KeyValue, out: seq<KeyValue>)
    requires Distinct(front + [b]) && b.key == e.key && AllBest(front, out) && e in out && Best(e, out)
    ensures Distinct(front + [e]) && AllBest(front + [e], out)
  {
    hide Best;
    var ws, ws' := front + [b], front + [e];
    forall i, j | 0 <= i < j < |ws'| ensures ws'[i].key != ws'[j].key { assert ws[i].key != ws[j].key; }
  }

  lemma HasLast(ws: seq<KeyValue>)
    requires ws != []
    ensures Has(ws, ws[|ws| - 1].key)
  {
  }

  lemma SameKeys(ws: seq<KeyValue>, e: KeyValue, k: Str)
    requires ws != [] && ws[|ws| - 1].key == e.key
    ensures Has(ws, k) ==> Has(ws[..|ws| - 1] + [e], k)
  {
    if i :| 0 <= i < |ws| && ws[i].key == k { assert (ws[..|ws| - 1] + [e])[i].key == k; }
  }

  /** A version later than a best one is a best one. */
  lemma LaterIsBest(b: KeyValue, init: seq<KeyValue>, e: KeyValue)
    requires Best(b, init) && b.key == e.key && Relate(e.clock, b.clock) == After
    ensures Best(e, init + [e])
  {
    var out := init + [e];
    forall i | 0 <= i < |out| && out[i].key == e.key ensures Relate(e.clock, out[i].clock) != Before {
      OrderLaws(e.clock, e.clock, e.clock);
      OrderLaws(e.clock, b.clock, b.clock);
      OrderLaws(b.clock, e.clock, out[i].clock);
    }
  }

  // ---------- the theorem ----------

  /** Compaction of sorted, readable tables: every input entry is emitted once, in key order; every
      input key keeps exactly one version, one that no other input version is causally after. */
  lemma CompactionKeepsBestVersions(readers: seq<Reader>, start: seq<seq<KeyValue>>, out: seq<KeyValue>,
        end: seq<seq<KeyValue>>)
    requires |start| == |readers| && forall r :: 0 <= r < |readers| ==> start[r] == Stream(readers[r], 0)
    requires Emits(start, out, end) && forall r :: 0 <= r < |end| ==> end[r] == []
    requires AllSorted(start) && forall r :: 0 <= r < |start| ==> Plain(start[r])
    ensures multiset(out) == Union(start) && Sorted(out)
    ensures Picks(Chosen(out), out) && Rising(Chosen(out))
    ensures forall r, i :: 0 <= r < |start| && 0 <= i < |start[r]| ==>
        start[r][i] in out && Has(Chosen(out), start[r][i].key)
  {
    hide Less, Stream, Emits, Has, Best, Relate;
    NothingLostOrRepeated(start, out, end);
    UnionOfEmpty(end);
    MergeIsSorted(start, out, end);
    forall i | 0 <= i < |out| ensures out[i].key != [] && NonNegative(out[i].clock) {
      assert out[i] in multiset(out);
      var r := FromSome(start, out[i]);
    }
    ScanPicksBest(out);
    forall r, i | 0 <= r < |start| && 0 <= i < |start[r]|
      ensures start[r][i] in out && Has(Chosen(out), start[r][i].key)
    {
      InUnion(start, r, start[r][i]);
      assert start[r][i] in multiset(out);
      var j :| 0 <= j < |out| && out[j] == start[r][i];
    }
  }

  lemma {:induction false} UnionOfEmpty(p: seq<seq<KeyValue>>)
    requires forall r :: 0 <= r < |p| ==> p[r] == []
    ensures Union(p) == multiset{}
  {
    if p != [] { UnionOfEmpty(p[..|p| - 1]); }
  }

  lemma {:induction false} FromSome(p: seq<seq<KeyValue>>, e: KeyValue) returns (r: nat)
    requires e in Union(p)
    ensures r < |p| && e in p[r]
  {
    r := |p| - 1;
    if e !in p[r] { r := FromSome(p[..|p| - 1], e); }
  }

  lemma {:induction false} InUnion(p: seq<seq<KeyValue>>, r: nat, e: KeyValue)
    requires r < |p| && e in p[r]
    ensures e in Union(p)
  {
    if r < |p| - 1 { InUnion(p[..|p| - 1], r, e); } else { assert e in multiset(p[r]); }
  }

  /** What is written are the chosen versions that are no tombstones, in order. */
  lemma {:induction false} OutputMembers(ws: seq<KeyValue>, m: MemEntry)
    ensures m in Output(ws) <==> exists i :: WritesAt(ws, m, i)
  {
    hide BuildKey;
    if ws != [] {
      OutputMembers(ws[..|ws| - 1], m);
      LastWritten(ws, ws[..|ws| - 1], m);
    }
  }

  lemma LastWritten(ws: seq<KeyValue>, init: seq<KeyValue>, m: MemEntry)
    requires ws != [] && init == ws[..|ws| - 1]
    ensures (exists i :: WritesAt(ws, m, i)) <==> (exists i :: WritesAt(init, m, i)) || WritesAt(ws, m, |init|)
  {
    hide Carries;
    if i :| WritesAt(init, m, i) { assert WritesAt(ws, m, i); }
    if i :| WritesAt(ws, m, i) { assert i < |init| ==> WritesAt(init, m, i); }
  }

  ghost predicate WritesAt(ws: seq<KeyValue>, m: MemEntry, i: int) {
    0 <= i < |ws| && !ws[i].tombstone && Carries(m, ws[i])
  }

  // ---------- reading the compacted table ----------

  /** Tenants as reading a table gives them: the part of a composite key before its first ':'. */
  ghost predicate ColonFree(out: seq<KeyValue>) {
    forall i :: 0 <= i < |out| ==> COLON !in out[i].tenant
  }

  lemma {:induction false} DistinctOutput(ws: seq<KeyValue>)
    requires Distinct(ws) && ColonFree(ws)
    ensures DistinctKeys(Output(ws))
  {
    hide ToMem;
    if ws != [] {
      var init, last := ws[..|ws| - 1], ws[|ws| - 1];
      DistinctOutput(init);
      var ms, m := Output(init), ToMem(last);
      forall i | 0 <= i < |ms| ensures ms[i].key != m.key {
        OutputMembers(init, ms[i]);
        var j :| WritesAt(init, ms[i], j);
        OtherKeyWritten(ws, j, ms[i], m);
      }
    }
  }

  lemma OtherKeyWritten(ws: seq<KeyValue>, j: nat, m: MemEntry, m': MemEntry)
    requires Distinct(ws) && ColonFree(ws) && j < |ws| - 1 && Carries(m, ws[j]) && m' == ToMem(ws[|ws| - 1])
    ensures m.key != m'.key
  {
    var w, w' := ws[j], ws[|ws| - 1];
    if m.key == m'.key { BuildKeyInjective(w.tenant, w.key, w'.tenant, w'.key); }
  }

  /** `w` is what compaction keeps under composite key `k`: no tombstone, and no input version of its
      key is causally after it. */
  ghost predicate Survives(out: seq<KeyValue>, w: KeyValue, k: Str) {
    w in Chosen(out) && w in out && Best(w, out) && !w.tombstone && BuildKey(w.tenant, w.key) == k
  }

  ghost predicate SurvivesAs(out: seq<KeyValue>, k: Str, m: MemEntry) {
    exists w :: Survives(out, w, k) && Carries(m, w)
  }

  /** Reading `k` gives the value, clock and timestamp of what survives under it; nothing if its
      record's checksum is 0 or nothing survives. */
  ghost predicate ReadsAsSurvivor(c: Codec, dataFile: Str, index: map<Str, IndexEntry>, out: seq<KeyValue>, k: Str) {
    match ReadEntry(c, dataFile, index, k)
    case Found(m) => SurvivesAs(out, k, m)
    case Failed => exists m :: SurvivesAs(out, k, m) && c.crc(c.marshal(m)) == 0
    case NotFound => forall w :: !Survives(out, w, k)
  }

  /** A compacted table, written, finalized and loaded again. */
  lemma CompactionReadsBack(c: Codec, out: seq<KeyValue>, index: map<Str, IndexEntry>, k: Str)
    requires Sound(c) && Grouped(out) && Plain(out) && ColonFree(out)
    requires var es := Output(Chosen(out)); Fits(c, es) && LoadFrom(IndexFile(IndexFor(c, es)), map[]) == Some(index)
    ensures ReadsAsSurvivor(c, DataFile(c, Output(Chosen(out))), index, out, k)
  {
    hide Sound, Fits, IndexFile, IndexFor, DataFile, LoadFrom, ReadEntry, ToMem, Output, Chosen, Best, Has;
    var ws, es := Chosen(out), Output(Chosen(out));
    GroupedPicksBest(out);
    ChosenColonFree(ws, out);
    DistinctOutput(ws);
    ReadReturnsWrittenIff(c, es, index);
    hide Carries, Survives;
    if i :| 0 <= i < |es| && es[i].key == k {
      WrittenSurvives(out, es[i]);
    } else {
      forall w | Survives(out, w, k) ensures false { SurvivorIsWritten(out, w, k); }
    }
  }

  lemma ChosenColonFree(ws: seq<KeyValue>, out: seq<KeyValue>)
    requires AllBest(ws, out) && ColonFree(out)
    ensures ColonFree(ws)
  {
    forall i | 0 <= i < |ws| ensures COLON !in ws[i].tenant {
      assert ws[i] in out;
    }
  }

  lemma WrittenSurvives(out: seq<KeyValue>, m: MemEntry)
    requires AllBest(Chosen(out), out) && m in Output(Chosen(out))
    ensures SurvivesAs(out, m.key, m)
  {
    hide Chosen, Best, Output;
    var ws := Chosen(out);
    OutputMembers(ws, m);
    var i :| WritesAt(ws, m, i);
    assert ws[i] in out && Survives(out, ws[i], m.key);
  }

  lemma SurvivorIsWritten(out: seq<KeyValue>, w: KeyValue, k: Str)
    requires Survives(out, w, k)
    ensures exists i :: 0 <= i < |Output(Chosen(out))| && Output(Chosen(out))[i].key == k
  {
    hide Chosen, Best, Output;
    var ws, es := Chosen(out), Output(Chosen(out));
    var j :| 0 <= j < |ws| && ws[j] == w;
    assert WritesAt(ws, ToMem(w), j);
    OutputMembers(ws, ToMem(w));
    var i :| 0 <= i < |es| && es[i] == ToMem(w);
  }

  /** mergeSSTables on a new writer: the files of the new table. If equal keys come together, reading
      the table gives for each key a best input version. */
  method CompactTables(codec: Codec, readers: seq<Reader>)
    returns (dataFile: Str, indexFile: Str, ghost start: seq<seq<KeyValue>>, ghost out: seq<KeyValue>)
    ensures |start| == |readers| && (forall r :: 0 <= r < |readers| ==> start[r] == Stream(readers[r], 0))
    ensures multiset(out) == Union(start)
    ensures && Sound(codec) && Grouped(out) && Plain(out) && ColonFree(out) && Fits(codec, Output(Chosen(out))) ==>
            && LoadFrom(indexFile, map[]).Some?
            && forall k :: ReadsAsSurvivor(codec, dataFile, LoadFrom(indexFile, map[]).value, out, k)
  {
    hide Sound, Fits, Grouped, Plain, ColonFree, IndexFile, IndexFor, DataFile, LoadFrom, ReadsAsSurvivor, Output,
         Chosen, Emits, Stream, WritesOut, SSTableWriter.Valid;
    var writer := new SSTableWriter(codec);
    ghost var end;
    start, out, end := MergeTables(readers, writer);
    NothingLostOrRepeated(start, out, end);
    UnionOfEmpty(end);
    ghost var es := writer.written;
    assert es == Output(Chosen(out));
    writer.Finalize();
    dataFile, indexFile := writer.dataFile, writer.indexFile;
    if Sound(codec) && Grouped(out) && Plain(out) && ColonFree(out) && Fits(codec, es) {
      ghost var index := CompactedIndex(codec, out);
      forall k ensures ReadsAsSurvivor(codec, dataFile, index, out, k) { CompactionReadsBack(codec, out, index, k); }
    }
  }

  lemma CompactedIndex(c: Codec, out: seq<KeyValue>) returns (index: map<Str, IndexEntry>)
    requires Sound(c) && Grouped(out) && Plain(out) && ColonFree(out) && Fits(c, Output(Chosen(out)))
    ensures LoadFrom(IndexFile(IndexFor(c, Output(Chosen(out)))), map[]) == Some(index)
  {
    hide Sound, Fits, IndexFile, IndexFor, DataFile, LoadFrom, Output, Chosen, Best, Has;
    GroupedPicksBest(out);
    ChosenColonFree(Chosen(out), out);
    DistinctOutput(Chosen(out));
    index := ReloadedIndex(c, Output(Chosen(out)));
  }

  ghost predicate Kept(ws: seq<KeyValue>, e: KeyValue) {
    exists i :: 0 <= i < |ws| && ws[i].key == e.key && ws[i].tenant == e.tenant
  }

  ghost predicate AllKept(ws: seq<KeyValue>, out: seq<KeyValue>) {
    forall i :: 0 <= i < |out| ==> Kept(ws, out[i])
  }

  /** No key is shared between tenants. */
  ghost predicate OwnKeys(out: seq<KeyValue>) {
    forall i, j :: 0 <= i < |out| && 0 <= j < |out| && out[i].key == out[j].key ==> out[i].tenant == out[j].tenant
  }

  /** Tenants are not told apart: in a sorted run every (tenant, key) keeps a version exactly if no
      key is empty and no key is shared between tenants. */
  lemma EveryTenantKeepsItsKeysIff(out: seq<KeyValue>)
    requires Sorted(out) && forall i :: 0 <= i < |out| ==> NonNegative(out[i].clock)
    ensures AllKept(Chosen(out), out) <==> (forall i :: 0 <= i < |out| ==> out[i].key != []) && OwnKeys(out)
  {
    hide Less, NonNegative, Sorted, Chosen;
    if i :| 0 <= i < |out| && out[i].key == [] {
      EmptyKeyIsDropped(out);
      assert !Kept(Chosen(out), out[i]);
    } else {
      ScanPicksBest(out);
      hide Picks, OwnKeys, AllKept;
      KeptTenants(out, Chosen(out));
    }
  }

  lemma KeptTenants(out: seq<KeyValue>, ws: seq<KeyValue>)
    requires Picks(ws, out)
    ensures AllKept(ws, out) <==> OwnKeys(out)
  {
    hide Less, Best, Picks, Kept;
    if AllKept(ws, out) {
      forall i, j | 0 <= i < |out| && 0 <= j < |out| && out[i].key == out[j].key
        ensures out[i].tenant == out[j].tenant
      {
        SameKept(ws, out, out[i], out[j]);
      }
    }
    if OwnKeys(out) {
      forall i | 0 <= i < |out| ensures Kept(ws, out[i]) { KeptVersion(ws, out, i); }
    }
  }

  lemma SameKept(ws: seq<KeyValue>, out: seq<KeyValue>, e: KeyValue, f: KeyValue)
    requires Picks(ws, out) && Kept(ws, e) && Kept(ws, f) && e.key == f.key
    ensures e.tenant == f.tenant
  {
    hide Best, AllBest, Covers;
    var a :| 0 <= a < |ws| && ws[a].key == e.key && ws[a].tenant == e.tenant;
    var b :| 0 <= b < |ws| && ws[b].key == f.key && ws[b].tenant == f.tenant;
  }

  lemma KeptVersion(ws: seq<KeyValue>, out: seq<KeyValue>, i: nat)
    requires Picks(ws, out) && OwnKeys(out) && i < |out|
    ensures Kept(ws, out[i])
  {
    hide Less, Best, Rising;
    assert Has(ws, out[i].key);
    var a :| 0 <= a < |ws| && ws[a].key == out[i].key;
    assert ws[a] in out;
    var j :| 0 <= j < |out| && out[j] == ws[a];
  }

  /** The scan starts as if it had just seen the empty key, so a version of it is never chosen. */
  lemma {:induction false} EmptyKeyIsDropped(out: seq<KeyValue>)
    requires Sorted(out)
    ensures forall i :: 0 <= i < |Chosen(out)| ==> Chosen(out)[i].key != []
    ensures Scan(out).lastKey == (if out == [] then [] else out[|out| - 1].key)
    ensures Scan(out).lastKey == [] ==> Scan(out).best.None?
  {
    if out != [] {
      var init, e := out[..|out| - 1], out[|out| - 1];
      EmptyKeyIsDropped(init);
      var d := Scan(init);
      if e.key == d.lastKey {
        assert forall i :: 0 <= i < |d.chosen| ==> d.chosen[i] == Chosen(init)[i];
        assert Chosen(out) == Chosen(init) || (Chosen(out) == d.chosen + [e] && e.key != []);
      } else {
        assert Chosen(out) == Chosen(init) + [e];
        assert init != [] ==> !Less(e.key, out[|out| - 2].key);
      }
    }
  }

  /** Two tenants with a key in common: one of them loses it. */
  lemma SharedKeyIsLost()
    ensures var e, f := KeyValue([97], [107], [1], [], 1, false), KeyValue([98], [107], [2], [], 1, false);
            Chosen([e, f]) == [e]
  {
    var e, f := KeyValue([97], [107], [1], [], 1, false), KeyValue([98], [107], [2], [], 1, false);
    assert [e, f][..1] == [e] && [e][..0] == [];
    assert Scan([e]) == Dedup([107], Some(e), []);
    assert CompareSign(f.clock, e.clock) == 0;
  }

  /** One table lists a larger key first, then an old version of a smaller one; another table holds a
      newer version: that is written first and the old one after it, where it replaces the newer one
      in the index. */
  lemma UnsortedTableBringsBackOldVersion(larger: KeyValue, older: KeyValue, newer: KeyValue)
    requires older.key == newer.key != [] && older.tenant == newer.tenant && Less(older.key, larger.key)
    requires !larger.tombstone && !older.tombstone && !newer.tombstone
    ensures Emits([[larger, older], [newer]], [newer, larger, older], [[], []])
    ensures var es := Output(Chosen([newer, larger, older]));
            && |es| == 3 && Carries(es[0], newer) && Carries(es[1], larger) && Carries(es[2], older)
            && es[0].key == es[2].key
  {
    hide Less, Emits, Output, Scan;
    LessAsymmetric(older.key, larger.key);
    LessIrreflexive(older.key);
    LessIrreflexive(larger.key);
    var s0, s1, s2, s3 := [[larger, older], [newer]], [[larger, older], []], [[older], []], [[], []];
    NothingEmitted(s0);
    TakeHead(s0, newer, 1, s1);
    EmitsOne(s0, [], s0, newer, 1, s1);
    TakeHead(s1, larger, 0, s2);
    EmitsOne(s0, [] + [newer], s1, larger, 0, s2);
    TakeHead(s2, older, 0, s3);
    EmitsOne(s0, [] + [newer] + [larger], s2, older, 0, s3);
    assert [] + [newer] + [larger] + [older] == [newer, larger, older];
    ThreeKeys(newer, larger, older);
  }

  lemma TakeHead(pending: seq<seq<KeyValue>>, e: KeyValue, r: nat, now: seq<seq<KeyValue>>)
    requires |pending| == |now| == 2 && r < 2 && pending[r] == [e] + now[r] && now[1 - r] == pending[1 - r]
    requires pending[1 - r] != [] ==> !Less(pending[1 - r][0].key, e.key)
    ensures Takes(pending, e, r, now)
  {
    hide Less;
    LessIrreflexive(e.key);
    assert pending[r][1..] == now[r];
  }

  lemma ThreeKeys(x: KeyValue, y: KeyValue, z: KeyValue)
    requires x.key != [] && x.key != y.key && y.key != z.key && !x.tombstone && !y.tombstone && !z.tombstone
    ensures Chosen([x, y, z]) == [x, y, z] && Output([x, y, z]) == [ToMem(x), ToMem(y), ToMem(z)]
  {
    var out := [x, y, z];
    assert out[..2] == [x, y] && [x, y][..1] == [x] && [x][..0] == [];
    assert Scan([x]) == Dedup(x.key, Some(x), []);
    assert Scan([x, y]) == Dedup(y.key, Some(y), [x]);
    assert Scan(out) == Dedup(z.key, Some(z), [x, y]);
    assert Output([x]) == [ToMem(x)];
    assert Output([x, y]) == [ToMem(x), ToMem(y)];
  }
}
