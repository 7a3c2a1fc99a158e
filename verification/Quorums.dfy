/** Reads against writes: what overlapping quorums guarantee. */
module Quorums {
  import opened GoStrings
  import opened VectorClocks
  import opened Conflicts
  import opened Coordinator

  // ---------- counting answers ----------

  predicate Counted(r: Response, needFound: bool) {
    r.success && (needFound ==> r.found)
  }

  function CountOf(rs: seq<Response>, needFound: bool): (n: nat) {
    if rs == [] then 0 else CountOf(rs[..|rs| - 1], needFound) + if Counted(rs[|rs| - 1], needFound) then 1 else 0
  }

  /** Each replica answers at most once. */
  ghost predicate OneEach(rs: seq<Response>) {
    forall i, j :: 0 <= i < j < |rs| ==> rs[i].node != rs[j].node
  }

  ghost function CountedNodes(rs: seq<Response>, needFound: bool): (s: set<Str>) {
    set i | 0 <= i < |rs| && Counted(rs[i], needFound) :: rs[i].node
  }

  /** The counting loop counts distinct replicas. */
  lemma {:induction false} CountIsCardinality(rs: seq<Response>, needFound: bool)
    requires OneEach(rs)
    ensures CountOf(rs, needFound) == |CountedNodes(rs, needFound)|
  {
    if rs != [] {
      CountIsCardinality(rs[..|rs| - 1], needFound);
      CountedNodesStep(rs, needFound);
    }
  }

  lemma CountedNodesStep(rs: seq<Response>, needFound: bool)
    requires OneEach(rs) && rs != []
    ensures var rest, r := CountedNodes(rs[..|rs| - 1], needFound), rs[|rs| - 1];
            r.node !in rest && CountedNodes(rs, needFound) == if Counted(r, needFound) then rest + {r.node} else rest
  {
    var init, r := rs[..|rs| - 1], rs[|rs| - 1];
    var rest, all := CountedNodes(init, needFound), CountedNodes(rs, needFound);
    forall n | n in rest ensures n in all && n != r.node {
      var i :| 0 <= i < |init| && Counted(init[i], needFound) && init[i].node == n;
      assert rs[i] == init[i];
    }
    forall n | n in all && n != r.node ensures n in rest {
      var i :| 0 <= i < |rs| && Counted(rs[i], needFound) && rs[i].node == n;
      assert rs[i] == init[i];
    }
    if r.node in all {
      var i :| 0 <= i < |rs| && Counted(rs[i], needFound) && rs[i].node == r.node;
    }
  }

  /** The responses that acknowledge a write. */
  ghost function Acknowledging(rs: seq<Response>): (s: set<int>) {
    set i | 0 <= i < |rs| && rs[i].success
  }

  /** The responses that bring a version. */
  ghost function Finding(rs: seq<Response>): (s: set<int>) {
    set i | 0 <= i < |rs| && rs[i].success && rs[i].found
  }

  lemma {:induction false} CountIsExact(rs: seq<Response>)
    ensures CountOf(rs, false) == |Acknowledging(rs)| && CountOf(rs, true) == |Finding(rs)|
  {
    if rs != [] {
      var init, n := rs[..|rs| - 1], |rs| - 1;
      CountIsExact(init);
      OneMoreResponse(rs, init, n);
    }
  }

  lemma OneMoreResponse(rs: seq<Response>, init: seq<Response>, n: int)
    requires rs != [] && n == |rs| - 1 && init == rs[..n]
    ensures |Acknowledging(rs)| == |Acknowledging(init)| + if rs[n].success then 1 else 0
    ensures |Finding(rs)| == |Finding(init)| + if rs[n].success && rs[n].found then 1 else 0
  {
    assert Acknowledging(rs) == if rs[n].success then Acknowledging(init) + {n} else Acknowledging(init);
    assert Finding(rs) == if rs[n].success && rs[n].found then Finding(init) + {n} else Finding(init);
  }

  /** The end of writeToReplicasWithHints: count the acknowledgements, decide. */
  method WriteOutcome(responses: seq<Response>, total: nat, level: Level) returns (success: bool, successCount: nat)
    ensures successCount == CountOf(responses, false) == |Acknowledging(responses)|
    ensures success <==> Enough(level, |Acknowledging(responses)|, total)
  {
    successCount := 0;
    for i := 0 to |responses|
      invariant successCount == CountOf(responses[..i], false)
    {
      assert responses[..i + 1][..i] == responses[..i];
      if responses[i].success {
        successCount := successCount + 1;
      }
    }
    assert responses[..|responses|] == responses;
    CountIsExact(responses);
    success := IsQuorumReached(successCount, total, level);
  }

  ghost function ReadResult(responses: seq<Response>, total: nat, level: Level): (r: Option<Response>) {
    if CountOf(responses, true) >= Required(level, total) then Choose(responses).latest else None
  }

  /** The end of readFromReplicasWithRepair: count the found answers, decide, choose. */
  method ReadOutcome(responses: seq<Response>, total: nat, level: Level) returns (result: Option<Response>)
    ensures result == ReadResult(responses, total, level)
    ensures result.Some? <==> Finding(responses) != {} && Enough(level, |Finding(responses)|, total)
    ensures result.Some? ==> result.value in responses && result.value.success && result.value.found
  {
    var successCount := 0;
    for i := 0 to |responses|
      invariant successCount == CountOf(responses[..i], true)
    {
      assert responses[..i + 1][..i] == responses[..i];
      if responses[i].success && responses[i].found {
        successCount := successCount + 1;
      }
    }
    assert responses[..|responses|] == responses;
    CountIsExact(responses);
    ChoosesAUsableResponse(responses);
    assert Choose(responses).latest.Some? <==> Finding(responses) != {} by { SomeFinding(responses); }
    if !IsQuorumReached(successCount, total, level) {
      return None;
    }
    var latest, hasConflict := DetectConflicts(responses);
    result := latest;
  }

  lemma SomeFinding(rs: seq<Response>)
    ensures Finding(rs) != {} <==> exists i :: 0 <= i < |rs| && rs[i].success && rs[i].found
  {
    if i :| 0 <= i < |rs| && rs[i].success && rs[i].found { assert i in Finding(rs); }
    if Finding(rs) != {} { var i :| i in Finding(rs); }
  }

  // ---------- writes and reads on the system ----------

  ghost predicate Distinct(rs: seq<Str>) {
    forall i, j :: 0 <= i < j < |rs| ==> rs[i] != rs[j]
  }

  ghost function Elems(rs: seq<Str>): (s: set<Str>) { set r | r in rs }

  /** One WriteKeyValue. `delivered` are the replicas the write reached, in order; a replica may
      be reached and yet not acknowledge in time. */
  datatype Write = Write(c: Str, key: Str, value: Str, replicas: seq<Str>, base: Option<Clock>, clock: Clock,
                         delivered: seq<Str>, acked: set<Str>, level: Level)

  /** A replica's answer to a read: found only if it holds a non-empty value. */
  ghost predicate Serves(s: State, replica: Str, key: Str, clock: Clock) {
    (replica, key) in s.store && s.store[(replica, key)].clock == clock && s.store[(replica, key)].value != []
  }

  ghost predicate WriteEnabled(s: State, w: Write) {
    && Distinct(w.replicas)
    && w.acked <= Elems(w.delivered) <= Elems(w.replicas)
    && (w.base.Some? ==> exists r :: r in w.replicas && Serves(s, r, w.key, w.base.value))
    && Issues(w.c, Counter(s, w.c), BaseOf(w.base), w.clock)
  }

  ghost predicate Succeeds(w: Write) {
    |w.acked| >= Required(w.level, |w.replicas|)
  }

  ghost function Deliveries(w: Write, n: nat): (steps: seq<Step>)
    requires n <= |w.delivered|
    ensures |steps| == n
  {
    seq(n, i requires 0 <= i < n => Deliver(w.delivered[i], w.key, Version(w.clock, w.value)))
  }

  ghost function WriteSteps(w: Write): (steps: seq<Step>) {
    [Issue(w.c, w.base, w.clock)] + Deliveries(w, |w.delivered|)
  }

  ghost function AfterWrite(s: State, w: Write): (s': State) {
    RunOf(s, WriteSteps(w))
  }

  /** What a write leaves behind: the replicas reached hold it, nothing else changed. */
  lemma {:induction false} RunAppend(s: State, steps: seq<Step>, step: Step)
    ensures RunOf(s, steps + [step]) == Apply(RunOf(s, steps), step)
    ensures IsRun(s, steps) && Enabled(RunOf(s, steps), step) ==> IsRun(s, steps + [step])
    decreases |steps|
  {
    if steps != [] {
      assert (steps + [step])[1..] == steps[1..] + [step];
      RunAppend(Apply(s, steps[0]), steps[1..], step);
    } else {
      assert [step][1..] == [];
    }
  }

  lemma {:induction false} DeliveriesEffect(s: State, w: Write, n: nat)
    requires n <= |w.delivered| && w.clock in s.issued
    ensures IsRun(s, Deliveries(w, n))
    ensures var s' := RunOf(s, Deliveries(w, n));
            && s'.issued == s.issued && s'.counters == s.counters
            && s'.store.Keys == s.store.Keys + (set r | r in w.delivered[..n] :: (r, w.key))
            && (forall r, k :: (r, k) in s'.store ==>
                  s'.store[(r, k)] ==
                    if k == w.key && r in w.delivered[..n] then Version(w.clock, w.value) else s.store[(r, k)])
  {
    if n > 0 {
      DeliveriesEffect(s, w, n - 1);
      var step := Deliver(w.delivered[n - 1], w.key, Version(w.clock, w.value));
      assert Deliveries(w, n) == Deliveries(w, n - 1) + [step];
      RunAppend(s, Deliveries(w, n - 1), step);
      assert w.delivered[..n] == w.delivered[..n - 1] + [w.delivered[n - 1]];
    } else {
      assert Deliveries(w, 0) == [];
      assert w.delivered[..0] == [];
    }
  }

  /** A write is a run of the system; the replicas reached hold it, nothing else changed. */
  lemma WriteEffect(s: State, w: Write)
    requires CountersLead(s) && WriteEnabled(s, w)
    ensures IsRun(s, WriteSteps(w)) && CountersLead(AfterWrite(s, w))
    ensures AfterWrite(s, w).issued == s.issued + {w.clock}
    ensures forall r, k :: (r, k) in AfterWrite(s, w).store <==> (r, k) in s.store || (k == w.key && r in w.delivered)
    ensures forall r, k :: (r, k) in AfterWrite(s, w).store ==>
                             AfterWrite(s, w).store[(r, k)] ==
                             if k == w.key && r in w.delivered then Version(w.clock, w.value) else s.store[(r, k)]
  {
    var issue := Issue(w.c, w.base, w.clock);
    assert Enabled(s, issue);
    var s1 := Apply(s, issue);
    assert WriteSteps(w)[1..] == Deliveries(w, |w.delivered|);
    DeliveriesEffect(s1, w, |w.delivered|);
    assert w.delivered[..|w.delivered|] == w.delivered;
    RunKeepsCountersLead(s, WriteSteps(w));
  }

  /** The answers a read may collect: at most one per replica, each usable one current. */
  ghost predicate Answers(s: State, key: Str, replicas: seq<Str>, responses: seq<Response>) {
    && OneEach(responses)
    && forall i :: 0 <= i < |responses| ==>
         var r := responses[i];
         r.node in replicas && r.timestamp == 0 && (Usable(r) ==> Delivers(s, key, r))
  }

  /** The response brings the version its replica stores. */
  ghost predicate Delivers(s: State, key: Str, r: Response) {
    Serves(s, r.node, key, r.clock) && s.store[(r.node, key)] == Version(r.clock, r.value)
  }

  /** Two sets of replicas too large to be disjoint share one. */
  lemma Overlap(a: set<Str>, b: set<Str>, all: set<Str>) returns (x: Str)
    requires a <= all && b <= all && |a| + |b| > |all|
    ensures x in a && x in b
  {
    if a !! b {
      assert |a + b| == |a| + |b|;
      Fits(a + b, all);
      assert false;
    }
    x :| x in a && x in b;
  }

  lemma {:induction false} Fits(a: set<Str>, all: set<Str>)
    requires a <= all
    ensures |a| <= |all|
  {
    if a != {} {
      var x :| x in a;
      Fits(a - {x}, all - {x});
    }
  }

  lemma {:induction false} DistinctCardinality(rs: seq<Str>)
    requires Distinct(rs)
    ensures |Elems(rs)| == |rs|
  {
    if rs != [] {
      var init := rs[..|rs| - 1];
      DistinctCardinality(init);
      assert Elems(rs) == Elems(init) + {rs[|rs| - 1]} by { assert rs == init + [rs[|rs| - 1]]; }
    }
  }

  /** A successful read hears from some replica of every large enough set. */
  lemma ReadMeets(s: State, key: Str, replicas: seq<Str>, responses: seq<Response>, level: Level, a: set<Str>)
    returns (r: Response)
    requires Distinct(replicas) && Answers(s, key, replicas, responses)
    requires ReadResult(responses, |replicas|, level).Some?
    requires a <= Elems(replicas) && |a| + Required(level, |replicas|) > |replicas|
    ensures r in responses && Usable(r) && r.node in a && Delivers(s, key, r)
  {
    CountIsCardinality(responses, true);
    DistinctCardinality(replicas);
    var x := Overlap(a, CountedNodes(responses, true), Elems(replicas));
    var i :| 0 <= i < |responses| && Counted(responses[i], true) && responses[i].node == x;
    r := responses[i];
  }

  /** The read's choice is not causally behind any usable answer. */
  lemma ReadIsMaximal(s: State, key: Str, replicas: seq<Str>, responses: seq<Response>, r: Response)
    requires Answers(s, key, replicas, responses) && r in responses && Usable(r)
    ensures Choose(responses).latest.Some?
    ensures var c := Choose(responses).latest.value;
            c in responses && Usable(c) && Relate(r.clock, c.clock) != After && Relate(c.clock, r.clock) != Before
  {
    assert TimestampsRespectCausality(responses);
    ChoosesAUsableResponse(responses);
    ChoiceIsMaximal(responses);
    OrderLaws(r.clock, Choose(responses).latest.value.clock, r.clock);
  }

  /** Overlapping levels: a read right after a successful write never returns an older clock. */
  lemma ReadAfterWrite(s: State, w: Write, responses: seq<Response>, level: Level)
    requires CountersLead(s) && WriteEnabled(s, w) && Succeeds(w)
    requires Required(w.level, |w.replicas|) + Required(level, |w.replicas|) > |w.replicas|
    requires Answers(AfterWrite(s, w), w.key, w.replicas, responses)
    requires ReadResult(responses, |w.replicas|, level).Some?
    ensures Relate(ReadResult(responses, |w.replicas|, level).value.clock, w.clock) != Before
  {
    WriteEffect(s, w);
    var s' := AfterWrite(s, w);
    var r := ReadMeets(s', w.key, w.replicas, responses, level, w.acked);
    assert r.clock == w.clock;
    ReadIsMaximal(s', w.key, w.replicas, responses, r);
  }

  // ---------- one coordinator, writes in sequence ----------

  /** Writes one after the other, successful or not. */
  ghost predicate WritesEnabled(s: State, ws: seq<Write>)
    decreases |ws|
  {
    ws == [] || (WriteEnabled(s, ws[0]) && WritesEnabled(AfterWrite(s, ws[0]), ws[1..]))
  }

  ghost function AfterWrites(s: State, ws: seq<Write>): (s': State)
    decreases |ws|
  {
    if ws == [] then s else AfterWrites(AfterWrite(s, ws[0]), ws[1..])
  }

  ghost predicate AllBy(c: Str, ws: seq<Write>) {
    forall i :: 0 <= i < |ws| ==> ws[i].c == c
  }

  /** Every clock counts the writes of `c` alone, so clocks are totally ordered. */
  ghost predicate OnlyCounts(s: State, c: Str) {
    CountersLead(s) && forall k, n :: k in s.issued && n != c ==> At(k, n) == 0
  }

  /** The replicas of `a` hold versions of `key` at or after `c`'s count `n`. */
  ghost predicate AllAtLeast(s: State, a: set<Str>, key: Str, c: Str, n: int) {
    forall r :: r in a ==> (r, key) in s.store && At(s.store[(r, key)].clock, c) >= n
  }

  lemma WriteKeepsOrder(s: State, w: Write)
    requires OnlyCounts(s, w.c) && WriteEnabled(s, w)
    ensures OnlyCounts(AfterWrite(s, w), w.c)
    ensures forall k :: k in s.issued ==> At(k, w.c) < At(w.clock, w.c)
  {
    WriteEffect(s, w);
    var issue := Issue(w.c, w.base, w.clock);
    assert Enabled(s, issue);
    forall n ensures At(w.clock, n) == if n == w.c then NextCounter(w.c, Counter(s, w.c), BaseOf(w.base)) else 0 {
      IssuedComponents(w.c, Counter(s, w.c), BaseOf(w.base), w.clock, n);
    }
    forall k | k in s.issued ensures At(k, w.c) < At(w.clock, w.c) {
      assert At(k, w.c) <= Counter(s, w.c);
    }
  }

  lemma {:induction false} WritesKeepOrder(s: State, ws: seq<Write>, c: Str, a: set<Str>, key: Str, n: int)
    requires OnlyCounts(s, c) && WritesEnabled(s, ws) && AllBy(c, ws) && AllAtLeast(s, a, key, c, n)
    ensures OnlyCounts(AfterWrites(s, ws), c) && AllAtLeast(AfterWrites(s, ws), a, key, c, n)
    decreases |ws|
  {
    if ws != [] {
      WriteEffect(s, ws[0]);
      WriteKeepsOrder(s, ws[0]);
      var s' := AfterWrite(s, ws[0]);
      forall r | r in a ensures (r, key) in s'.store && At(s'.store[(r, key)].clock, c) >= n {
        assert s.store[(r, key)].clock in s.issued;
      }
      WritesKeepOrder(s', ws[1..], c, a, key, n);
    }
  }

  /** With one coordinator and writes in sequence, a successful write stays visible to every
      overlapping read, whatever writes follow and however partially they fail. */
  lemma WriteStaysVisible(before: seq<Write>, w: Write, later: seq<Write>, responses: seq<Response>, level: Level)
    requires AllBy(w.c, before) && WritesEnabled(Init, before)
    requires WriteEnabled(AfterWrites(Init, before), w) && Succeeds(w)
    requires AllBy(w.c, later) && WritesEnabled(AfterWrite(AfterWrites(Init, before), w), later)
    requires Required(w.level, |w.replicas|) + Required(level, |w.replicas|) > |w.replicas|
    requires Answers(AfterWrites(AfterWrite(AfterWrites(Init, before), w), later), w.key, w.replicas, responses)
    requires ReadResult(responses, |w.replicas|, level).Some?
    ensures Leq(w.clock, ReadResult(responses, |w.replicas|, level).value.clock)
  {
    WritesKeepOrder(Init, before, w.c, {}, w.key, 0);
    var s := AfterWrites(Init, before);
    WriteEffect(s, w);
    WriteKeepsOrder(s, w);
    var n := At(w.clock, w.c);
    WritesKeepOrder(AfterWrite(s, w), later, w.c, w.acked, w.key, n);
    var s' := AfterWrites(AfterWrite(s, w), later);
    var r := ReadMeets(s', w.key, w.replicas, responses, level, w.acked);
    ReadIsMaximal(s', w.key, w.replicas, responses, r);
    var result := ReadResult(responses, |w.replicas|, level).value;
    OnlyCountsOrder(s', w.c, r.clock, result.clock);
    forall m ensures At(w.clock, m) <= At(result.clock, m) {
      IssuedComponents(w.c, Counter(s, w.c), BaseOf(w.base), w.clock, m);
      assert w.clock in AfterWrite(s, w).issued;
      assert result.clock in s'.issued;
    }
  }

  lemma OnlyCountsOrder(s: State, c: Str, k1: Clock, k2: Clock)
    requires OnlyCounts(s, c) && k1 in s.issued && k2 in s.issued
    ensures Relate(k1, k2) != After ==> At(k1, c) <= At(k2, c)
  {
    if At(k1, c) > At(k2, c) {
      assert forall n :: At(k2, n) <= At(k1, n);
    }
  }

  // ---------- many coordinators ----------

  /** The replicas of `a` hold versions of `key` that are not before `clock`. */
  ghost predicate NoneBehind(s: State, a: set<Str>, key: Str, clock: Clock) {
    forall r :: r in a ==> (r, key) in s.store && Relate(s.store[(r, key)].clock, clock) != Before
  }

  lemma {:induction false} WritesKeepNoneBehind(s: State, ws: seq<Write>, a: set<Str>, key: Str, clock: Clock)
    requires CountersLead(s) && WritesEnabled(s, ws) && clock in s.issued && NoneBehind(s, a, key, clock)
    ensures CountersLead(AfterWrites(s, ws)) && NoneBehind(AfterWrites(s, ws), a, key, clock)
    decreases |ws|
  {
    if ws != [] {
      var w := ws[0];
      WriteEffect(s, w);
      NewClockIsNew(s, Issue(w.c, w.base, w.clock));
      WritesKeepNoneBehind(AfterWrite(s, w), ws[1..], a, key, clock);
    }
  }

  /** With any number of coordinators writing in turn, an overlapping read that reports no
      conflict never returns a clock before an earlier successful write. */
  lemma ConflictFreeReadIsFresh(before: seq<Write>, w: Write, later: seq<Write>, responses: seq<Response>, level: Level)
    requires WritesEnabled(Init, before)
    requires WriteEnabled(AfterWrites(Init, before), w) && Succeeds(w)
    requires WritesEnabled(AfterWrite(AfterWrites(Init, before), w), later)
    requires Required(w.level, |w.replicas|) + Required(level, |w.replicas|) > |w.replicas|
    requires Answers(AfterWrites(AfterWrite(AfterWrites(Init, before), w), later), w.key, w.replicas, responses)
    requires ReadResult(responses, |w.replicas|, level).Some?
    ensures !Choose(responses).hasConflict ==>
        Relate(ReadResult(responses, |w.replicas|, level).value.clock, w.clock) != Before
  {
    AfterWritesLead(before);
    var s := AfterWrites(Init, before);
    WriteEffect(s, w);
    OrderLaws(w.clock, w.clock, w.clock);
    WritesKeepNoneBehind(AfterWrite(s, w), later, w.acked, w.key, w.clock);
    var s' := AfterWrites(AfterWrite(s, w), later);
    var r := ReadMeets(s', w.key, w.replicas, responses, level, w.acked);
    ConflictFlagIsRight(responses);
    ChoosesAUsableResponse(responses);
    var result := ReadResult(responses, |w.replicas|, level).value;
    if !Choose(responses).hasConflict && Relate(result.clock, w.clock) == Before {
      assert Leq(r.clock, result.clock);
      OrderLaws(r.clock, result.clock, w.clock);
      assert false;
    }
  }

  lemma AfterWritesLead(ws: seq<Write>)
    requires WritesEnabled(Init, ws)
    ensures CountersLead(AfterWrites(Init, ws))
  {
    LeadFrom(Init, ws);
  }

  lemma {:induction false} LeadFrom(s: State, ws: seq<Write>)
    requires CountersLead(s) && WritesEnabled(s, ws)
    ensures CountersLead(AfterWrites(s, ws))
    decreases |ws|
  {
    if ws != [] {
      WriteEffect(s, ws[0]);
      LeadFrom(AfterWrite(s, ws[0]), ws[1..]);
    }
  }

  // ---------- clocks name values ----------

  /** Wherever a clock identical to the write's is stored, it is the write's, with its key and value. */
  ghost predicate Only(s: State, w: Write) {
    forall r, k :: (r, k) in s.store && Relate(s.store[(r, k)].clock, w.clock) == Identical ==>
      k == w.key && s.store[(r, k)] == Version(w.clock, w.value)
  }

  lemma WriteIsAlone(s: State, w: Write)
    requires CountersLead(s) && WriteEnabled(s, w)
    ensures Only(AfterWrite(s, w), w)
  {
    WriteEffect(s, w);
    NewClockIsNew(s, Issue(w.c, w.base, w.clock));
  }

  lemma {:induction false} WriteStaysAlone(s: State, w: Write, later: seq<Write>)
    requires CountersLead(s) && WritesEnabled(s, later) && w.clock in s.issued && Only(s, w)
    ensures Only(AfterWrites(s, later), w)
    decreases |later|
  {
    if later != [] {
      var x := later[0];
      WriteEffect(s, x);
      NewClockIsNew(s, Issue(x.c, x.base, x.clock));
      WriteStaysAlone(AfterWrite(s, x), w, later[1..]);
    }
  }

  lemma {:induction false} EachIsAlone(s: State, ws: seq<Write>, i: nat)
    requires CountersLead(s) && WritesEnabled(s, ws) && i < |ws|
    ensures Only(AfterWrites(s, ws), ws[i])
    decreases |ws|
  {
    hide Only, WriteEnabled, CountersLead;
    WriteEffect(s, ws[0]);
    if i == 0 {
      WriteIsAlone(s, ws[0]);
      WriteStaysAlone(AfterWrite(s, ws[0]), ws[0], ws[1..]);
    } else {
      EachIsAlone(AfterWrite(s, ws[0]), ws[1..], i - 1);
    }
  }

  /** One of the writes put this version of the key on the replica. */
  ghost predicate Wrote(ws: seq<Write>, r: Str, k: Str, v: Version) {
    exists i :: 0 <= i < |ws| && ws[i].key == k && r in ws[i].delivered && v == Version(ws[i].clock, ws[i].value)
  }

  lemma {:induction false} StoredWasWritten(s: State, ws: seq<Write>, r: Str, k: Str)
    requires CountersLead(s) && WritesEnabled(s, ws) && (r, k) in AfterWrites(s, ws).store
    ensures var v := AfterWrites(s, ws).store[(r, k)];
            Wrote(ws, r, k, v) || ((r, k) in s.store && s.store[(r, k)] == v)
    decreases |ws|
  {
    hide WriteEnabled, CountersLead;
    if ws != [] {
      WriteEffect(s, ws[0]);
      var rest, v := ws[1..], AfterWrites(s, ws).store[(r, k)];
      StoredWasWritten(AfterWrite(s, ws[0]), rest, r, k);
      if Wrote(rest, r, k, v) {
        var i :| 0 <= i < |rest| && rest[i].key == k && r in rest[i].delivered
                 && v == Version(rest[i].clock, rest[i].value);
        assert ws[i + 1] == rest[i];
      } else if k == ws[0].key && r in ws[0].delivered {
        assert v == Version(ws[0].clock, ws[0].value);
      }
    }
  }

  /** After any writes of any coordinators, whatever a read returns was written to that key at that
      replica, and the clock says which value: every write with an identical clock wrote that one. */
  lemma ReadReturnsAWrittenValue(ws: seq<Write>, key: Str, replicas: seq<Str>, responses: seq<Response>, level: Level)
    requires WritesEnabled(Init, ws) && Answers(AfterWrites(Init, ws), key, replicas, responses)
    requires ReadResult(responses, |replicas|, level).Some?
    ensures var c := ReadResult(responses, |replicas|, level).value;
            && c.node in replicas && Wrote(ws, c.node, key, Version(c.clock, c.value))
            && forall i :: 0 <= i < |ws| && Relate(ws[i].clock, c.clock) == Identical ==>
                 ws[i].key == key && ws[i].value == c.value && ws[i].clock == c.clock
  {
    hide WritesEnabled, AfterWrites, Choose, Wrote, Relate;
    ChoosesAUsableResponse(responses);
    var s, c := AfterWrites(Init, ws), ReadResult(responses, |replicas|, level).value;
    assert Delivers(s, key, c);
    StoredWasWritten(Init, ws, c.node, key);
    forall i | 0 <= i < |ws| && Relate(ws[i].clock, c.clock) == Identical
      ensures ws[i].key == key && ws[i].value == c.value && ws[i].clock == c.clock
    {
      EachIsAlone(Init, ws, i);
      OrderLaws(ws[i].clock, c.clock, c.clock);
    }
  }

  /** One coordinator: an overlapping read right after a successful write returns just what it wrote. */
  lemma ReadReturnsTheWrite(before: seq<Write>, w: Write, responses: seq<Response>, level: Level)
    requires AllBy(w.c, before) && WritesEnabled(Init, before)
    requires WriteEnabled(AfterWrites(Init, before), w) && Succeeds(w)
    requires Required(w.level, |w.replicas|) + Required(level, |w.replicas|) > |w.replicas|
    requires Answers(AfterWrite(AfterWrites(Init, before), w), w.key, w.replicas, responses)
    requires ReadResult(responses, |w.replicas|, level).Some?
    ensures var c := ReadResult(responses, |w.replicas|, level).value; c.clock == w.clock && c.value == w.value
  {
    hide Choose, Required;
    WriteStaysVisible(before, w, [], responses, level);
    WritesKeepOrder(Init, before, w.c, {}, w.key, 0);
    var s := AfterWrites(Init, before);
    WriteEffect(s, w);
    WriteIsAlone(s, w);
    ChoosesAUsableResponse(responses);
    var c := ReadResult(responses, |w.replicas|, level).value;
    assert Delivers(AfterWrite(s, w), w.key, c);
    NewClockIsNew(s, Issue(w.c, w.base, w.clock));
    OrderLaws(w.clock, w.clock, w.clock);
  }

  // ---------- the hypotheses are needed ----------

  function Answer(node: Str, v: Version): (r: Response) {
    Response(node, true, true, v.value, v.clock, 0)
  }

  /** Levels that do not overlap: on any replica set some run lets a read right after a
      successful write return the version before it. */
  lemma DisjointLevelsCanMissAWrite(c: Str, key: Str, replicas: seq<Str>, w: Level, r: Level)
    requires Distinct(replicas) && replicas != []
    requires Required(w, |replicas|) + Required(r, |replicas|) <= |replicas|
    ensures exists first, second, responses ::
              && WriteEnabled(Init, first) && WriteEnabled(AfterWrite(Init, first), second)
              && second.level == w && second.key == key && second.replicas == replicas && Succeeds(second)
              && Answers(AfterWrite(AfterWrite(Init, first), second), key, replicas, responses)
              && ReadResult(responses, |replicas|, r).Some?
              && Relate(ReadResult(responses, |replicas|, r).value.clock, second.clock) == Before
  {
    var nw, nr := Required(w, |replicas|), Required(r, |replicas|);
    var first := FirstWrite(c, key, replicas);
    var s := AfterWrite(Init, first);
    var second := SecondWrite(s, c, key, replicas, w);
    var s' := AfterWrite(s, second);
    forall i | nw <= i < nw + nr ensures Serves(s', replicas[i], key, first.clock) {
      assert replicas[i] !in replicas[..nw];
    }
    var responses := StaleAnswers(s', key, replicas, nw, r, first.clock);
    assert Relate(first.clock, second.clock) == Before;
  }

  /** A first write that reaches every replica. */
  lemma FirstWrite(c: Str, key: Str, replicas: seq<Str>) returns (w: Write)
    requires Distinct(replicas)
    ensures WriteEnabled(Init, w) && w.c == c && w.clock == [Entry(c, 1)]
    ensures var s := AfterWrite(Init, w);
            CountersLead(s) && s.counters == map[c := 1] && forall r :: r in replicas ==> Serves(s, r, key, w.clock)
  {
    var k1: Clock := [Entry(c, 1)];
    TwoCounts(c, k1, [Entry(c, 2)]);
    w := Write(c, key, [0], replicas, None, k1, replicas, Elems(replicas), All);
    WriteEffect(Init, w);
    AfterFirst(w);
  }

  /** A second write on top of it that reaches just as many replicas as its level asks for. */
  lemma SecondWrite(s: State, c: Str, key: Str, replicas: seq<Str>, level: Level) returns (w: Write)
    requires Distinct(replicas) && replicas != [] && CountersLead(s) && s.counters == map[c := 1]
    requires Required(level, |replicas|) <= |replicas|
    requires forall r :: r in replicas ==> Serves(s, r, key, [Entry(c, 1)])
    ensures WriteEnabled(s, w) && w.c == c && w.level == level && w.key == key && w.replicas == replicas && Succeeds(w)
    ensures Relate([Entry(c, 1)], w.clock) == Before && CountersLead(AfterWrite(s, w))
    ensures AfterWrite(s, w).counters == map[c := 2]
    ensures forall r :: r in replicas && r !in replicas[..Required(level, |replicas|)] ==>
                          Serves(AfterWrite(s, w), r, key, [Entry(c, 1)])
  {
    var k1: Clock, k2: Clock := [Entry(c, 1)], [Entry(c, 2)];
    TwoCounts(c, k1, k2);
    var reached := replicas[..Required(level, |replicas|)];
    w := Write(c, key, [0], replicas, Some(k1), k2, reached, Elems(reached), level);
    assert Serves(s, replicas[0], key, k1) && replicas[0] in replicas;
    DistinctCardinality(reached);
    WriteEffect(s, w);
    assert WriteSteps(w)[1..] == Deliveries(w, |w.delivered|);
    DeliveriesEffect(Apply(s, Issue(c, w.base, w.clock)), w, |w.delivered|);
  }

  /** A read answered by the replicas from `from` on, all of which hold `k`. */
  lemma StaleAnswers(s: State, key: Str, replicas: seq<Str>, from: nat, level: Level, k: Clock)
    returns (responses: seq<Response>)
    requires Distinct(replicas) && replicas != [] && from + Required(level, |replicas|) <= |replicas|
    requires forall i :: from <= i < from + Required(level, |replicas|) ==> Serves(s, replicas[i], key, k)
    ensures Answers(s, key, replicas, responses)
    ensures ReadResult(responses, |replicas|, level).Some? && ReadResult(responses, |replicas|, level).value.clock == k
  {
    hide Required, Choose, CountOf;
    var nr := Required(level, |replicas|);
    responses := seq(nr, i requires 0 <= i < nr => Answer(replicas[from + i], s.store[(replicas[from + i], key)]));
    forall i | 0 <= i < nr
      ensures StaleAnswer(s, key, replicas, from, k, responses, i)
    {
      assert Serves(s, replicas[from + i], key, k) && replicas[from + i] in replicas;
      assert responses[i] == Answer(replicas[from + i], s.store[(replicas[from + i], key)]);
    }
    StaleAnswersServe(s, key, replicas, from, k, responses);
    CountAll(responses);
    assert Usable(responses[0]);
    ChoosesAUsableResponse(responses);
  }

  lemma StaleAnswersServe(s: State, key: Str, replicas: seq<Str>, from: nat, k: Clock, rs: seq<Response>)
    requires Distinct(replicas)
    requires forall i :: 0 <= i < |rs| ==> StaleAnswer(s, key, replicas, from, k, rs, i)
    ensures Answers(s, key, replicas, rs) && forall i :: 0 <= i < |rs| ==> Usable(rs[i]) && rs[i].clock == k
  {
    hide Delivers;
    forall i | 0 <= i < |rs|
      ensures from + i < |replicas| && rs[i].node == replicas[from + i] && rs[i].node in replicas
      ensures rs[i].timestamp == 0 && Usable(rs[i]) && rs[i].clock == k && Delivers(s, key, rs[i])
    {
      assert StaleAnswer(s, key, replicas, from, k, rs, i);
    }
  }

  ghost predicate StaleAnswer(s: State, key: Str, replicas: seq<Str>, from: nat, k: Clock, rs: seq<Response>, i: nat) {
    && i < |rs| && from + i < |replicas| && rs[i].node == replicas[from + i] && rs[i].node in replicas
    && Usable(rs[i]) && rs[i].clock == k && rs[i].timestamp == 0 && Delivers(s, key, rs[i])
  }

  lemma {:induction false} CountAll(rs: seq<Response>)
    requires forall i :: 0 <= i < |rs| ==> Usable(rs[i])
    ensures CountOf(rs, true) == |rs|
  {
    if rs != [] { CountAll(rs[..|rs| - 1]); }
  }

  lemma TwoCounts(c: Str, k1: Clock, k2: Clock)
    requires k1 == [Entry(c, 1)] && k2 == [Entry(c, 2)]
    ensures MapOf(k1) == map[c := 1] && MapOf(k2) == map[c := 2]
    ensures Relate(k1, k2) == Before
    ensures Issues(c, 0, [], k1) && Issues(c, 1, k1, k2)
  {
    SingleEntry(c, 1);
    SingleEntry(c, 2);
    assert At(k1, c) < At(k2, c);
  }

  lemma AfterFirst(w: Write)
    requires WriteEnabled(Init, w) && w.base.None?
    ensures AfterWrite(Init, w).counters == map[w.c := 1]
  {
    var issue := Issue(w.c, w.base, w.clock);
    assert WriteSteps(w)[1..] == Deliveries(w, |w.delivered|);
    DeliveriesEffect(Apply(Init, issue), w, |w.delivered|);
  }

  /** Two coordinators: a later write of another coordinator, whose own read failed, can make an
      overlapping read return a version before an earlier successful write. The read reports a
      conflict, as it must. StaleReads says exactly when this can happen. */
  lemma SecondCoordinatorCanHideAWrite(key: Str)
    ensures exists first: Write, second: Write, third: Write, responses: seq<Response> ::
              && WriteEnabled(Init, first) && WriteEnabled(AfterWrite(Init, first), second) && Succeeds(second)
              && second.level == Quorum && second.key == key && first.c == second.c != third.c
              && WriteEnabled(AfterWrite(AfterWrite(Init, first), second), third) && third.key == key
              && Answers(AfterWrite(AfterWrite(AfterWrite(Init, first), second), third),
                         key, second.replicas, responses)
              && ReadResult(responses, |second.replicas|, Quorum).Some?
              && Relate(ReadResult(responses, |second.replicas|, Quorum).value.clock, second.clock) == Before
  {
    hide AfterWrite, WriteEnabled, Choose, Relate, CountersLead, Required, ReadResult;
    var replicas: seq<Str> := [[1], [2], [3]];
    RequiredOfThree();
    assert replicas[..2] == [[1], [2]];
    var first := FirstWrite([1], key, replicas);
    var s1 := AfterWrite(Init, first);
    var second := SecondWrite(s1, [1], key, replicas, Quorum);
    var s2 := AfterWrite(s1, second);
    var third := ScratchWrite(s2, key, replicas);
    var s3 := AfterWrite(s2, third);
    assert replicas[2] == [3] && replicas[0] == [1];
    assert Serves(s2, [3], key, first.clock);
    assert Serves(s3, [3], key, first.clock) && Serves(s3, [1], key, third.clock);
    var r0, r1 := Answer([3], s3.store[([3], key)]), Answer([1], s3.store[([1], key)]);
    ConcurrentAnswers(replicas, r0, r1, first.clock, third.clock);
    assert Answers(s3, key, replicas, [r0, r1]);
  }

  lemma RequiredOfThree()
    ensures Required(Quorum, 3) == 2
  {
  }

  /** A write of coordinator [2] that found nothing to build on and reached two replicas. */
  lemma ScratchWrite(s: State, key: Str, replicas: seq<Str>) returns (w: Write)
    requires CountersLead(s) && s.counters == map[[1] := 2] && replicas == [[1], [2], [3]]
    ensures WriteEnabled(s, w) && w.c == [2] && w.key == key && w.clock == [Entry([2], 1)]
    ensures forall r, k :: (r, k) in AfterWrite(s, w).store <==> (r, k) in s.store || (k == key && r in w.delivered)
    ensures w.delivered == [[1], [2]] && w.value != []
    ensures forall r, k :: (r, k) in AfterWrite(s, w).store ==>
                             AfterWrite(s, w).store[(r, k)] ==
                             if k == w.key && r in w.delivered then Version(w.clock, w.value) else s.store[(r, k)]
  {
    TwoCounts([2], [Entry([2], 1)], [Entry([2], 2)]);
    w := Write([2], key, [0], replicas, None, [Entry([2], 1)], [[1], [2]], {[1], [2]}, Quorum);
    assert replicas[0] == [1] && replicas[1] == [2];
    WriteEffect(s, w);
  }

  lemma ConcurrentAnswers(replicas: seq<Str>, r0: Response, r1: Response, k: Clock, k': Clock)
    requires |replicas| == 3 && k == [Entry([1], 1)] && k' == [Entry([2], 1)]
    requires r0 == Answer([3], Version(k, r0.value)) && r1 == Answer([1], Version(k', r1.value))
    ensures ReadResult([r0, r1], 3, Quorum) == Some(r0)
  {
    SingleEntry([1], 1);
    SingleEntry([2], 1);
    assert At(k, [1]) > At(k', [1]) && At(k', [2]) > At(k, [2]);
    assert Relate(k', k) == Concurrent;
    assert [r0, r1][..1] == [r0] && [r0][..0] == [];
    assert Choose([r0]) == Choice(Some(r0), false);
    CountAll([r0, r1]);
  }
}
