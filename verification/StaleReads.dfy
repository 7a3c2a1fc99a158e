/** Exactly which versions a quorum read may return, and so when it can miss a write. */
module StaleReads {
  import opened GoStrings
  import opened VectorClocks
  import opened Conflicts
  import opened Coordinator
  import opened Quorums

  /** The replica answers a read of `key` with a version. */
  ghost predicate Holds(s: State, replica: Str, key: Str) {
    (replica, key) in s.store && s.store[(replica, key)].value != []
  }

  ghost function ClockAt(s: State, replica: Str, key: Str): (k: Clock)
    requires Holds(s, replica, key)
    ensures Serves(s, replica, key, k)
  {
    s.store[(replica, key)].clock
  }

  /** The replicas whose answers would not displace version `k`. */
  ghost function NotAfter(s: State, key: Str, replicas: seq<Str>, k: Clock): (a: set<Str>) {
    set r | r in replicas && Holds(s, r, key) && Relate(ClockAt(s, r, key), k) != After
  }

  /** Some answers of the replicas make a read at this level return version `v`. */
  ghost predicate CanReturn(s: State, key: Str, replicas: seq<Str>, level: Level, v: Version) {
    exists responses :: Answers(s, key, replicas, responses) && Returns(responses, |replicas|, level, v)
  }

  ghost predicate Returns(responses: seq<Response>, total: nat, level: Level, v: Version) {
    var r := ReadResult(responses, total, level);
    r.Some? && Version(r.value.clock, r.value.value) == v
  }

  /** Some replica stores `v` and answers with it. */
  ghost predicate Stored(s: State, key: Str, replicas: seq<Str>, v: Version) {
    exists p :: p in replicas && Holds(s, p, key) && s.store[(p, key)] == v
  }

  /** A read may return a version exactly if some replica holds it and as many replicas as the level
      asks for hold versions that are not causally after it. */
  lemma CanReturnIff(s: State, key: Str, replicas: seq<Str>, level: Level, v: Version)
    ensures CanReturn(s, key, replicas, level, v) <==>
            Stored(s, key, replicas, v) && Enough(level, |NotAfter(s, key, replicas, v.clock)|, |replicas|)
  {
    hide Relate, Choose;
    if CanReturn(s, key, replicas, level, v) {
      var responses :| Answers(s, key, replicas, responses) && Returns(responses, |replicas|, level, v);
      ReturnedIsBacked(s, key, replicas, responses, level);
    }
    if Stored(s, key, replicas, v) && Enough(level, |NotAfter(s, key, replicas, v.clock)|, |replicas|) {
      var p :| p in replicas && Holds(s, p, key) && s.store[(p, key)] == v;
      OrderLaws(v.clock, v.clock, v.clock);
      assert p in NotAfter(s, key, replicas, v.clock);
      var responses := BackingAnswers(s, key, replicas, NotAfter(s, key, replicas, v.clock), p);
      assert Returns(responses, |replicas|, level, v);
    }
  }

  lemma ReturnedIsBacked(s: State, key: Str, replicas: seq<Str>, responses: seq<Response>, level: Level)
    requires Answers(s, key, replicas, responses) && ReadResult(responses, |replicas|, level).Some?
    ensures var c := ReadResult(responses, |replicas|, level).value;
            && c.node in replicas && Delivers(s, key, c)
            && |NotAfter(s, key, replicas, c.clock)| >= Required(level, |replicas|)
  {
    hide Relate, Choose, Required;
    var c := ReadResult(responses, |replicas|, level).value;
    ChoosesAUsableResponse(responses);
    CountIsCardinality(responses, true);
    forall n | n in CountedNodes(responses, true) ensures n in NotAfter(s, key, replicas, c.clock) {
      var i :| 0 <= i < |responses| && Counted(responses[i], true) && responses[i].node == n;
      ReadIsMaximal(s, key, replicas, responses, responses[i]);
    }
    Fits(CountedNodes(responses, true), NotAfter(s, key, replicas, c.clock));
  }

  /** Answers of all replicas in `a`, with `p` first: nothing displaces its version. */
  lemma {:induction false} BackingAnswers(s: State, key: Str, replicas: seq<Str>, a: set<Str>, p: Str)
    returns (responses: seq<Response>)
    requires p in a && Holds(s, p, key) && a <= NotAfter(s, key, replicas, ClockAt(s, p, key))
    ensures Answers(s, key, replicas, responses) && CountOf(responses, true) == |a|
    ensures forall i :: 0 <= i < |responses| ==> responses[i].node in a
    ensures Choose(responses).latest == Some(Answer(p, s.store[(p, key)]))
    decreases |a|
  {
    hide Relate;
    var first := Answer(p, s.store[(p, key)]);
    if a - {p} == {} {
      assert a == {p};
      responses := [first];
      assert responses[..0] == [];
    } else {
      var x :| x in a - {p};
      var init := BackingAnswers(s, key, replicas, a - {x}, p);
      var r := Answer(x, s.store[(x, key)]);
      responses := init + [r];
      assert responses[..|init|] == init;
    }
  }

  /** No overlapping or other condition on levels is assumed: reads at this level never return
      something before `w` exactly if every replica that holds such a version is outvoted, that is,
      too few replicas hold versions that are not after it. */
  lemma ReadsAreFreshIff(s: State, key: Str, replicas: seq<Str>, level: Level, w: Clock)
    ensures (forall responses :: Answers(s, key, replicas, responses) ==> Fresh(responses, |replicas|, level, w)) <==>
            forall p :: p in replicas && Behind(s, p, key, w) ==>
              |NotAfter(s, key, replicas, ClockAt(s, p, key))| < Required(level, |replicas|)
  {
    hide Relate, Choose, Required, NotAfter, Answers;
    if p :| && p in replicas && Behind(s, p, key, w)
            && |NotAfter(s, key, replicas, ClockAt(s, p, key))| >= Required(level, |replicas|) {
      var v := s.store[(p, key)];
      CanReturnIff(s, key, replicas, level, v);
      var responses :| Answers(s, key, replicas, responses) && Returns(responses, |replicas|, level, v);
      assert !Fresh(responses, |replicas|, level, w);
    }
    if responses :| Answers(s, key, replicas, responses) && !Fresh(responses, |replicas|, level, w) {
      ReturnedIsBacked(s, key, replicas, responses, level);
      assert Behind(s, ReadResult(responses, |replicas|, level).value.node, key, w);
    }
  }

  ghost predicate Fresh(responses: seq<Response>, total: nat, level: Level, w: Clock) {
    ReadResult(responses, total, level).Some? ==> Relate(ReadResult(responses, total, level).value.clock, w) != Before
  }

  /** The replica holds a version before `w`. */
  ghost predicate Behind(s: State, replica: Str, key: Str, w: Clock) {
    Holds(s, replica, key) && Relate(ClockAt(s, replica, key), w) == Before
  }

  /** After a write and any later writes of any coordinators: some read returns a version before the
      write exactly if some replica holds such a version and enough replicas do not displace it. Such a
      version survives only next to concurrent ones: every replica that acknowledged the write and
      would not displace it holds a version concurrent with it. */
  lemma LaterWritesHideAWriteIff(before: seq<Write>, w: Write, later: seq<Write>, level: Level)
    requires WritesEnabled(Init, before) && WriteEnabled(AfterWrites(Init, before), w)
    requires WritesEnabled(AfterWrite(AfterWrites(Init, before), w), later)
    ensures var s := AfterWrites(AfterWrite(AfterWrites(Init, before), w), later);
            && ((exists responses ::
                   Answers(s, w.key, w.replicas, responses) && !Fresh(responses, |w.replicas|, level, w.clock)) <==>
                exists p ::
                  && p in w.replicas && Behind(s, p, w.key, w.clock)
                  && |NotAfter(s, w.key, w.replicas, ClockAt(s, p, w.key))| >= Required(level, |w.replicas|))
            && (forall p, q ::
                  && Behind(s, p, w.key, w.clock) && q in w.acked
                  && q in NotAfter(s, w.key, w.replicas, ClockAt(s, p, w.key)) ==>
                  Relate(ClockAt(s, q, w.key), ClockAt(s, p, w.key)) == Concurrent)
  {
    var s := AfterWrites(AfterWrite(AfterWrites(Init, before), w), later);
    ReadsAreFreshIff(s, w.key, w.replicas, level, w.clock);
    AckedAreNotBehind(before, w, later);
    hide AfterWrite, AfterWrites, WriteEnabled, WritesEnabled, Relate;
    forall p, q | Behind(s, p, w.key, w.clock) && q in w.acked
        && q in NotAfter(s, w.key, w.replicas, ClockAt(s, p, w.key))
      ensures Relate(ClockAt(s, q, w.key), ClockAt(s, p, w.key)) == Concurrent
    {
      OrderLaws(ClockAt(s, q, w.key), ClockAt(s, p, w.key), w.clock);
    }
  }

  lemma AckedAreNotBehind(before: seq<Write>, w: Write, later: seq<Write>)
    requires WritesEnabled(Init, before) && WriteEnabled(AfterWrites(Init, before), w)
    requires WritesEnabled(AfterWrite(AfterWrites(Init, before), w), later)
    ensures NoneBehind(AfterWrites(AfterWrite(AfterWrites(Init, before), w), later), w.acked, w.key, w.clock)
  {
    AfterWritesLead(before);
    WriteEffect(AfterWrites(Init, before), w);
    OrderLaws(w.clock, w.clock, w.clock);
    WritesKeepNoneBehind(AfterWrite(AfterWrites(Init, before), w), later, w.acked, w.key, w.clock);
  }
}
