/** The coordinators' write and read protocol: counters, replicas, quorums. */
module Coordinator {
  import opened GoStrings
  import opened VectorClocks
  import opened Conflicts

  // ---------- consistency levels ----------

  datatype Level = One | Quorum | All

  /** The number of replicas that must answer at a consistency level: any one, all of them, or the
      least number that is more than half. */
  function Required(level: Level, total: nat): (n: nat)
    ensures level == One ==> n == 1
    ensures level == Quorum ==> 2 * (n - 1) <= total < 2 * n
    ensures level == All ==> n == total
    ensures total > 0 ==> 1 <= n <= total
  {
    match level
    case One => 1
    case All => total
    case Quorum => total / 2 + 1
  }

  /** `n` answers out of `total` are enough. */
  ghost predicate Enough(level: Level, n: nat, total: nat) {
    match level
    case One => n > 0
    case Quorum => 2 * n > total
    case All => n >= total
  }

  predicate IsQuorumReached(successCount: nat, total: nat, level: Level) {
    successCount >= Required(level, total)
  }

  /** Which pairs of levels always share a replica: any two quorums, and ALL with anything. */
  lemma OverlappingLevels(w: Level, r: Level, total: nat)
    requires total > 0
    ensures (w.All? || r.All? || (w.Quorum? && r.Quorum?)) ==> Required(w, total) + Required(r, total) > total
    ensures w.One? && r.One? && total > 1 ==> Required(w, total) + Required(r, total) <= total
  {
  }

  // ---------- issuing clocks ----------

  /** The counter a coordinator moves to when it issues a clock on top of `base`. */
  function NextCounter(c: Str, counter: int, base: Clock): (n: int)
    ensures n > counter && (c in MapOf(base) ==> n > MapOf(base)[c])
    ensures n == counter + 1 || (c in MapOf(base) && n == MapOf(base)[c] + 1)
  {
    if c in MapOf(base) && MapOf(base)[c] >= counter + 1 then MapOf(base)[c] + 1 else counter + 1
  }

  /** `clock` is what coordinator `c` may issue on top of `base`: the entries may come in any
      order, since they are read off a map. */
  ghost predicate Issues(c: Str, counter: int, base: Clock, clock: Clock) {
    UniqueIds(clock) && MapOf(clock) == MapOf(base)[c := NextCounter(c, counter, base)]
  }

  /** The local clock of one coordinator. */
  class VectorClockService {
    const nodeID: Str
    var localTimestamp: int

    constructor (nodeID: Str)
      ensures this.nodeID == nodeID && localTimestamp == 0
    {
      this.nodeID, localTimestamp := nodeID, 0;
    }

    /** Increment: a clock for a key not seen before. */
    method Increment() returns (clock: Clock)
      modifies this
      ensures Issues(nodeID, old(localTimestamp), [], clock)
      ensures localTimestamp == NextCounter(nodeID, old(localTimestamp), [])
    {
      localTimestamp := localTimestamp + 1;
      clock := [Entry(nodeID, localTimestamp)];
      SingleEntry(nodeID, localTimestamp);
    }

    /** IncrementFrom: a clock on top of the one that was read. */
    method IncrementFrom(existing: Clock) returns (clock: Clock)
      modifies this
      ensures Issues(nodeID, old(localTimestamp), existing, clock)
      ensures localTimestamp == NextCounter(nodeID, old(localTimestamp), existing)
    {
      localTimestamp := localTimestamp + 1;
      var vcMap := ToMap(existing);
      if nodeID in vcMap {
        var existingTS := vcMap[nodeID];
        if existingTS >= localTimestamp {
          localTimestamp := existingTS + 1;
        }
      }
      vcMap := vcMap[nodeID := localTimestamp];
      clock := FromMap(vcMap);
    }
  }

  // ---------- the system ----------

  datatype Version = Version(clock: Clock, value: Str)

  /** All coordinators' counters, every clock issued so far, and what each replica stores. */
  datatype State = State(counters: map<Str, int>, issued: set<Clock>, store: map<(Str, Str), Version>)

  function Counter(s: State, c: Str): (n: int) { Get(s.counters, c) }

  /** A step of some coordinator or replica. The steps of concurrent writes interleave freely:
      a clock may be issued on top of any clock ever issued, and reach a replica at any time. */
  datatype Step =
    | Issue(c: Str, base: Option<Clock>, clock: Clock)
    | Deliver(replica: Str, key: Str, version: Version)

  function BaseOf(base: Option<Clock>): (c: Clock) {
    if base.Some? then base.value else []
  }

  ghost predicate Enabled(s: State, step: Step) {
    match step
    case Issue(c, base, clock) =>
      (base.Some? ==> base.value in s.issued) && Issues(c, Counter(s, c), BaseOf(base), clock)
    case Deliver(replica, key, version) => version.clock in s.issued
  }

  ghost function Apply(s: State, step: Step): (s': State) {
    match step
    case Issue(c, base, clock) =>
      s.(counters := s.counters[c := NextCounter(c, Counter(s, c), BaseOf(base))], issued := s.issued + {clock})
    case Deliver(replica, key, version) =>
      s.(store := s.store[(replica, key) := version])
  }

  const Init := State(map[], {}, map[])

  ghost predicate IsRun(s: State, steps: seq<Step>)
    decreases |steps|
  {
    steps == [] || (Enabled(s, steps[0]) && IsRun(Apply(s, steps[0]), steps[1..]))
  }

  ghost function RunOf(s: State, steps: seq<Step>): (s': State)
    decreases |steps|
  {
    if steps == [] then s else RunOf(Apply(s, steps[0]), steps[1..])
  }

  /** No clock is ahead of its coordinators' counters, and replicas hold issued clocks. */
  ghost predicate CountersLead(s: State) {
    && (forall c :: c in s.counters ==> s.counters[c] >= 0)
    && (forall k, c :: k in s.issued ==> 0 <= At(k, c) <= Counter(s, c))
    && (forall rk :: rk in s.store ==> s.store[rk].clock in s.issued)
  }

  /** What issuing does to the components. */
  lemma IssuedComponents(c: Str, counter: int, base: Clock, clock: Clock, n: Str)
    requires Issues(c, counter, base, clock)
    ensures At(clock, n) == if n == c then NextCounter(c, counter, base) else At(base, n)
  {
  }

  lemma StepKeepsCountersLead(s: State, step: Step)
    requires CountersLead(s) && Enabled(s, step)
    ensures CountersLead(Apply(s, step))
    ensures s.issued <= Apply(s, step).issued
  {
    var s' := Apply(s, step);
    if step.Issue? {
      var base := BaseOf(step.base);
      forall k, c | k in s'.issued ensures 0 <= At(k, c) <= Counter(s', c) {
        CounterGrows(s, step, c);
        if k !in s.issued {
          IssuedComponents(step.c, Counter(s, step.c), base, step.clock, c);
          if step.base.Some? { assert 0 <= At(base, c) <= Counter(s, c); }
        }
      }
    }
  }

  lemma CounterGrows(s: State, step: Step, c: Str)
    requires CountersLead(s) && step.Issue? && Enabled(s, step)
    ensures Counter(s, c) <= Counter(Apply(s, step), c)
    ensures NextCounter(step.c, Counter(s, step.c), BaseOf(step.base)) > Counter(s, step.c)
  {
  }

  /** A clock issued in a run is after the clock it was derived from, and neither before nor
      identical to any clock already in the system. */
  lemma NewClockIsNew(s: State, step: Step)
    requires CountersLead(s) && Enabled(s, step) && step.Issue?
    ensures step.base.Some? ==> Relate(step.clock, step.base.value) == After
    ensures forall k :: k in s.issued ==> !Leq(step.clock, k)
  {
    var base := BaseOf(step.base);
    CounterGrows(s, step, step.c);
    forall k | k in s.issued ensures !Leq(step.clock, k) {
      IssuedComponents(step.c, Counter(s, step.c), base, step.clock, step.c);
      assert At(k, step.c) <= Counter(s, step.c);
      assert At(step.clock, step.c) > At(k, step.c);
    }
    if step.base.Some? {
      forall n ensures At(base, n) <= At(step.clock, n) {
        IssuedComponents(step.c, Counter(s, step.c), base, step.clock, n);
        assert At(base, n) <= Counter(s, n);
      }
    }
  }

  lemma {:induction false} RunKeepsCountersLead(s: State, steps: seq<Step>)
    requires CountersLead(s) && IsRun(s, steps)
    ensures CountersLead(RunOf(s, steps)) && s.issued <= RunOf(s, steps).issued
    decreases |steps|
  {
    if steps != [] {
      StepKeepsCountersLead(s, steps[0]);
      RunKeepsCountersLead(Apply(s, steps[0]), steps[1..]);
    }
  }

  /** Over every run of distinctly named coordinators that never restart. */
  lemma EveryIssuedClockIsNew(steps: seq<Step>, step: Step)
    requires IsRun(Init, steps) && Enabled(RunOf(Init, steps), step) && step.Issue?
    ensures var s := RunOf(Init, steps);
            && CountersLead(s)
            && (step.base.Some? ==> Relate(step.clock, step.base.value) == After)
            && (forall k :: k in s.issued ==> Relate(step.clock, k) == After || Relate(step.clock, k) == Concurrent)
  {
    RunKeepsCountersLead(Init, steps);
    NewClockIsNew(RunOf(Init, steps), step);
  }
}
