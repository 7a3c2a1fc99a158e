/** Coordinators that restart: the local counter starts again at 0, while clocks stay around. */
module Restarts {
  import opened GoStrings
  import opened VectorClocks
  import opened Conflicts
  import opened Coordinator

  datatype Event = Take(step: Step) | Restart(c: Str)

  ghost function Next(s: State, e: Event): (s': State) {
    match e
    case Take(step) => Apply(s, step)
    case Restart(c) => s.(counters := s.counters - {c})
  }

  ghost function Reached(s: State, es: seq<Event>): (s': State) {
    if es == [] then s else Next(Reached(s, es[..|es| - 1]), es[|es| - 1])
  }

  ghost predicate IsHistory(s: State, es: seq<Event>) {
    es != [] ==>
      && IsHistory(s, es[..|es| - 1])
      && (es[|es| - 1].Take? ==> Enabled(Reached(s, es[..|es| - 1]), es[|es| - 1].step))
  }

  /** What survives restarts: counters and components are never negative. */
  ghost predicate NonNegatives(s: State) {
    && (forall c :: c in s.counters ==> s.counters[c] >= 0)
    && (forall k, n :: k in s.issued ==> At(k, n) >= 0)
  }

  lemma {:induction false} HistoryKeepsNonNegatives(s: State, es: seq<Event>)
    requires NonNegatives(s) && IsHistory(s, es)
    ensures NonNegatives(Reached(s, es))
    decreases |es|
  {
    if es != [] {
      var s0, e := Reached(s, es[..|es| - 1]), es[|es| - 1];
      HistoryKeepsNonNegatives(s, es[..|es| - 1]);
      if e.Take? && e.step.Issue? {
        var step := e.step;
        forall n ensures At(step.clock, n) >= 0 {
          IssuedComponents(step.c, Counter(s0, step.c), BaseOf(step.base), step.clock, n);
        }
      }
    }
  }

  /** In every history with restarts an issued clock is still after the one it was derived from; it
      is neither before nor identical to any clock in the system exactly if, against each of them,
      its own new component or a component of its base is ahead. */
  lemma IssuedClockIsNewIff(es: seq<Event>, step: Step)
    requires IsHistory(Init, es) && step.Issue? && Enabled(Reached(Init, es), step)
    ensures var s, base := Reached(Init, es), BaseOf(step.base);
            && (step.base.Some? ==> Relate(step.clock, step.base.value) == After)
            && ((forall k :: k in s.issued ==> !Leq(step.clock, k)) <==>
                forall k :: k in s.issued ==> Ahead(NextCounter(step.c, Counter(s, step.c), base), step.c, base, k))
  {
    var s, base, next := Reached(Init, es), BaseOf(step.base),
        NextCounter(step.c, Counter(Reached(Init, es), step.c), BaseOf(step.base));
    HistoryKeepsNonNegatives(Init, es);
    forall n ensures At(step.clock, n) == if n == step.c then next else At(base, n) {
      IssuedComponents(step.c, Counter(s, step.c), base, step.clock, n);
    }
    assert forall n :: At(base, n) <= At(step.clock, n);
    assert At(base, step.c) < At(step.clock, step.c);
    forall k | k in s.issued ensures !Leq(step.clock, k) <==> Ahead(next, step.c, base, k) {
      if Ahead(next, step.c, base, k) {
        if At(k, step.c) < next { assert At(step.clock, step.c) > At(k, step.c); }
        else { var n :| n != step.c && At(base, n) > At(k, n); assert At(step.clock, n) > At(k, n); }
      } else {
        forall n ensures At(step.clock, n) <= At(k, n) { }
      }
    }
  }

  /** What coordinator `c` issues on top of `base` at number `next` is ahead of `k` somewhere. */
  ghost predicate Ahead(next: int, c: Str, base: Clock, k: Clock) {
    At(k, c) < next || exists n :: n != c && At(base, n) > At(k, n)
  }

  /** The coordinator issues 1, 2 and 3, restarts, and builds on a stale read of 1: it issues 2
      again, which is identical to one clock in the system and before another. */
  lemma RestartRepeatsAClock(c: Str)
    ensures var one: Clock, two: Clock, three: Clock := [Entry(c, 1)], [Entry(c, 2)], [Entry(c, 3)];
            var es := [Take(Issue(c, None, one)), Take(Issue(c, Some(one), two)),
                       Take(Issue(c, Some(two), three)), Restart(c)];
            var s := Reached(Init, es);
            && IsHistory(Init, es) && Enabled(s, Issue(c, Some(one), two))
            && two in s.issued && three in s.issued && Relate(two, three) == Before
  {
    var one: Clock, two: Clock, three: Clock := [Entry(c, 1)], [Entry(c, 2)], [Entry(c, 3)];
    var e1, e2, e3, e4 := Take(Issue(c, None, one)), Take(Issue(c, Some(one), two)),
        Take(Issue(c, Some(two), three)), Restart(c);
    var es := [e1, e2, e3, e4];
    SingleEntry(c, 1);
    SingleEntry(c, 2);
    SingleEntry(c, 3);
    assert Issues(c, 0, [], one) && Issues(c, 1, one, two) && Issues(c, 2, two, three) && Issues(c, 0, one, two);
    assert At(two, c) < At(three, c);
    assert es[..3] == [e1, e2, e3] && [e1, e2, e3][..2] == [e1, e2] && [e1, e2][..1] == [e1] && [e1][..0] == [];
    var s1, s2, s3 := Apply(Init, e1.step), Apply(Apply(Init, e1.step), e2.step),
        Apply(Apply(Apply(Init, e1.step), e2.step), e3.step);
    assert Counter(Init, c) == 0 && BaseOf(e1.step.base) == [] && Enabled(Init, e1.step);
    assert Reached(Init, [e1]) == s1 && IsHistory(Init, [e1]);
    assert s1.counters == map[c := 1] && s1.issued == {one};
    assert Counter(s1, c) == 1 && Enabled(s1, e2.step);
    assert Reached(Init, [e1, e2]) == s2 && IsHistory(Init, [e1, e2]);
    assert s2.counters == map[c := 2] && s2.issued == {one, two};
    assert Counter(s2, c) == 2 && Enabled(s2, e3.step);
    assert Reached(Init, [e1, e2, e3]) == s3 && IsHistory(Init, [e1, e2, e3]);
    assert s3.issued == {one, two, three};
  }
}
