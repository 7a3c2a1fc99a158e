/** Choosing the latest of several replica responses. */
module Conflicts {
  import opened GoStrings
  import opened VectorClocks

  datatype Response = Response(node: Str, success: bool, found: bool, value: Str, clock: Clock, timestamp: int)

  predicate Usable(r: Response) { r.success && r.found }

  datatype Choice = Choice(latest: Option<Response>, hasConflict: bool)

  /** How one more response changes the running choice. */
  ghost function Consider(c: Choice, r: Response): (c': Choice) {
    if !Usable(r) then c
    else if c.latest.None? then c.(latest := Some(r))
    else match Relate(r.clock, c.latest.value.clock)
         case After => c.(latest := Some(r))
         case Concurrent =>
           Choice(if r.timestamp > c.latest.value.timestamp then Some(r) else c.latest, true)
         case _ => c
  }

  ghost function Choose(rs: seq<Response>): (c: Choice) {
    if rs == [] then Choice(None, false)
    else Consider(Choose(rs[..|rs| - 1]), rs[|rs| - 1])
  }

  /** DetectConflicts: an order-dependent fold over the responses. */
  method DetectConflicts(responses: seq<Response>) returns (latest: Option<Response>, hasConflict: bool)
    ensures Choice(latest, hasConflict) == Choose(responses)
  {
    if |responses| == 0 {
      return None, false;
    }
    latest, hasConflict := None, false;
    for i := 0 to |responses|
      invariant Choice(latest, hasConflict) == Choose(responses[..i])
      invariant latest.None? ==> !hasConflict
    {
      assert responses[..i + 1][..i] == responses[..i];
      var resp := responses[i];
      if !resp.success || !resp.found {
        continue;
      }
      if latest.None? {
        latest := Some(resp);
        continue;
      }
      var comparison := Compare(resp.clock, latest.value.clock);
      match comparison {
        case After => latest := Some(resp);
        case Before => continue;
        case Concurrent =>
          hasConflict := true;
          if resp.timestamp > latest.value.timestamp {
            latest := Some(resp);
          }
        case Identical => continue;
      }
    }
    assert responses[..|responses|] == responses;
    if latest.None? {
      return None, false;
    }
  }

  /** Something is chosen exactly when some response is usable, and it is one of those. */
  lemma {:induction false} ChoosesAUsableResponse(rs: seq<Response>)
    ensures Choose(rs).latest.Some? <==> exists i :: 0 <= i < |rs| && rs[i].success && rs[i].found
    ensures Choose(rs).latest.Some? ==>
        Choose(rs).latest.value in rs && Choose(rs).latest.value.success && Choose(rs).latest.value.found
  {
    if rs != [] {
      ChoosesAUsableResponse(rs[..|rs| - 1]);
      assert forall i :: 0 <= i < |rs| - 1 ==> rs[..|rs| - 1][i] == rs[i];
    }
  }

  /** Without a conflict the choice is at or after every usable response; with one, two usable
      responses are concurrent. This needs nothing of the timestamps. */
  lemma {:induction false} ConflictFlagIsRight(rs: seq<Response>)
    ensures var c := Choose(rs);
            && (!c.hasConflict ==>
                  forall r :: r in rs && Usable(r) ==> c.latest.Some? && Leq(r.clock, c.latest.value.clock))
            && (c.hasConflict ==> exists r1, r2 :: r1 in rs && r2 in rs && Usable(r1) && Usable(r2)
                                                   && Relate(r1.clock, r2.clock) == Concurrent)
  {
    if rs != [] {
      var init, r := rs[..|rs| - 1], rs[|rs| - 1];
      ConflictFlagIsRight(init);
      ChoosesAUsableResponse(init);
      assert rs == init + [r];
      var c, c' := Choose(init), Choose(rs);
      if c'.hasConflict {
        if c.hasConflict {
          var r1, r2 :| r1 in init && r2 in init && Usable(r1) && Usable(r2)
            && Relate(r1.clock, r2.clock) == Concurrent;
          assert r1 in rs && r2 in rs;
        } else {
          assert r in rs && c.latest.value in rs;
        }
      } else {
        forall x | x in rs && Usable(x) ensures c'.latest.Some? && Leq(x.clock, c'.latest.value.clock) {
          if x in init { OrderLaws(x.clock, c.latest.value.clock, c'.latest.value.clock); }
        }
      }
    }
  }

  /** A causally later response never carries an earlier timestamp. All-equal timestamps qualify. */
  ghost predicate TimestampsRespectCausality(rs: seq<Response>) {
    forall r1, r2 {:trigger Relate(r1.clock, r2.clock)} ::
      r1 in rs && r2 in rs && Usable(r1) && Usable(r2) && Relate(r1.clock, r2.clock) == After
      ==> r1.timestamp >= r2.timestamp
  }

  /** No usable response is causally after `r`. */
  ghost predicate Maximal(rs: seq<Response>, r: Response) {
    forall x {:trigger Relate(x.clock, r.clock)} :: x in rs && Usable(x) ==> Relate(x.clock, r.clock) != After
  }

  /** The version `x` was seen at a timestamp no later than `t`. */
  ghost predicate SeenAt(rs: seq<Response>, x: Response, t: int) {
    exists y :: y in rs && Usable(y) && Relate(y.clock, x.clock) == Identical && y.timestamp <= t
  }

  ghost predicate SeenBy(rs: seq<Response>, t: int) {
    forall x {:trigger SeenAt(rs, x, t)} :: x in rs && Usable(x) ==> SeenAt(rs, x, t)
  }

  /** Whatever the order of the responses, the choice is causally maximal. */
  lemma {:induction false} ChoiceIsMaximal(rs: seq<Response>)
    requires TimestampsRespectCausality(rs)
    ensures var c := Choose(rs); c.latest.Some? ==> Maximal(rs, c.latest.value) && SeenBy(rs, c.latest.value.timestamp)
  {
    hide Relate, SeenAt;
    if rs != [] {
      var init, r := rs[..|rs| - 1], rs[|rs| - 1];
      assert rs == init + [r];
      ChoiceIsMaximal(init);
      ChoosesAUsableResponse(init);
      var c := Choose(init);
      if !Usable(r) {
        if c.latest.Some? {
          var t := c.latest.value.timestamp;
          forall x | x in rs && Usable(x) ensures SeenAt(rs, x, t) { SeenAtGrows(init, rs, x, t, t); }
        }
      } else if c.latest.None? {
        NewestSeen(rs, r, r, r);
        assert forall x :: x in rs && Usable(x) ==> x == r;
      } else {
        ChoiceStep(init, r, c.latest.value);
      }
    }
  }

  lemma SeenAtGrows(init: seq<Response>, rs: seq<Response>, x: Response, t: int, t': int)
    requires SeenAt(init, x, t) && t <= t'
    requires forall y :: y in init ==> y in rs
    ensures SeenAt(rs, x, t')
  {
    hide Relate;
    var y :| y in init && Usable(y) && Relate(y.clock, x.clock) == Identical && y.timestamp <= t;
    assert y in rs;
  }

  lemma ChoiceStep(init: seq<Response>, r: Response, l: Response)
    requires TimestampsRespectCausality(init + [r])
    requires Usable(r) && Usable(l) && l in init
    requires Maximal(init, l) && SeenBy(init, l.timestamp)
    ensures var l' := Consider(Choice(Some(l), false), r).latest.value;
            Maximal(init + [r], l') && SeenBy(init + [r], l'.timestamp)
  {
    hide Relate, SeenAt;
    var rs := init + [r];
    var l' := Consider(Choice(Some(l), false), r).latest.value;
    assert l'.timestamp >= l.timestamp by { assert r in rs && l in rs; }
    forall x | x in rs && Usable(x) ensures SeenAt(rs, x, l'.timestamp) {
      if x in init {
        SeenAtGrows(init, rs, x, l.timestamp, l'.timestamp);
      } else {
        NewestSeen(rs, r, l, l');
      }
    }
    forall x | x in rs && Usable(x) ensures Relate(x.clock, l'.clock) != After {
      if x in init { OldStaysBelow(rs, init, r, l, x); } else { OrderLaws(r.clock, l.clock, r.clock); }
    }
  }

  lemma NewestSeen(rs: seq<Response>, r: Response, l: Response, l': Response)
    requires TimestampsRespectCausality(rs) && r in rs && l in rs && Usable(r) && Usable(l)
    requires l' == Consider(Choice(Some(l), false), r).latest.value
    ensures SeenAt(rs, r, l'.timestamp)
  {
    OrderLaws(r.clock, l.clock, l.clock);
    OrderLaws(l.clock, r.clock, r.clock);
    OrderLaws(r.clock, r.clock, r.clock);
    if r.timestamp <= l'.timestamp {
      assert Relate(r.clock, r.clock) == Identical;
    } else {
      assert Relate(l.clock, r.clock) == Identical;
    }
  }

  lemma OldStaysBelow(rs: seq<Response>, init: seq<Response>, r: Response, l: Response, x: Response)
    requires TimestampsRespectCausality(rs) && rs == init + [r]
    requires Usable(r) && Usable(l) && Usable(x) && l in init && x in init
    requires Relate(x.clock, l.clock) != After && SeenAt(init, x, l.timestamp)
    ensures Relate(x.clock, Consider(Choice(Some(l), false), r).latest.value.clock) != After
  {
    OrderLaws(l.clock, r.clock, x.clock);
    OrderLaws(r.clock, x.clock, l.clock);
    OrderLaws(x.clock, l.clock, r.clock);
    var y :| y in init && Usable(y) && Relate(y.clock, x.clock) == Identical && y.timestamp <= l.timestamp;
    OrderLaws(y.clock, x.clock, r.clock);
    assert y in rs && r in rs;
  }

  /** With timestamps that contradict causality the choice need not be maximal. No caller passes such
      a list: read responses carry no timestamps, so all of them are 0. */
  lemma ChoiceCanBeStale()
    ensures var rs := [Response([], true, true, [], [Entry([2], 2)], 0),
                       Response([], true, true, [], [Entry([1], 1)], 1),
                       Response([], true, true, [], [Entry([2], 1)], 2)];
            && !TimestampsRespectCausality(rs)
            && Choose(rs).latest == Some(rs[2]) && Relate(rs[0].clock, rs[2].clock) == After
  {
    var b2: Clock, a1: Clock, b1: Clock := [Entry([2], 2)], [Entry([1], 1)], [Entry([2], 1)];
    StaleClocks(b2, a1, b1);
    hide Relate;
    var r0 := Response([], true, true, [], b2, 0);
    var r1 := Response([], true, true, [], a1, 1);
    var r2 := Response([], true, true, [], b1, 2);
    var rs := [r0, r1, r2];
    ChooseThree(r0, r1, r2);
    assert rs[0] in rs && rs[2] in rs;
  }

  lemma ChooseThree(r0: Response, r1: Response, r2: Response)
    ensures Choose([r0, r1, r2]) == Consider(Consider(Consider(Choice(None, false), r0), r1), r2)
  {
    hide Consider;
    assert [r0, r1, r2][..2] == [r0, r1] && [r0, r1][..1] == [r0] && [r0][..0] == [];
    assert Choose([r0]) == Consider(Choice(None, false), r0);
    assert Choose([r0, r1]) == Consider(Choose([r0]), r1);
  }

  lemma StaleClocks(b2: Clock, a1: Clock, b1: Clock)
    requires b2 == [Entry([2], 2)] && a1 == [Entry([1], 1)] && b1 == [Entry([2], 1)]
    ensures Relate(b2, b1) == After && Relate(a1, b2) == Concurrent && Relate(b1, a1) == Concurrent
  {
    SingleEntry([2], 2);
    SingleEntry([1], 1);
    SingleEntry([2], 1);
    assert At(b2, [2]) > At(b1, [2]) > At(a1, [2]);
    assert At(b2, [1]) == At(b1, [1]) < At(a1, [1]);
  }

  lemma SingleEntry(n: Str, ts: int)
    ensures MapOf([Entry(n, ts)]) == map[n := ts]
  {
    assert [Entry(n, ts)][..0] == [];
  }
}
