/** Operations and reads that are not atomic: an operation is logged, put into the memtable and passed
    on to the cache under different locks, a read looks at memtables and SSTables and fills the cache
    under different locks, and the parts of all of them interleave. */
module SplitOperations {
  import opened GoStrings
  import opened SSTableFormat
  import opened StorageEngine
  import opened InterleavedReads

  /** The engine, with the operations (as positions in the log) that have yet to reach the memtable
      and those that have yet to reach the cache. */
  datatype Split = Split(s: State, toPut: set<nat>, toCache: set<nat>)

  datatype Move =
    | Log(entry: LogEntry)
    | Put(i: nat)
    | Pass(i: nat)                        // on to the cache
    | Fill(key: Str, answer: Answer)      // the last part of a read
    | Other(step: Step)                   // a whole read, a flush step, an eviction, a crash

  const START := Split(INIT, {}, {})

  function PutDone(s: State, e: LogEntry): (s': State) {
    s.(mem := s.mem[CompositeKey(e) := EntryOf(e)])
  }

  function Passed(s: State, e: LogEntry): (s': State) {
    var k := CompositeKey(e);
    s.(cache := if e.op.Delete? then s.cache - {k} else s.cache[k := Answer(e.value, e.clock)])
  }

  /** The parts of an operation come in order; a crash loses those in flight. */
  ghost predicate Possible(x: Split, move: Move) {
    match move
    case Log(e) => true
    case Put(i) => i in x.toPut && i < |x.s.log|
    case Pass(i) => i in x.toCache && i < |x.s.log|
    case Fill(k, a) => true
    case Other(step) => !step.Operate? && (step.Crash? ==> step.pending == [])
  }

  ghost function Moved(x: Split, move: Move): (x': Split)
    requires Possible(x, move)
  {
    match move
    case Log(e) => Split(x.s.(log := x.s.log + [e]), x.toPut + {|x.s.log|}, x.toCache)
    case Put(i) => Split(PutDone(x.s, x.s.log[i]), x.toPut - {i}, x.toCache + {i})
    case Pass(i) => Split(Passed(x.s, x.s.log[i]), x.toPut, x.toCache - {i})
    case Fill(k, a) => x.(s := x.s.(cache := x.s.cache[k := a]))
    case Other(step) => if step.Crash? then Split(Next(x.s, step), {}, {}) else x.(s := Next(x.s, step))
  }

  /** Done without interruption the parts are the atomic operation. */
  lemma PartsMakeTheWhole(s: State, e: LogEntry)
    ensures Passed(PutDone(s.(log := s.log + [e]), e), e) == Operated(s, e)
  {
  }

  /** The hypotheses of the atomic engine on clocks and flushes, and none on the order of moves. */
  ghost predicate Timed(x: Split, move: Move)
    requires Possible(x, move)
  {
    match move
    case Log(e) => Plain(e)
    case Put(i) =>
      && (x.s.imm.Some? ==> Later(x.s.imm.value, x.s.log[i]))
      && forall t :: 0 <= t < |x.s.tables| ==> Later(x.s.tables[t], x.s.log[i])
    case Other(step) => Enabled(x.s, step)
    case _ => true
  }

  ghost predicate IsTimed(moves: seq<Move>) {
    moves != [] ==>
      && IsTimed(moves[..|moves| - 1])
      && Possible(Reached(moves[..|moves| - 1]), moves[|moves| - 1])
      && Timed(Reached(moves[..|moves| - 1]), moves[|moves| - 1])
  }

  // ---------- operations on a key overtake none ----------

  /** An operation is put and passed on only after all operations on its key that were logged before
      it, and an answer is filled in only if no operation logged after the one it stems from has
      been passed on. */
  ghost predicate InOrder(x: Split, move: Move)
    requires Possible(x, move)
  {
    match move
    case Put(i) => forall j :: j in x.toPut && j < i ==> !OnKey(x.s.log, j, CompositeKey(x.s.log[i]))
    case Pass(i) => forall j :: j in x.toPut + x.toCache && j < i ==> !OnKey(x.s.log, j, CompositeKey(x.s.log[i]))
    case Fill(k, a) => exists j :: CanBack(x, k, a, j)
    case _ => true
  }

  ghost predicate IsOrdered(moves: seq<Move>) {
    moves != [] ==>
      && IsOrdered(moves[..|moves| - 1])
      && Possible(Reached(moves[..|moves| - 1]), moves[|moves| - 1])
      && Timed(Reached(moves[..|moves| - 1]), moves[|moves| - 1])
      && InOrder(Reached(moves[..|moves| - 1]), moves[|moves| - 1])
  }

  /** The state after some moves; an impossible one changes nothing. */
  ghost function Reached(moves: seq<Move>): (x: Split) {
    if moves == [] then START
    else
      var x, move := Reached(moves[..|moves| - 1]), moves[|moves| - 1];
      if Possible(x, move) then Moved(x, move) else x
  }

  /** One map, changed when an operation is logged. */
  ghost function SpecReached(moves: seq<Move>): (m: Contents) {
    if moves == [] then map[]
    else
      var m, move := SpecReached(moves[..|moves| - 1]), moves[|moves| - 1];
      if move.Log? then Do(m, move.entry) else m
  }

  // ---------- the invariant ----------

  /** The operations in flight. */
  ghost function Open(x: Split): (s: set<nat>) { x.toPut + x.toCache }

  ghost predicate Bounded(x: Split) {
    && x.toPut !! x.toCache
    && (forall i :: i in x.toPut ==> i < |x.s.log|) && (forall i :: i in x.toCache ==> i < |x.s.log|)
  }

  /** What was logged later on a key is put and passed on later. */
  ghost predicate NoneOvertakes(x: Split) {
    forall i: nat, j: nat, k {:trigger OnKey(x.s.log, i, k), OnKey(x.s.log, j, k)} ::
      i < j && OnKey(x.s.log, i, k) && OnKey(x.s.log, j, k) ==>
      (i in x.toPut ==> j in x.toPut) && (i in Open(x) ==> j in Open(x))
  }

  /** The newest version of every key is that of the last operation put. */
  ghost predicate MatchesPuts(x: Split) {
    forall k :: Newest(Layers(x.s), k) == Version(x.s.log, LastOf(x.s.log, x.toPut, k))
  }

  /** `a` is the answer of operation `j` on `k`, which was put and is at or after all completed ones
      on the key. */
  ghost predicate CanBack(x: Split, k: Str, a: Answer, j: nat) {
    && OnKey(x.s.log, j, k) && j !in x.toPut && Visible(Some(EntryOf(x.s.log[j]))) == Some(a)
    && forall i: nat :: OnKey(x.s.log, i, k) && i !in Open(x) ==> i <= j
  }

  ghost predicate Backs(x: Split, k: Str, j: nat) {
    k in x.s.cache && CanBack(x, k, x.s.cache[k], j)
  }

  ghost predicate CacheBacked(x: Split) {
    forall k :: k in x.s.cache ==> exists j :: Backs(x, k, j)
  }

  ghost predicate SplitInv(x: Split) {
    && Bounded(x) && NoneOvertakes(x) && (forall i :: 0 <= i < |x.s.log| ==> Plain(x.s.log[i]))
    && FlushOk(x.s) && Rising(Layers(x.s)) && MatchesPuts(x) && CacheBacked(x)
  }

  // ---------- every move keeps it ----------

  lemma LogKeepsInv(x: Split, e: LogEntry)
    requires SplitInv(x) && Plain(e)
    ensures SplitInv(Moved(x, Log(e)))
  {
    hide CompositeKey, EntryOf, Plain, Rising, Newest, LastOf;
    var x' := Moved(x, Log(e));
    var n, log, log' := |x.s.log|, x.s.log, x'.s.log;
    assert Layers(x'.s) == Layers(x.s);
    forall i: nat, k ensures i < n ==> (OnKey(log', i, k) <==> OnKey(log, i, k)) { }
    forall k ensures Newest(Layers(x'.s), k) == Version(log', LastOf(log', x'.toPut, k)) {
      LoggedLast(log, x.toPut, e, k);
      LastOfIs(log, x.toPut, k);
    }
    forall k | k in x'.s.cache ensures exists j :: Backs(x', k, j) {
      var j :| Backs(x, k, j);
      assert Backs(x', k, j);
    }
  }

  lemma LoggedLast(log: seq<LogEntry>, out: set<nat>, e: LogEntry, k: Str)
    requires forall i :: i in out ==> i < |log|
    ensures LastOf(log + [e], out + {|log|}, k) == LastOf(log, out, k)
  {
    assert (log + [e])[..|log|] == log;
    OutBeyond(log, out, |log|, k);
  }

  /** Positions beyond the log do not matter. */
  lemma {:induction false} OutBeyond(log: seq<LogEntry>, out: set<nat>, n: nat, k: Str)
    requires n >= |log|
    ensures LastOf(log, out + {n}, k) == LastOf(log, out, k)
  {
    if log != [] { OutBeyond(log[..|log| - 1], out, n, k); }
  }

  lemma PutKeepsInv(x: Split, i: nat)
    requires SplitInv(x) && Possible(x, Put(i)) && Timed(x, Put(i)) && InOrder(x, Put(i))
    ensures SplitInv(Moved(x, Put(i)))
  {
    hide CompositeKey, EntryOf, Rising, Newest, LastOf, Layers;
    var x' := Moved(x, Put(i));
    var e, k := x.s.log[i], CompositeKey(x.s.log[i]);
    assert OnKey(x.s.log, i, k);
    PutKeepsOrder(x.s, e);
    forall j ensures Newest(Layers(x'.s), j) == Version(x.s.log, LastOf(x.s.log, x'.toPut, j)) {
      NewestAfterPut(x.s, x'.s, k, EntryOf(e), j);
      if j == k { LastOfUnique(x.s.log, x'.toPut, k, i); } else { OtherKeyLast(x.s.log, x.toPut, i, j); }
    }
    forall j | j in x'.s.cache ensures exists b :: Backs(x', j, b) {
      var b :| Backs(x, j, b);
      assert Open(x') == Open(x);
      assert Backs(x', j, b);
    }
  }

  lemma PutKeepsOrder(s: State, e: LogEntry)
    requires FlushOk(s) && Rising(Layers(s)) && Plain(e)
    requires (s.imm.Some? ==> Later(s.imm.value, e)) && forall t :: 0 <= t < |s.tables| ==> Later(s.tables[t], e)
    ensures FlushOk(PutDone(s, e)) && Rising(Layers(PutDone(s, e)))
  {
    hide Rising, Newest;
    OperateKeepsOrder(s, e);
    assert Layers(PutDone(s, e)) == Layers(Operated(s, e));
  }

  /** Leaving out another key's operation or not makes no difference. */
  lemma {:induction false} OtherKeyLast(log: seq<LogEntry>, out: set<nat>, i: nat, k: Str)
    requires !OnKey(log, i, k)
    ensures LastOf(log, out - {i}, k) == LastOf(log, out, k)
  {
    hide CompositeKey;
    if log != [] { OtherKeyLast(log[..|log| - 1], out, i, k); }
  }

  lemma PassKeepsInv(x: Split, i: nat)
    requires SplitInv(x) && Possible(x, Pass(i)) && InOrder(x, Pass(i))
    ensures SplitInv(Moved(x, Pass(i)))
  {
    hide CompositeKey, Rising, Newest, LastOf;
    var x' := Moved(x, Pass(i));
    var e, k := x.s.log[i], CompositeKey(x.s.log[i]);
    assert OnKey(x.s.log, i, k);
    assert Layers(x'.s) == Layers(x.s);
    assert Open(x') == Open(x) - {i};
    forall j | j in x'.s.cache ensures exists b :: Backs(x', j, b) {
      if j == k {
        assert Backs(x', k, i);
      } else {
        var b :| Backs(x, j, b);
        assert Backs(x', j, b);
      }
    }
  }

  lemma FillKeepsInv(x: Split, k: Str, a: Answer)
    requires SplitInv(x) && InOrder(x, Fill(k, a))
    ensures SplitInv(Moved(x, Fill(k, a)))
  {
    hide CompositeKey, EntryOf, Rising, Newest, LastOf;
    var x' := Moved(x, Fill(k, a));
    assert Layers(x'.s) == Layers(x.s);
    var b0 :| CanBack(x, k, a, b0);
    forall j | j in x'.s.cache ensures exists b :: Backs(x', j, b) {
      if j == k {
        assert Backs(x', k, b0);
      } else {
        var b :| Backs(x, j, b);
        assert Backs(x', j, b);
      }
    }
  }

  lemma ReadKeepsInv(x: Split, t: Str, key: Str)
    requires SplitInv(x)
    ensures SplitInv(Moved(x, Other(Step.Read(t, key))))
  {
    hide CompositeKey, EntryOf, Rising, Newest, LastOf, Latest;
    var x', k := Moved(x, Other(Step.Read(t, key))), BuildKey(t, key);
    assert Layers(x'.s) == Layers(x.s);
    LookupIsNewest(x.s, k);
    LastOfIs(x.s.log, x.toPut, k);
    forall j | j in x'.s.cache ensures exists b :: Backs(x', j, b) {
      if j in x.s.cache {
        var b :| Backs(x, j, b);
        assert Backs(x', j, b);
      } else {
        assert Backs(x', k, LastOf(x.s.log, x.toPut, k).value);
      }
    }
  }

  lemma FlushMoveKeepsInv(x: Split, step: Step)
    requires SplitInv(x) && Enabled(x.s, step) && (step.Swap? || step.Publish? || step.Clear?)
    ensures SplitInv(Moved(x, Other(step)))
  {
    hide CompositeKey, EntryOf, Rising, Newest, LastOf, Layers;
    var x' := Moved(x, Other(step));
    FlushKeepsVersions(x.s, step);
    SameCacheBacked(x, x');
  }

  lemma SameCacheBacked(x: Split, x': Split)
    requires CacheBacked(x) && x'.s.log == x.s.log && x'.toPut == x.toPut && x'.toCache == x.toCache
    requires forall k :: k in x'.s.cache ==> k in x.s.cache && x'.s.cache[k] == x.s.cache[k]
    ensures CacheBacked(x')
  {
    forall k | k in x'.s.cache ensures exists j :: Backs(x', k, j) {
      var j :| Backs(x, k, j);
      assert Backs(x', k, j);
    }
  }

  lemma RestartKeepsInv(x: Split)
    requires forall i :: 0 <= i < |x.s.log| ==> Plain(x.s.log[i])
    ensures SplitInv(Moved(x, Other(Crash([]))))
  {
    hide CompositeKey, EntryOf, Rising, Newest, LastOf, Layers, Replay;
    var x' := Moved(x, Other(Crash([])));
    assert x.s.log + [] == x.s.log;
    CrashKeepsInv(x.s, []);
    forall k
      ensures Newest(Layers(x'.s), k) == Version(x'.s.log, LastOf(x'.s.log, {}, k))
    {
      ReplayIsLastOf(x.s.log, k);
    }
  }

  lemma MoveKeepsInv(x: Split, move: Move)
    requires SplitInv(x) && Possible(x, move) && Timed(x, move) && InOrder(x, move)
    ensures SplitInv(Moved(x, move))
  {
    hide SplitInv;
    match move
    case Log(e) => LogKeepsInv(x, e);
    case Put(i) => PutKeepsInv(x, i);
    case Pass(i) => PassKeepsInv(x, i);
    case Fill(k, a) => FillKeepsInv(x, k, a);
    case Other(step) => OtherKeepsInv(x, step);
  }

  lemma OtherKeepsInv(x: Split, step: Step)
    requires SplitInv(x) && Possible(x, Other(step)) && Enabled(x.s, step)
    ensures SplitInv(Moved(x, Other(step)))
  {
    hide Rising, Newest, LastOf, NoneOvertakes, MatchesPuts, CacheBacked;
    match step
    case Read(t, key) => ReadKeepsInv(x, t, key);
    case Crash(_) => RestartKeepsInv(x);
    case Evict(keys) =>
      var x' := Moved(x, Other(step));
      assert Layers(x'.s) == Layers(x.s);
      SameLog(x, x');
      SameCacheBacked(x, x');
    case _ => FlushMoveKeepsInv(x, step);
  }

  lemma SameLog(x: Split, x': Split)
    requires x'.s.log == x.s.log && x'.toPut == x.toPut && x'.toCache == x.toCache && Layers(x'.s) == Layers(x.s)
    ensures NoneOvertakes(x) ==> NoneOvertakes(x')
    ensures MatchesPuts(x) ==> MatchesPuts(x')
  {
  }

  lemma {:induction false} OrderedKeepsInv(moves: seq<Move>)
    requires IsOrdered(moves)
    ensures SplitInv(Reached(moves))
  {
    hide SplitInv, InOrder, Timed, Possible, Moved;
    if moves == [] {
      StartIsGood();
    } else {
      OrderedKeepsInv(moves[..|moves| - 1]);
      MoveKeepsInv(Reached(moves[..|moves| - 1]), moves[|moves| - 1]);
    }
  }

  lemma StartIsGood()
    ensures SplitInv(START)
  {
    InitIsGood();
  }

  // ---------- the theorems ----------

  /** No operation on the key is in flight. */
  ghost predicate Idle(x: Split, k: Str) {
    forall i: nat :: OnKey(x.s.log, i, k) ==> i !in Open(x)
  }

  lemma IdleRead(x: Split, k: Str)
    requires SplitInv(x) && Idle(x, k)
    ensures ReadAnswer(x.s, k) == Visible(Lookup(Replay(x.s.log), k))
  {
    hide CompositeKey, EntryOf, Rising, Newest, LastOf, Latest, Replay, Layers;
    ReplayIsLastOf(x.s.log, k);
    LastOfIs(x.s.log, x.toPut, k);
    LastOfIs(x.s.log, {}, k);
    if k in x.s.cache {
      var j :| Backs(x, k, j);
      LastOfUnique(x.s.log, {}, k, j);
    } else {
      LookupIsNewest(x.s, k);
    }
  }

  lemma {:induction false} LogIsSpec(moves: seq<Move>)
    requires IsTimed(moves)
    ensures SameAs(Replay(Reached(moves).s.log), SpecReached(moves))
  {
    hide SameAs, Replay;
    if moves == [] {
      EmptyIsSame();
    } else {
      var init, move := moves[..|moves| - 1], moves[|moves| - 1];
      LogIsSpec(init);
      MoveLog(Reached(init), move);
      if move.Log? {
        ReplayOne(Reached(init).s.log, move.entry);
        DoKeepsSame(Replay(Reached(init).s.log), SpecReached(init), move.entry);
      }
    }
  }

  lemma {:induction false} OrderedIsTimed(moves: seq<Move>)
    requires IsOrdered(moves)
    ensures IsTimed(moves)
  {
    hide Possible, Timed, InOrder;
    if moves != [] { OrderedIsTimed(moves[..|moves| - 1]); }
  }

  lemma EmptyIsSame()
    ensures SameAs(Replay([]), map[])
  {
  }

  lemma MoveLog(x: Split, move: Move)
    requires Possible(x, move)
    ensures Moved(x, move).s.log == if move.Log? then x.s.log + [move.entry] else x.s.log
  {
    if move.Other? && move.step.Crash? { assert x.s.log + [] == x.s.log; }
  }

  /** Without atomic operations and reads: as long as operations on one key do not overtake one another
      on their way from the log to the memtable and the cache, and reads do not fill in what a
      completed operation has replaced, then after every run, with any flush steps, evictions and
      crashes in between, a key with no operation in flight reads as the one map says that
      operations change when they are logged. */
  lemma SplitEngineIsOneMap(moves: seq<Move>, tenant: Str, key: Str)
    requires IsOrdered(moves) && COLON !in tenant && Idle(Reached(moves), BuildKey(tenant, key))
    ensures ReadAnswer(Reached(moves).s, BuildKey(tenant, key)) == SpecRead(SpecReached(moves), tenant, key)
  {
    hide SplitInv, Idle, Replay, ReadAnswer;
    OrderedKeepsInv(moves);
    OrderedIsTimed(moves);
    LogIsSpec(moves);
    IdleRead(Reached(moves), BuildKey(tenant, key));
  }

  /** And with operations in flight a read is never stale: it answers as some logged operation that
      is not before any completed one on the key, or finds nothing and there is none. */
  lemma ReadIsNotStale(moves: seq<Move>, k: Str) returns (j: nat)
    requires IsOrdered(moves)
    ensures var x := Reached(moves);
            (ReadAnswer(x.s, k).None? && forall i: nat :: OnKey(x.s.log, i, k) ==> i in Open(x)) ||
            (OnKey(x.s.log, j, k) && ReadAnswer(x.s, k) == Visible(Some(EntryOf(x.s.log[j])))
             && forall i: nat :: OnKey(x.s.log, i, k) && i !in Open(x) ==> i <= j)
  {
    hide CompositeKey, EntryOf, Rising, Newest, LastOf, Latest, Layers;
    var x := Reached(moves);
    OrderedKeepsInv(moves);
    j := 0;
    if k in x.s.cache {
      j :| Backs(x, k, j);
    } else {
      LookupIsNewest(x.s, k);
      LastOfIs(x.s.log, x.toPut, k);
      if LastOf(x.s.log, x.toPut, k).Some? { j := LastOf(x.s.log, x.toPut, k).value; }
    }
  }

  // ---------- reads in parts ----------

  /** `v` is the version of an operation on `k` that is put and at or after all that were put at `x0`;
      or there is none, and none was put. */
  ghost predicate SinceThen(x0: Split, x: Split, k: Str, v: Option<MemEntry>) {
    if v.None? then forall i: nat :: OnKey(x0.s.log, i, k) ==> i in x0.toPut
    else exists j: nat :: PutSince(x0, x, k, j) && v.value == EntryOf(x.s.log[j])
  }

  ghost predicate PutSince(x0: Split, x: Split, k: Str, j: nat) {
    && OnKey(x.s.log, j, k) && j !in x.toPut
    && forall i: nat :: OnKey(x0.s.log, i, k) && i !in x0.toPut ==> i <= j
  }

  /** The log grows and what was put stays put. */
  ghost predicate Grows(x0: Split, x: Split) {
    x0.s.log <= x.s.log && forall i :: i in x.toPut && i < |x0.s.log| ==> i in x0.toPut
  }

  ghost predicate LeftSince(x0: Split, x: Split, k: Str) {
    && SinceThen(x0, x, k, Newest(x.s.tables, k))
    && (x.s.imm.Some? && !x.s.published && k in x.s.imm.value ==> SinceThen(x0, x, k, Some(x.s.imm.value[k])))
  }

  lemma NewestSince(x0: Split, x: Split, k: Str)
    requires SplitInv(x) && Grows(x0, x)
    ensures SinceThen(x0, x, k, Newest(Layers(x.s), k))
  {
    hide CompositeKey, EntryOf, Rising, Newest, LastOf, Layers;
    LastOfIs(x.s.log, x.toPut, k);
    forall i: nat | OnKey(x0.s.log, i, k) && i !in x0.toPut ensures OnKey(x.s.log, i, k) && i !in x.toPut { }
    var last := LastOf(x.s.log, x.toPut, k);
    if last.Some? { assert PutSince(x0, x, k, last.value); }
  }

  lemma SinceStays(x0: Split, x: Split, x': Split, k: Str, v: Option<MemEntry>)
    requires SinceThen(x0, x, k, v) && Grows(x, x')
    ensures SinceThen(x0, x', k, v)
  {
    hide CompositeKey, EntryOf;
    if v.Some? {
      var j: nat :| PutSince(x0, x, k, j) && v.value == EntryOf(x.s.log[j]);
      assert PutSince(x0, x', k, j);
    }
  }

  lemma MoveGrows(x: Split, move: Move)
    requires Bounded(x) && Possible(x, move) && !(move.Other? && move.step.Crash?)
    ensures Grows(x, Moved(x, move))
  {
  }

  lemma LeftSinceStep(x0: Split, x: Split, k: Str, move: Move)
    requires SplitInv(x) && Grows(x0, x) && LeftSince(x0, x, k)
    requires Possible(x, move) && Timed(x, move) && !(move.Other? && move.step.Crash?)
    ensures LeftSince(x0, Moved(x, move), k)
  {
    hide SinceThen, Rising, NoneOvertakes, MatchesPuts, CacheBacked;
    var x' := Moved(x, move);
    MoveGrows(x, move);
    NewestSince(x0, x, k);
    SinceStays(x0, x, x', k, Newest(Layers(x.s), k));
    SinceStays(x0, x, x', k, Newest(x.s.tables, k));
    if x.s.imm.Some? && !x.s.published && k in x.s.imm.value { SinceStays(x0, x, x', k, Some(x.s.imm.value[k])); }
    if move.Other? && move.step.Publish? {
      NewestAppend(x.s.tables, x.s.imm.value, k);
    } else if move.Other? && move.step.Swap? {
      NewestAppend(x.s.tables, x.s.mem, k);
      assert Layers(x.s) == x.s.tables + [x.s.mem];
    }
  }

  ghost predicate NoCrashes(moves: seq<Move>) {
    forall i :: 0 <= i < |moves| && moves[i].Other? ==> !moves[i].step.Crash?
  }

  /** From a memtable lookup that finds nothing on, what is in the tables is at or after all versions
      that were put by then. */
  lemma {:induction false} TablesSince(before: seq<Move>, moves: seq<Move>, k: Str)
    requires IsOrdered(before + moves) && NoCrashes(moves) && MemGet(Reached(before).s, k).None?
    ensures IsOrdered(before) && Grows(Reached(before), Reached(before + moves))
    ensures LeftSince(Reached(before), Reached(before + moves), k)
    decreases |moves|
  {
    hide SplitInv, Possible, Timed, InOrder, LeftSince, Moved;
    var x0 := Reached(before);
    if moves == [] {
      assert before + moves == before;
      OrderedKeepsInv(before);
      MissedSince(x0, k);
    } else {
      var init, move := moves[..|moves| - 1], moves[|moves| - 1];
      assert (before + moves)[..|before + moves| - 1] == before + init;
      TablesSince(before, init, k);
      OrderedKeepsInv(before + init);
      var x := Reached(before + init);
      assert Bounded(x) by { InvIsBounded(x); }
      MoveGrows(x, move);
      LeftSinceStep(x0, x, k, move);
    }
  }

  lemma InvIsBounded(x: Split)
    requires SplitInv(x)
    ensures Bounded(x) && FlushOk(x.s) && Rising(Layers(x.s))
  {
  }

  lemma MissedSince(x: Split, k: Str)
    requires SplitInv(x) && MemGet(x.s, k).None?
    ensures LeftSince(x, x, k)
  {
    hide Rising, Latest, SinceThen, NoneOvertakes, MatchesPuts, CacheBacked, Newest;
    NewestSince(x, x, k);
    LookupIsNewest(x.s, k);
    TablesInOrder(x.s, k);
  }

  /** What a read finds that looks at the memtables after `before` and at the SSTables after `moves`
      more. */
  ghost function PartedRead(before: seq<Move>, moves: seq<Move>, k: Str): (r: Option<MemEntry>) {
    if MemGet(Reached(before).s, k).Some? then MemGet(Reached(before).s, k)
    else Latest(Reached(before + moves).s.tables, k)
  }

  /** A read in parts among operations in parts is not stale: it finds the version of an operation at
      or after all that were put when it started, or finds nothing and none was. */
  lemma PartedReadIsNotStale(before: seq<Move>, moves: seq<Move>, k: Str)
    requires IsOrdered(before + moves) && NoCrashes(moves)
    ensures SinceThen(Reached(before), Reached(before + moves), k, PartedRead(before, moves, k))
  {
    hide SplitInv, SinceThen, LeftSince, Grows;
    var x0, x := Reached(before), Reached(before + moves);
    OrderedPrefix(before, moves);
    if MemGet(x0.s, k).Some? {
      OrderedKeepsInv(before);
      FoundSince(x0, k);
      SinceStays(x0, x0, x, k, MemGet(x0.s, k));
    } else {
      TablesSince(before, moves, k);
      OrderedKeepsInv(before + moves);
      InvIsBounded(x);
      TablesInOrder(x.s, k);
      LeftInTables(x0, x, k);
    }
  }

  lemma LeftInTables(x0: Split, x: Split, k: Str)
    requires LeftSince(x0, x, k)
    ensures SinceThen(x0, x, k, Newest(x.s.tables, k))
  {
  }

  lemma FoundSince(x: Split, k: Str)
    requires SplitInv(x) && MemGet(x.s, k).Some?
    ensures SinceThen(x, x, k, MemGet(x.s, k))
  {
    hide Rising, Latest, SinceThen, NoneOvertakes, MatchesPuts, CacheBacked, Newest;
    NewestSince(x, x, k);
    LookupIsNewest(x.s, k);
  }

  lemma {:induction false} OrderedPrefix(before: seq<Move>, moves: seq<Move>)
    requires IsOrdered(before + moves) && NoCrashes(moves)
    ensures IsOrdered(before) && Grows(Reached(before), Reached(before + moves))
    decreases |moves|
  {
    hide SplitInv, Possible, Timed, InOrder, Moved;
    if moves == [] {
      assert before + moves == before;
    } else {
      var init, move := moves[..|moves| - 1], moves[|moves| - 1];
      assert (before + moves)[..|before + moves| - 1] == before + init;
      OrderedPrefix(before, init);
      OrderedKeepsInv(before + init);
      InvIsBounded(Reached(before + init));
      MoveGrows(Reached(before + init), move);
    }
  }

  /** The operations on `k` that are completed, as positions in the log. */
  ghost function Completed(x: Split, k: Str): (s: set<nat>) {
    set i: nat | i < |x.s.log| && OnKey(x.s.log, i, k) && i !in Open(x)
  }

  /** A read in parts whose memtable lookup came after `before`, whose SSTable lookup came `middle` moves
      later and whose cache fill comes after `moves` more: the fill is in order, as
      SplitEngineIsOneMap asks, if no operation on the key was completed in between. */
  lemma LateFillIsInOrder(before: seq<Move>, middle: seq<Move>, moves: seq<Move>, k: Str, a: Answer)
    requires IsOrdered(before + middle + moves) && NoCrashes(middle) && NoCrashes(moves)
    requires Visible(PartedRead(before, middle, k)) == Some(a)
    requires Completed(Reached(before + middle + moves), k) <= Completed(Reached(before), k)
    ensures InOrder(Reached(before + middle + moves), Fill(k, a))
  {
    hide SplitInv, SinceThen, IsOrdered, Reached;
    var x0, x1, x := Reached(before), Reached(before + middle), Reached(before + middle + moves);
    OrderedPrefix(before + middle, moves);
    OrderedPrefix(before, middle);
    PartedReadIsNotStale(before, middle, k);
    SinceStays(x0, x1, x, k, PartedRead(before, middle, k));
    FilledSince(x0, x, k, PartedRead(before, middle, k), a);
  }

  lemma FilledSince(x0: Split, x: Split, k: Str, v: Option<MemEntry>, a: Answer)
    requires SinceThen(x0, x, k, v) && Visible(v) == Some(a) && Completed(x, k) <= Completed(x0, k)
    ensures InOrder(x, Fill(k, a))
  {
    hide CompositeKey, EntryOf;
    var j: nat :| PutSince(x0, x, k, j) && v.value == EntryOf(x.s.log[j]);
    forall i: nat | OnKey(x.s.log, i, k) && i !in Open(x) ensures i <= j { assert i in Completed(x, k); }
    assert CanBack(x, k, a, j);
  }

  // ---------- any order at all ----------

  ghost predicate TimedInv(s: State) {
    (forall i :: 0 <= i < |s.log| ==> Plain(s.log[i])) && FlushOk(s) && Rising(Layers(s))
  }

  /** What a move makes of the last version put, and of what the cache holds for the key. */
  ghost function PutBy(x: Split, move: Move, k: Str, put: Option<MemEntry>): (r: Option<MemEntry>) {
    match move
    case Put(i) => if OnKey(x.s.log, i, k) then Some(EntryOf(x.s.log[i])) else put
    case Other(step) => if step.Crash? then Lookup(Replay(x.s.log), k) else put
    case _ => put
  }

  ghost function CachedBy(x: Split, move: Move, k: Str, put: Option<MemEntry>,
        cached: Option<Answer>): (r: Option<Answer>) {
    match move
    case Pass(i) => if OnKey(x.s.log, i, k) then Visible(Some(EntryOf(x.s.log[i]))) else cached
    case Fill(key, a) => if key == k then Some(a) else cached
    case Other(step) =>
      if step.Crash? || (step.Evict? && k in step.keys) then None
      else if step.Read? && BuildKey(step.tenant, step.key) == k && cached.None? then Visible(put)
      else cached
    case _ => cached
  }

  /** The version of `k` put last, or replayed at a later crash. */
  ghost function LastPut(moves: seq<Move>, k: Str): (r: Option<MemEntry>) {
    if moves == [] then None
    else PutBy(Reached(moves[..|moves| - 1]), moves[|moves| - 1], k, LastPut(moves[..|moves| - 1], k))
  }

  /** What the last operation passed on, read, fill, eviction or crash left for `k` in the cache. */
  ghost function LastCached(moves: seq<Move>, k: Str): (r: Option<Answer>) {
    if moves == [] then None
    else
      var init := moves[..|moves| - 1];
      CachedBy(Reached(init), moves[|moves| - 1], k, LastPut(init, k), LastCached(init, k))
  }

  lemma MoveEffect(x: Split, move: Move, k: Str)
    requires TimedInv(x.s) && Possible(x, move) && Timed(x, move)
    ensures var x' := Moved(x, move);
            && TimedInv(x'.s)
            && Newest(Layers(x'.s), k) == PutBy(x, move, k, Newest(Layers(x.s), k))
            && Lookup(x'.s.cache, k) == CachedBy(x, move, k, Newest(Layers(x.s), k), Lookup(x.s.cache, k))
  {
    hide Rising, Newest, EntryOf, Replay, Latest;
    var x' := Moved(x, move);
    match move
    case Log(e) => assert Layers(x'.s) == Layers(x.s);
    case Put(i) =>
      PutKeepsOrder(x.s, x.s.log[i]);
      NewestAfterPut(x.s, x'.s, CompositeKey(x.s.log[i]), EntryOf(x.s.log[i]), k);
    case Pass(i) =>
      assert Layers(x'.s) == Layers(x.s);
      PassedAnswer(x.s.log[i]);
    case Fill(_, _) => assert Layers(x'.s) == Layers(x.s);
    case Other(step) => OtherEffect(x, step, k);
  }

  lemma PassedAnswer(e: LogEntry)
    ensures Visible(Some(EntryOf(e))) == if e.op.Delete? then None else Some(Answer(e.value, e.clock))
  {
  }

  lemma OtherEffect(x: Split, step: Step, k: Str)
    requires TimedInv(x.s) && Possible(x, Other(step)) && Enabled(x.s, step)
    ensures var x' := Moved(x, Other(step));
            && TimedInv(x'.s)
            && Newest(Layers(x'.s), k) == PutBy(x, Other(step), k, Newest(Layers(x.s), k))
            && Lookup(x'.s.cache, k) == CachedBy(x, Other(step), k, Newest(Layers(x.s), k), Lookup(x.s.cache, k))
  {
    hide Rising, Newest, Replay, Latest;
    var x' := Moved(x, Other(step));
    match step
    case Read(t, key) =>
      assert Layers(x'.s) == Layers(x.s);
      LookupIsNewest(x.s, BuildKey(t, key));
    case Evict(_) => assert Layers(x'.s) == Layers(x.s);
    case Crash(_) =>
      assert x.s.log + [] == x.s.log;
      CrashKeepsInv(x.s, []);
    case _ => FlushKeepsVersions(x.s, step);
  }

  lemma {:induction false} RunEffect(moves: seq<Move>, k: Str)
    requires IsTimed(moves)
    ensures var s := Reached(moves).s;
            TimedInv(s) && Newest(Layers(s), k) == LastPut(moves, k) && Lookup(s.cache, k) == LastCached(moves, k)
  {
    hide TimedInv, Timed, Possible, Moved, PutBy, CachedBy, Newest, Layers;
    if moves == [] {
      StartEffect(k);
    } else {
      RunEffect(moves[..|moves| - 1], k);
      MoveEffect(Reached(moves[..|moves| - 1]), moves[|moves| - 1], k);
    }
  }

  lemma StartEffect(k: Str)
    ensures TimedInv(INIT) && Newest(Layers(INIT), k) == None
  {
    InitIsGood();
    assert Layers(INIT) == [map[]];
  }

  /** Every run of moves in any order, with reads, flush steps, evictions and crashes anywhere: a key
      reads as the one map says exactly if what is cached for it is what the map says, or nothing is
      and the version put last is; and it goes on doing so once it is evicted exactly if that
      version is, too. */
  lemma AnyOrderIff(moves: seq<Move>, tenant: Str, key: Str)
    requires IsTimed(moves) && COLON !in tenant
    ensures var s, k, wanted := Reached(moves).s, BuildKey(tenant, key), SpecRead(SpecReached(moves), tenant, key);
            var put, cached := Visible(LastPut(moves, k)), LastCached(moves, k);
            && (ReadAnswer(s, k) == wanted <==> (if cached.Some? then cached else put) == wanted)
            && (ReadAnswer(s, k) == ReadAnswer(Next(s, Evict({k})), k) == wanted <==>
                put == wanted && (cached.None? || cached == wanted))
            && ReadAnswer(Next(s, Crash([])), k) == wanted
  {
    hide Replay, LastPut, LastCached, Rising, Newest, Latest, Layers, SameAs;
    var s, k := Reached(moves).s, BuildKey(tenant, key);
    RunEffect(moves, k);
    LogIsSpec(moves);
    LookupIsNewest(s, k);
    SameRead(s.log, SpecReached(moves), tenant, key);
    RestartRead(s, k);
  }

  lemma RestartRead(s: State, k: Str)
    ensures ReadAnswer(Next(s, Crash([])), k) == Visible(Lookup(Replay(s.log), k))
  {
    assert s.log + [] == s.log;
  }

  lemma SameRead(log: seq<LogEntry>, m: Contents, tenant: Str, key: Str)
    requires SameAs(Replay(log), m) && COLON !in tenant
    ensures Visible(Lookup(Replay(log), BuildKey(tenant, key))) == SpecRead(m, tenant, key)
  {
  }

  // ---------- two writers ----------

  /** Two writes of one key, logged in one order and put and passed on in the other: with nothing in
      flight the log says the second, reads say the first, and a restart changes the answer. */
  lemma OvertakenWriteWins()
    ensures var moves := [Log(PutEntry([1], 1)), Log(PutEntry([2], 1)), Put(1), Put(0), Pass(1), Pass(0)];
            var s, k := Reached(moves).s, BuildKey([97], [98]);
            && IsTimed(moves) && Open(Reached(moves)) == {}
            && ReadAnswer(s, k) == Some(Answer([1], []))
            && SpecRead(SpecReached(moves), [97], [98]) == Some(Answer([2], []))
            && ReadAnswer(Next(s, Crash([])), k) == Some(Answer([2], []))
  {
    hide Reached, IsTimed, SpecReached;
    var e1, e2, k := PutEntry([1], 1), PutEntry([2], 1), BuildKey([97], [98]);
    var moves := [Log(e1), Log(e2), Put(1), Put(0), Pass(1), Pass(0)];
    Overtaking(e1, e2);
    assert ReadAnswer(Reached(moves).s, k) == Some(Answer([1], []));
    var log := [e1, e2];
    assert log == [] + [e1] + [e2] && log + [] == log;
    ReplayOne([], e1);
    ReplayOne([] + [e1], e2);
  }

  lemma Overtaking(e1: LogEntry, e2: LogEntry)
    requires CompositeKey(e1) == CompositeKey(e2) && !e1.op.Delete? && !e2.op.Delete? && Plain(e1) && Plain(e2)
    ensures var moves := [Log(e1), Log(e2), Put(1), Put(0), Pass(1), Pass(0)];
            && IsTimed(moves) && SpecReached(moves) == Do(Do(map[], e1), e2)
            && Reached(moves) ==
               Split(State([e1, e2], map[CompositeKey(e1) := EntryOf(e1)], None, false, [],
                           map[CompositeKey(e1) := Answer(e1.value, e1.clock)]), {}, {})
  {
    hide CompositeKey, EntryOf, Do;
    var m0: seq<Move> := [];
    var m2, m4 := m0 + [Log(e1)] + [Log(e2)], m0 + [Log(e1)] + [Log(e2)] + [Put(1)] + [Put(0)];
    assert Reached(m0) == START && IsTimed(m0) && SpecReached(m0) == map[];
    hide Reached, IsTimed, SpecReached;
    OneMore(m0, Log(e1));
    OneMore(m0 + [Log(e1)], Log(e2));
    assert INIT.log + [e1] + [e2] == [e1, e2];
    assert Reached(m2) == Split(INIT.(log := [e1, e2]), {0, 1}, {});
    OneMore(m2, Put(1));
    OneMore(m2 + [Put(1)], Put(0));
    OneMore(m4, Pass(1));
    OneMore(m4 + [Pass(1)], Pass(0));
    assert m4 + [Pass(1)] + [Pass(0)] == [Log(e1), Log(e2), Put(1), Put(0), Pass(1), Pass(0)];
  }

  lemma OneMore(moves: seq<Move>, move: Move)
    ensures Possible(Reached(moves), move) ==> Reached(moves + [move]) == Moved(Reached(moves), move)
    ensures IsTimed(moves) && Possible(Reached(moves), move) && Timed(Reached(moves), move) ==> IsTimed(moves + [move])
    ensures SpecReached(moves + [move]) == if move.Log? then Do(SpecReached(moves), move.entry) else SpecReached(moves)
  {
    assert (moves + [move])[..|moves|] == moves;
  }
}
