/** The layered storage engine as a state machine, and why it behaves like one map.

    A step is an operation, a read, one of the three parts of a flush, an eviction, or a crash
    followed by recovery. That operations and reads are single steps is a hypothesis: the program
    locks the log, the memtable and the cache one after the other. What holds without it is the
    subject of InterleavedReads and SplitOperations. */
module StorageEngine {
  import opened Encoding
  import opened GoStrings
  import opened VectorClocks
  import opened SSTableFormat

  type Table = map<Str, MemEntry>

  datatype Operation = Write | Repair | Delete

  datatype LogEntry = LogEntry(seqNo: Uint64, tenant: Str, key: Str, value: Str, clock: Clock,
                               timestamp: int, op: Operation, checksum: nat)

  /** What a reader gets: value and clock. */
  datatype Answer = Answer(value: Str, clock: Clock)

  function Lookup<V>(m: map<Str, V>, k: Str): (r: Option<V>) { if k in m then Some(m[k]) else None }

  function Flat<T>(ss: seq<seq<T>>): (s: seq<T>) {
    if ss == [] then [] else Flat(ss[..|ss| - 1]) + ss[|ss| - 1]
  }

  // ---------- the commit log as a map ----------

  function CompositeKey(e: LogEntry): (k: Str) { BuildKey(e.tenant, e.key) }

  /** The memtable entry an operation produces, when it is carried out and when it is replayed. */
  function EntryOf(e: LogEntry): (m: MemEntry)
    ensures m.key == CompositeKey(e)
  {
    MemEntry(CompositeKey(e), e.value, e.clock, e.timestamp, e.op.Delete?)
  }

  ghost function Replay(log: seq<LogEntry>): (m: Table) {
    if log == [] then map[]
    else Replay(log[..|log| - 1])[CompositeKey(log[|log| - 1]) := EntryOf(log[|log| - 1])]
  }

  /** The last operation on a key, if any, decides what the replayed log says about it. */
  lemma {:induction false} ReplayIsLastOperation(log: seq<LogEntry>, k: Str)
    ensures k in Replay(log) <==> exists i :: 0 <= i < |log| && CompositeKey(log[i]) == k
    ensures k in Replay(log) ==>
        exists i :: 0 <= i < |log| && CompositeKey(log[i]) == k && Replay(log)[k] == EntryOf(log[i])
                                             && forall j :: i < j < |log| ==> CompositeKey(log[j]) != k
  {
    hide CompositeKey, EntryOf;
    if log != [] {
      var init, last := log[..|log| - 1], log[|log| - 1];
      ReplayIsLastOperation(init, k);
      if CompositeKey(last) == k {
        assert log[|log| - 1] == last;
      } else if k in Replay(init) {
        var i :| 0 <= i < |init| && CompositeKey(init[i]) == k && Replay(init)[k] == EntryOf(init[i])
                 && forall j :: i < j < |init| ==> CompositeKey(init[j]) != k;
        assert log[i] == init[i];
        assert forall j :: i < j < |init| ==> log[j] == init[j];
      } else {
        assert forall i :: 0 <= i < |init| ==> log[i] == init[i];
      }
    }
  }

  lemma ReplayAppend(log: seq<LogEntry>, more: seq<LogEntry>, e: LogEntry)
    ensures Replay(log + (more + [e])) == Replay(log + more)[CompositeKey(e) := EntryOf(e)]
  {
    assert (log + (more + [e]))[..|log| + |more|] == log + more;
  }

  ghost predicate OnKey(log: seq<LogEntry>, i: int, k: Str) {
    0 <= i < |log| && CompositeKey(log[i]) == k
  }

  /** The last operation on `k` that is not among `out`. */
  ghost function LastOf(log: seq<LogEntry>, out: set<nat>, k: Str): (r: Option<nat>) {
    if log == [] then None
    else if CompositeKey(log[|log| - 1]) == k && |log| - 1 !in out then Some(|log| - 1)
    else LastOf(log[..|log| - 1], out, k)
  }

  lemma {:induction false} LastOfIs(log: seq<LogEntry>, out: set<nat>, k: Str)
    ensures LastOf(log, out, k).Some? ==> OnKey(log, LastOf(log, out, k).value, k) && LastOf(log, out, k).value !in out
    ensures forall i: nat :: OnKey(log, i, k) && i !in out ==>
        LastOf(log, out, k).Some? && i <= LastOf(log, out, k).value
  {
    hide CompositeKey;
    if log != [] {
      var init := log[..|log| - 1];
      LastOfIs(init, out, k);
      assert forall i :: 0 <= i < |init| ==> init[i] == log[i];
      forall i: nat | OnKey(log, i, k) && i !in out
        ensures LastOf(log, out, k).Some? && i <= LastOf(log, out, k).value
      {
        if i < |init| { assert OnKey(init, i, k); }
      }
    }
  }

  lemma LastOfUnique(log: seq<LogEntry>, out: set<nat>, k: Str, i: nat)
    requires OnKey(log, i, k) && i !in out && forall j: nat :: OnKey(log, j, k) && j !in out ==> j <= i
    ensures LastOf(log, out, k) == Some(i)
  {
    hide OnKey;
    LastOfIs(log, out, k);
  }

  ghost function Version(log: seq<LogEntry>, i: Option<nat>): (r: Option<MemEntry>) {
    if i.Some? && i.value < |log| then Some(EntryOf(log[i.value])) else None
  }

  lemma {:induction false} ReplayIsLastOf(log: seq<LogEntry>, k: Str)
    ensures Lookup(Replay(log), k) == Version(log, LastOf(log, {}, k))
  {
    hide CompositeKey, EntryOf;
    if log != [] {
      var init := log[..|log| - 1];
      ReplayIsLastOf(init, k);
      LastOfIs(init, {}, k);
    }
  }

  // ---------- versions across layers ----------

  /** The version of `k` in the last table that has one. */
  ghost function Newest(ts: seq<Table>, k: Str): (r: Option<MemEntry>) {
    if ts == [] then None
    else if k in ts[|ts| - 1] then Some(ts[|ts| - 1][k])
    else Newest(ts[..|ts| - 1], k)
  }

  /** SSTableService.Get: the first version with the largest timestamp above 0. */
  ghost function Latest(ts: seq<Table>, k: Str): (r: Option<MemEntry>) {
    if ts == [] then None
    else
      var best, last := Latest(ts[..|ts| - 1], k), ts[|ts| - 1];
      if k in last && last[k].timestamp > Stamp(best) then Some(last[k]) else best
  }

  function Stamp(e: Option<MemEntry>): (t: int) { if e.Some? then e.value.timestamp else 0 }

  lemma {:induction false} NewestAppend(ts: seq<Table>, t: Table, k: Str)
    ensures Newest(ts + [t], k) == if k in t then Some(t[k]) else Newest(ts, k)
  {
    assert (ts + [t])[..|ts|] == ts;
  }

  lemma {:induction false} LatestBounds(ts: seq<Table>, k: Str)
    ensures Stamp(Latest(ts, k)) >= 0
    ensures forall i :: 0 <= i < |ts| && k in ts[i] ==> ts[i][k].timestamp <= Stamp(Latest(ts, k))
    ensures Latest(ts, k).Some? ==> Stamp(Latest(ts, k)) > 0
    ensures Latest(ts, k).Some? ==> exists i :: 0 <= i < |ts| && k in ts[i] && ts[i][k] == Latest(ts, k).value
  {
    if ts != [] {
      var init := ts[..|ts| - 1];
      LatestBounds(init, k);
      assert forall i :: 0 <= i < |init| ==> ts[i] == init[i];
    }
  }

  /** Tables without the key change nothing. */
  lemma {:induction false} TablesWithout(ts: seq<Table>, newer: seq<Table>, k: Str)
    requires forall i :: 0 <= i < |newer| ==> k !in newer[i]
    ensures Latest(ts + newer, k) == Latest(ts, k) && Newest(ts + newer, k) == Newest(ts, k)
    decreases |newer|
  {
    if newer == [] {
      assert ts + newer == ts;
    } else {
      TablesWithout(ts, newer[..|newer| - 1], k);
      assert (ts + newer)[..|ts + newer| - 1] == ts + newer[..|newer| - 1];
    }
  }

  /** Get returns the newest version of a key, wherever it is, exactly when that version's timestamp
      is positive and above every older version's; two versions of one second are enough to return
      the older one. */
  lemma GetReturnsNewestIff(older: seq<Table>, t: Table, newer: seq<Table>, k: Str)
    requires k in t && forall i :: 0 <= i < |newer| ==> k !in newer[i]
    requires forall i :: 0 <= i < |older| && k in older[i] ==> older[i][k] != t[k]
    ensures Latest(older + [t] + newer, k) == Newest(older + [t] + newer, k) <==>
            t[k].timestamp > 0 &&
            forall i :: 0 <= i < |older| && k in older[i] ==> older[i][k].timestamp < t[k].timestamp
  {
    TablesWithout(older + [t], newer, k);
    NewestAppend(older, t, k);
    LatestBounds(older, k);
    assert (older + [t])[..|older|] == older;
  }

  /** Versions of a key have positive timestamps that rise from each table to the next. */
  ghost predicate Rising(ts: seq<Table>) {
    && (forall i, k :: 0 <= i < |ts| && k in ts[i] ==> ts[i][k].timestamp > 0)
    && (forall i, j, k :: 0 <= i < j < |ts| && k in ts[i] && k in ts[j] ==> ts[i][k].timestamp < ts[j][k].timestamp)
  }

  lemma {:induction false} LatestIsNewest(ts: seq<Table>, k: Str)
    requires Rising(ts)
    ensures Latest(ts, k) == Newest(ts, k)
  {
    if ts != [] {
      var init, last := ts[..|ts| - 1], ts[|ts| - 1];
      assert ts == init + [last];
      LatestIsNewest(init, k);
      if k in last { LatestBounds(init, k); }
    }
  }

  // ---------- the state machine ----------

  datatype State = State(log: seq<LogEntry>, mem: Table, imm: Option<Table>, published: bool,
                         tables: seq<Table>, cache: map<Str, Answer>)

  datatype Step =
    | Operate(entry: LogEntry)            // Write, Repair or Delete, to its end
    | Read(tenant: Str, key: Str)
    | Swap | Publish | Clear              // the three parts of a flush
    | Evict(keys: set<Str>)
    | Crash(pending: seq<LogEntry>)       // after logging `pending`; then recovery

  const INIT := State([], map[], None, false, [], map[])

  function Visible(e: Option<MemEntry>): (r: Option<Answer>) {
    if e.Some? && !e.value.tombstone then Some(Answer(e.value.value, e.value.clock)) else None
  }

  /** MemTableService.Get. */
  function MemGet(s: State, k: Str): (r: Option<MemEntry>) {
    if k in s.mem then Some(s.mem[k])
    else if s.imm.Some? then Lookup(s.imm.value, k) else None
  }

  /** Cache, memtable, immutable memtable, SSTables. */
  ghost function ReadAnswer(s: State, k: Str): (r: Option<Answer>) {
    if k in s.cache then Some(s.cache[k])
    else if MemGet(s, k).Some? then Visible(MemGet(s, k))
    else Visible(Latest(s.tables, k))
  }

  function Operated(s: State, e: LogEntry): (s': State) {
    var k := CompositeKey(e);
    s.(log := s.log + [e], mem := s.mem[k := EntryOf(e)],
       cache := if e.op.Delete? then s.cache - {k} else s.cache[k := Answer(e.value, e.clock)])
  }

  ghost function Cached(s: State, k: Str): (s': State) {
    var r := ReadAnswer(s, k);
    if r.Some? then s.(cache := s.cache[k := r.value]) else s
  }

  function Swapped(s: State): (s': State) { s.(mem := map[], imm := Some(s.mem), published := false) }

  ghost function Next(s: State, step: Step): (s': State) {
    match step
    case Operate(e) => Operated(s, e)
    case Read(t, k) => Cached(s, BuildKey(t, k))
    case Swap => Swapped(s)
    case Publish => if s.imm.Some? then s.(tables := s.tables + [s.imm.value], published := true) else s
    case Clear => s.(imm := None, published := false)
    case Evict(keys) => s.(cache := s.cache - keys)
    case Crash(pending) => State(s.log + pending, Replay(s.log + pending), None, false, [], map[])
  }

  ghost predicate Plain(e: LogEntry) { COLON !in e.tenant && e.timestamp > 0 }

  ghost predicate Later(t: Table, e: LogEntry) {
    CompositeKey(e) in t ==> t[CompositeKey(e)].timestamp < e.timestamp
  }

  /** Tenants have no ':'; clocks tick between a flush and the next operation on a flushed key; a
      flush runs to its end before the next one starts. */
  ghost predicate Enabled(s: State, step: Step) {
    match step
    case Operate(e) =>
      && Plain(e) && (s.imm.Some? ==> Later(s.imm.value, e))
      && forall i :: 0 <= i < |s.tables| ==> Later(s.tables[i], e)
    case Read(t, k) => true
    case Swap => s.imm.None?
    case Publish => s.imm.Some? && !s.published
    case Clear => s.imm.Some? && s.published
    case Evict(keys) => true
    case Crash(pending) => forall i :: 0 <= i < |pending| ==> Plain(pending[i])
  }

  ghost function After(s: State, steps: seq<Step>): (s': State) {
    if steps == [] then s else Next(After(s, steps[..|steps| - 1]), steps[|steps| - 1])
  }

  /** Every step is enabled where it is taken. */
  ghost predicate IsRun(s: State, steps: seq<Step>) {
    steps != [] ==> IsRun(s, steps[..|steps| - 1]) && Enabled(After(s, steps[..|steps| - 1]), steps[|steps| - 1])
  }

  // ---------- the specification: one map keyed by tenant and key ----------

  type Contents = map<(Str, Str), Answer>

  ghost function Do(m: Contents, e: LogEntry): (m': Contents) {
    if e.op.Delete? then m - {(e.tenant, e.key)} else m[(e.tenant, e.key) := Answer(e.value, e.clock)]
  }

  ghost function DoAll(m: Contents, es: seq<LogEntry>): (m': Contents) {
    if es == [] then m else Do(DoAll(m, es[..|es| - 1]), es[|es| - 1])
  }

  ghost function SpecNext(m: Contents, step: Step): (m': Contents) {
    match step
    case Operate(e) => Do(m, e)
    case Crash(pending) => DoAll(m, pending)
    case _ => m
  }

  ghost function SpecRun(steps: seq<Step>): (m: Contents) {
    if steps == [] then map[] else SpecNext(SpecRun(steps[..|steps| - 1]), steps[|steps| - 1])
  }

  ghost function SpecRead(m: Contents, tenant: Str, key: Str): (r: Option<Answer>) {
    if (tenant, key) in m then Some(m[(tenant, key)]) else None
  }

  // ---------- the invariant ----------

  /** All versions held, oldest layer first; a published immutable memtable is already a table. */
  ghost function Layers(s: State): (ts: seq<Table>) {
    s.tables + (if s.imm.Some? && !s.published then [s.imm.value] else []) + [s.mem]
  }

  ghost predicate FlushOk(s: State) {
    s.published ==> s.imm.Some? && s.tables != [] && s.tables[|s.tables| - 1] == s.imm.value
  }

  /** The newest version of every key is what the log says. */
  ghost predicate MatchesLog(s: State) {
    forall k :: Newest(Layers(s), k) == Lookup(Replay(s.log), k)
  }

  /** A cached answer is the current one. */
  ghost predicate CacheCurrent(s: State) {
    forall k :: k in s.cache ==> Visible(Newest(Layers(s), k)) == Some(s.cache[k])
  }

  ghost predicate Inv(s: State) {
    FlushOk(s) && Rising(Layers(s)) && MatchesLog(s) && CacheCurrent(s)
  }

  /** Under the invariant every read returns the newest version. */
  lemma ReadIsNewest(s: State, k: Str)
    requires FlushOk(s) && Rising(Layers(s)) && CacheCurrent(s)
    ensures (if MemGet(s, k).Some? then MemGet(s, k) else Latest(s.tables, k)) == Newest(Layers(s), k)
    ensures ReadAnswer(s, k) == Visible(Newest(Layers(s), k))
  {
    LookupIsNewest(s, k);
  }

  /** Behind the cache the lookup order finds the newest version. */
  lemma LookupIsNewest(s: State, k: Str)
    requires FlushOk(s) && Rising(Layers(s))
    ensures (if MemGet(s, k).Some? then MemGet(s, k) else Latest(s.tables, k)) == Newest(Layers(s), k)
  {
    hide Rising, Latest;
    assert Layers(s) == Below(s) + [s.mem];
    TablesInOrder(s, k);
    NewestAppend(Below(s), s.mem, k);
    if s.imm.Some? && !s.published { NewestAppend(s.tables, s.imm.value, k); }
  }

  /** On the tables themselves the largest timestamp is the newest version. */
  lemma TablesInOrder(s: State, k: Str)
    requires Rising(Layers(s))
    ensures Latest(s.tables, k) == Newest(s.tables, k)
  {
    assert forall i :: 0 <= i < |s.tables| ==> s.tables[i] == Layers(s)[i];
    LatestIsNewest(s.tables, k);
  }

  // ---------- every step keeps it ----------

  /** `t` can be laid on top of `below`. */
  ghost predicate OnTop(below: seq<Table>, t: Table) {
    forall k :: k in t ==>
      t[k].timestamp > 0 && forall i :: 0 <= i < |below| && k in below[i] ==> below[i][k].timestamp < t[k].timestamp
  }

  lemma RisingSplits(below: seq<Table>, t: Table)
    requires Rising(below + [t])
    ensures Rising(below) && OnTop(below, t)
  {
    var ts: seq<Table> := below + [t];
    assert ts[|below|] == t && forall i :: 0 <= i < |below| ==> ts[i] == below[i];
  }

  lemma RisingJoins(below: seq<Table>, t: Table)
    requires Rising(below) && OnTop(below, t)
    ensures Rising(below + [t])
  {
    var ts: seq<Table> := below + [t];
    forall i, j, k | 0 <= i < j < |ts| && k in ts[i] && k in ts[j] ensures ts[i][k].timestamp < ts[j][k].timestamp {
      assert ts[i] == below[i];
      if j < |below| { assert ts[j] == below[j]; }
    }
  }

  /** Putting a version above the others keeps the order. */
  lemma PutOnTop(below: seq<Table>, top: Table, k: Str, e: MemEntry)
    requires Rising(below + [top]) && e.timestamp > 0
    requires forall i :: 0 <= i < |below| && k in below[i] ==> below[i][k].timestamp < e.timestamp
    ensures Rising(below + [top[k := e]])
  {
    hide Rising;
    RisingSplits(below, top);
    RisingJoins(below, top[k := e]);
  }

  ghost function Below(s: State): (ts: seq<Table>) {
    if s.imm.Some? && !s.published then s.tables + [s.imm.value] else s.tables
  }

  /** The newest version after putting one in the memtable. */
  lemma NewestAfterPut(s: State, s': State, k: Str, e: MemEntry, j: Str)
    requires s'.tables == s.tables && s'.imm == s.imm && s'.published == s.published && s'.mem == s.mem[k := e]
    ensures Layers(s) == Below(s) + [s.mem] && Layers(s') == Below(s) + [s'.mem]
    ensures Newest(Layers(s'), j) == if j == k then Some(e) else Newest(Layers(s), j)
  {
    assert Layers(s) == Below(s) + [s.mem] && Layers(s') == Below(s) + [s'.mem];
    NewestAppend(Below(s), s.mem, j);
    NewestAppend(Below(s), s'.mem, j);
  }

  lemma OperateKeepsInv(s: State, e: LogEntry)
    requires Inv(s) && Enabled(s, Operate(e))
    ensures Inv(Operated(s, e))
  {
    hide Rising, Newest, Layers, Replay, CompositeKey;
    var s', k, m := Operated(s, e), CompositeKey(e), EntryOf(e);
    OperateKeepsOrder(s, e);
    ReplayOne(s.log, e);
    forall j ensures Newest(Layers(s'), j) == Lookup(Replay(s'.log), j) { NewestAfterPut(s, s', k, m, j); }
    forall j | j in s'.cache
      ensures Visible(Newest(Layers(s'), j)) == Some(s'.cache[j])
    {
      NewestAfterPut(s, s', k, m, j);
    }
  }

  lemma OperateKeepsOrder(s: State, e: LogEntry)
    requires Rising(Layers(s)) && Enabled(s, Operate(e))
    ensures Rising(Layers(Operated(s, e)))
  {
    hide Rising, Newest;
    var k := CompositeKey(e);
    NewestAfterPut(s, Operated(s, e), k, EntryOf(e), k);
    forall i | 0 <= i < |Below(s)| && k in Below(s)[i] ensures Below(s)[i][k].timestamp < e.timestamp {
      assert i < |s.tables| ==> Later(s.tables[i], e);
    }
    PutOnTop(Below(s), s.mem, k, EntryOf(e));
  }

  lemma ReplayOne(log: seq<LogEntry>, e: LogEntry)
    ensures Replay(log + [e]) == Replay(log)[CompositeKey(e) := EntryOf(e)]
  {
    assert (log + [e])[..|log|] == log;
  }

  lemma FlushKeepsInv(s: State, step: Step)
    requires Inv(s) && Enabled(s, step) && (step.Swap? || step.Publish? || step.Clear?)
    ensures Inv(Next(s, step))
    ensures forall k :: Newest(Layers(Next(s, step)), k) == Newest(Layers(s), k)
  {
    hide Rising, Newest;
    FlushKeepsVersions(s, step);
  }

  lemma FlushKeepsVersions(s: State, step: Step)
    requires FlushOk(s) && Rising(Layers(s)) && Enabled(s, step) && (step.Swap? || step.Publish? || step.Clear?)
    ensures FlushOk(Next(s, step)) && Rising(Layers(Next(s, step)))
    ensures forall k :: Newest(Layers(Next(s, step)), k) == Newest(Layers(s), k)
  {
    var s' := Next(s, step);
    if step.Swap? {
      assert Layers(s') == Layers(s) + [map[]];
      hide Rising, Newest;
      forall k ensures Newest(Layers(s'), k) == Newest(Layers(s), k) { NewestAppend(Layers(s), map[], k); }
      RisingJoins(Layers(s), map[]);
    } else {
      assert Layers(s') == Layers(s);
    }
  }

  lemma {:induction false} ReplayStamps(log: seq<LogEntry>)
    requires forall i :: 0 <= i < |log| ==> Plain(log[i])
    ensures forall k :: k in Replay(log) ==> Replay(log)[k].timestamp > 0
  {
    if log != [] { ReplayStamps(log[..|log| - 1]); }
  }

  lemma CrashKeepsInv(s: State, pending: seq<LogEntry>)
    requires forall i :: 0 <= i < |s.log + pending| ==> Plain((s.log + pending)[i])
    ensures Inv(Next(s, Crash(pending)))
  {
    var s' := Next(s, Crash(pending));
    ReplayStamps(s'.log);
    assert Layers(s') == [s'.mem];
    forall k ensures Newest(Layers(s'), k) == Lookup(Replay(s'.log), k) {
      NewestAppend([], s'.mem, k);
      assert [] + [s'.mem] == [s'.mem];
    }
  }

  /** The invariant, and a log of plain operations. */
  ghost predicate Good(s: State) {
    Inv(s) && forall i :: 0 <= i < |s.log| ==> Plain(s.log[i])
  }

  /** Every enabled step keeps the invariant. */
  lemma StepKeepsGood(s: State, step: Step)
    requires Good(s) && Enabled(s, step)
    ensures Good(Next(s, step))
  {
    var s' := Next(s, step);
    match step
    case Operate(e) => OperateKeepsInv(s, e);
    case Read(t, k) =>
      ReadIsNewest(s, BuildKey(t, k));
      assert Layers(s') == Layers(s);
    case Evict(keys) => assert Layers(s') == Layers(s);
    case Crash(pending) => CrashKeepsInv(s, pending);
    case _ => FlushKeepsInv(s, step);
  }

  lemma InitIsGood()
    ensures Good(INIT)
  {
    assert Layers(INIT) == [map[]];
    assert forall k :: Newest([map[]], k) == None;
  }

  lemma {:induction false} RunKeepsGood(s: State, steps: seq<Step>)
    requires Good(s) && IsRun(s, steps)
    ensures Good(After(s, steps))
    decreases |steps|
  {
    if steps != [] {
      RunKeepsGood(s, steps[..|steps| - 1]);
      StepKeepsGood(After(s, steps[..|steps| - 1]), steps[|steps| - 1]);
    }
  }

  // ---------- the theorem ----------

  /** A replayed log holds, for every tenant without ':', what the one map holds. */
  ghost predicate SameAs(log: Table, m: Contents) {
    forall t, k :: COLON !in t ==> Visible(Lookup(log, BuildKey(t, k))) == SpecRead(m, t, k)
  }

  lemma DoKeepsSame(log: Table, m: Contents, e: LogEntry)
    requires SameAs(log, m) && Plain(e)
    ensures SameAs(log[CompositeKey(e) := EntryOf(e)], Do(m, e))
  {
    var log', m' := log[CompositeKey(e) := EntryOf(e)], Do(m, e);
    forall t, k | COLON !in t ensures Visible(Lookup(log', BuildKey(t, k))) == SpecRead(m', t, k) {
      if BuildKey(t, k) == CompositeKey(e) {
        BuildKeyInjective(t, k, e.tenant, e.key);
      } else {
        assert (t, k) != (e.tenant, e.key);
        assert SpecRead(m', t, k) == SpecRead(m, t, k);
        assert Lookup(log', BuildKey(t, k)) == Lookup(log, BuildKey(t, k));
      }
    }
  }

  lemma {:induction false} DoAllKeepsSame(log: seq<LogEntry>, m: Contents, es: seq<LogEntry>)
    requires SameAs(Replay(log), m) && forall i :: 0 <= i < |es| ==> Plain(es[i])
    ensures SameAs(Replay(log + es), DoAll(m, es))
    decreases |es|
  {
    hide SameAs, Replay, Do, Plain, CompositeKey, EntryOf;
    if es == [] {
      assert log + es == log;
    } else {
      var init, e := es[..|es| - 1], es[|es| - 1];
      DoAllKeepsSame(log, m, init);
      DoKeepsSame(Replay(log + init), DoAll(m, init), e);
      ReplayAppend(log, init, e);
      assert es == init + [e];
    }
  }

  lemma {:induction false} LogMatchesSpec(steps: seq<Step>)
    requires IsRun(INIT, steps)
    ensures SameAs(Replay(After(INIT, steps).log), SpecRun(steps))
  {
    if steps != [] {
      var init, step := steps[..|steps| - 1], steps[|steps| - 1];
      LogMatchesSpec(init);
      var log := After(INIT, init).log;
      match step
      case Operate(e) =>
        DoAllKeepsSame(log, SpecRun(init), [e]);
        assert DoAll(SpecRun(init), [e]) == Do(SpecRun(init), e) by { assert [e][..0] == []; }
      case Crash(pending) => DoAllKeepsSame(log, SpecRun(init), pending);
      case _ =>
    }
  }

  /** The storage engine is one map keyed by tenant and key: after every run, crashes and half
      finished flushes included, every read through cache, memtables and SSTables returns what the
      map returns, and so does every cached entry. */
  lemma EngineIsOneMap(steps: seq<Step>, tenant: Str, key: Str)
    requires IsRun(INIT, steps) && COLON !in tenant
    ensures ReadAnswer(After(INIT, steps), BuildKey(tenant, key)) == SpecRead(SpecRun(steps), tenant, key)
    ensures BuildKey(tenant, key) in After(INIT, steps).cache ==>
              Some(After(INIT, steps).cache[BuildKey(tenant, key)]) == SpecRead(SpecRun(steps), tenant, key)
  {
    InitIsGood();
    RunKeepsGood(INIT, steps);
    LogMatchesSpec(steps);
    ReadIsNewest(After(INIT, steps), BuildKey(tenant, key));
  }
}
