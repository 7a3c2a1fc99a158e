/** Reads whose parts are separated by other steps, and flushes that fail.

    A read looks at the memtables under one lock and at the SSTables under another; it fills the
    cache at the very end. Between these points other operations and flush steps can happen. */
module InterleavedReads {
  import opened GoStrings
  import opened SSTableFormat
  import opened StorageEngine

  ghost function Current(s: State, k: Str): (r: Option<MemEntry>) { Newest(Layers(s), k) }

  ghost predicate NoCrash(steps: seq<Step>) {
    forall i :: 0 <= i < |steps| ==> !steps[i].Crash?
  }

  /** `v` was the current version of `k` at some moment of the run. */
  ghost predicate WasCurrent(s: State, steps: seq<Step>, k: Str, v: Option<MemEntry>) {
    exists i :: 0 <= i <= |steps| && Current(After(s, steps[..i]), k) == v
  }

  /** What a read finds that looks at the memtables at the start of the run and at the SSTables at
      its end. */
  ghost function SplitRead(s: State, steps: seq<Step>, k: Str): (r: Option<MemEntry>) {
    if MemGet(s, k).Some? then MemGet(s, k) else Latest(After(s, steps).tables, k)
  }

  lemma WasCurrentExtends(s: State, steps: seq<Step>, k: Str, v: Option<MemEntry>)
    requires steps != [] && WasCurrent(s, steps[..|steps| - 1], k, v)
    ensures WasCurrent(s, steps, k, v)
  {
    var init := steps[..|steps| - 1];
    var i :| 0 <= i <= |init| && Current(After(s, init[..i]), k) == v;
    assert init[..i] == steps[..i];
  }

  lemma CurrentAtEnd(s: State, steps: seq<Step>, k: Str)
    ensures WasCurrent(s, steps, k, Current(After(s, steps), k))
  {
    assert steps[..|steps|] == steps;
  }

  /** Versions on their way into the tables were current when they left the memtable. */
  ghost predicate LeftWhenCurrent(s: State, steps: seq<Step>, k: Str, now: State) {
    && WasCurrent(s, steps, k, Newest(now.tables, k))
    && (now.imm.Some? && !now.published && k in now.imm.value ==> WasCurrent(s, steps, k, Some(now.imm.value[k])))
  }

  lemma LeftWhenCurrentStep(s: State, steps: seq<Step>, k: Str, now: State, step: Step)
    requires Enabled(now, step) && !step.Crash? && FlushOk(now)
    requires LeftWhenCurrent(s, steps, k, now) && WasCurrent(s, steps, k, Current(now, k))
    ensures LeftWhenCurrent(s, steps, k, Next(now, step))
  {
    hide WasCurrent, Newest;
    if step.Publish? {
      NewestAppend(now.tables, now.imm.value, k);
    } else if step.Swap? {
      if k in now.mem { SwappedWasCurrent(now, k); }
    } else {
      FlushPartsStay(now, step);
    }
  }

  lemma SwappedWasCurrent(now: State, k: Str)
    requires Enabled(now, Step.Swap) && FlushOk(now) && k in now.mem
    ensures Current(now, k) == Some(now.mem[k])
  {
    assert Layers(now) == now.tables + [now.mem];
    NewestAppend(now.tables, now.mem, k);
  }

  lemma FlushPartsStay(now: State, step: Step)
    requires !step.Crash? && !step.Publish? && !step.Swap?
    ensures Next(now, step).tables == now.tables
    ensures step.Clear? || (Next(now, step).imm == now.imm && Next(now, step).published == now.published)
  {
  }

  lemma {:induction false} TablesWereCurrent(s: State, steps: seq<Step>, k: Str)
    requires Good(s) && IsRun(s, steps) && NoCrash(steps) && MemGet(s, k).None?
    ensures LeftWhenCurrent(s, steps, k, After(s, steps))
    decreases |steps|
  {
    if steps == [] {
      hide Rising, Newest, Latest;
      ReadIsNewest(s, k);
      TablesInOrder(s, k);
      CurrentAtEnd(s, [], k);
    } else {
      var init, step := steps[..|steps| - 1], steps[|steps| - 1];
      TablesWereCurrent(s, init, k);
      RunKeepsGood(s, init);
      var now := After(s, init);
      CurrentAtEnd(s, init, k);
      LeftWhenCurrentStep(s, init, k, now, step);
      var then_ := Next(now, step);
      WasCurrentExtends(s, steps, k, Newest(then_.tables, k));
      if then_.imm.Some? && !then_.published && k in then_.imm.value {
        WasCurrentExtends(s, steps, k, Some(then_.imm.value[k]));
      }
    }
  }

  /** A read split around any steps but a crash returns what was current at some moment in between:
      splitting it cannot be told from doing it at once. */
  lemma SplitReadIsAtomic(s: State, steps: seq<Step>, k: Str)
    requires Good(s) && IsRun(s, steps) && NoCrash(steps)
    ensures WasCurrent(s, steps, k, SplitRead(s, steps, k))
  {
    hide Rising, Newest, Latest;
    if MemGet(s, k).Some? {
      ReadIsNewest(s, k);
      assert steps[..0] == [];
      assert Current(After(s, steps[..0]), k) == MemGet(s, k);
    } else {
      TablesWereCurrent(s, steps, k);
      RunKeepsGood(s, steps);
      TablesInOrder(After(s, steps), k);
    }
  }

  /** In particular a key that is present and undeleted throughout is never reported missing. */
  lemma LiveKeyIsNeverMissed(s: State, steps: seq<Step>, k: Str)
    requires Good(s) && IsRun(s, steps) && NoCrash(steps)
    requires forall i :: 0 <= i <= |steps| ==> Visible(Current(After(s, steps[..i]), k)).Some?
    ensures Visible(SplitRead(s, steps, k)).Some?
  {
    SplitReadIsAtomic(s, steps, k);
    var i :| 0 <= i <= |steps| && Current(After(s, steps[..i]), k) == SplitRead(s, steps, k);
  }

  // ---------- filling the cache late ----------

  /** The last operation on `k` among the steps. */
  ghost function LastOn(steps: seq<Step>, k: Str): (r: Option<LogEntry>) {
    if steps == [] then None
    else
      var last := steps[|steps| - 1];
      if last.Operate? && CompositeKey(last.entry) == k then Some(last.entry) else LastOn(steps[..|steps| - 1], k)
  }

  lemma {:induction false} CurrentAfter(s: State, steps: seq<Step>, k: Str)
    requires Good(s) && IsRun(s, steps) && NoCrash(steps)
    ensures Current(After(s, steps), k) ==
        if LastOn(steps, k).Some? then Some(EntryOf(LastOn(steps, k).value)) else Current(s, k)
    decreases |steps|
  {
    if steps != [] {
      var init, step := steps[..|steps| - 1], steps[|steps| - 1];
      CurrentAfter(s, init, k);
      RunKeepsGood(s, init);
      var now := After(s, init);
      match step
      case Operate(e) => NewestAfterPut(now, Next(now, step), CompositeKey(e), EntryOf(e), k);
      case Read(_, _) => assert Layers(Next(now, step)) == Layers(now);
      case Evict(_) => assert Layers(Next(now, step)) == Layers(now);
      case _ => FlushKeepsInv(now, step);
    }
  }

  /** Caching, after other steps, an answer that was current before them leaves a right cache
      exactly if the last operation on the key in between, if any, wrote that same answer. */
  lemma LateCacheFillIff(s: State, steps: seq<Step>, k: Str, a: Answer)
    requires Good(s) && IsRun(s, steps) && NoCrash(steps) && Visible(Current(s, k)) == Some(a)
    ensures var now := After(s, steps);
            Inv(now.(cache := now.cache[k := a])) <==>
            LastOn(steps, k).None? || Visible(Some(EntryOf(LastOn(steps, k).value))) == Some(a)
  {
    CurrentAfter(s, steps, k);
    RunKeepsGood(s, steps);
    var now := After(s, steps);
    var then_ := now.(cache := now.cache[k := a]);
    assert Layers(then_) == Layers(now);
    hide Newest, Rising;
    assert then_.cache[k] == a;
  }

  // ---------- a flush that fails ----------

  /** Swapping memtables while an unpublished one is still in the immutable slot, as happens after
      a failed flush, changes no read exactly if every key of that table that is neither in the
      memtable nor in the cache reads the same from the SSTables. */
  lemma SwapAfterFailedFlushReadsIff(s: State)
    requires s.imm.Some?
    ensures (forall k :: ReadAnswer(Swapped(s), k) == ReadAnswer(s, k)) <==>
            forall k :: k in s.imm.value && k !in s.mem && k !in s.cache ==>
              Visible(Some(s.imm.value[k])) == Visible(Latest(s.tables, k))
  {
    hide Latest, Visible;
    forall k ensures ReadAnswer(Swapped(s), k) == ReadAnswer(s, k) <==>
                     (k in s.imm.value && k !in s.mem && k !in s.cache ==>
                       Visible(Some(s.imm.value[k])) == Visible(Latest(s.tables, k)))
    {
    }
  }

  /** It loses no key's newest version exactly if every key of that table was written again since. */
  lemma SwapAfterFailedFlushIff(s: State)
    requires Inv(s) && s.imm.Some? && !s.published
    ensures (forall k :: Newest(Layers(Swapped(s)), k) == Current(s, k)) <==> s.imm.value.Keys <= s.mem.Keys
  {
    var s' := Swapped(s);
    assert Layers(s) == s.tables + [s.imm.value] + [s.mem];
    assert Layers(s') == s.tables + [s.mem] + [map[]];
    forall k ensures Newest(Layers(s'), k) == Current(s, k) <==> (k in s.imm.value ==> k in s.mem) {
      NewestAppend(s.tables + [s.imm.value], s.mem, k);
      NewestAppend(s.tables, s.imm.value, k);
      NewestAppend(s.tables + [s.mem], map[], k);
      NewestAppend(s.tables, s.mem, k);
      if k in s.imm.value { TablesAreOlder(s, k); }
    }
  }

  lemma TablesAreOlder(s: State, k: Str)
    requires Rising(Layers(s)) && s.imm.Some? && !s.published && k in s.imm.value
    ensures Newest(s.tables, k) != Some(s.imm.value[k])
  {
    var ts := Layers(s);
    assert ts[|s.tables|] == s.imm.value && forall i :: 0 <= i < |s.tables| ==> ts[i] == s.tables[i];
    TablesInOrder(s, k);
    LatestBounds(s.tables, k);
  }

  /** What a lost table held is still in the log: a restart brings it back. */
  lemma RestartRestores(s: State, k: Str)
    requires Good(s)
    ensures Current(Next(Swapped(s), Crash([])), k) == Current(s, k)
  {
    var s' := Next(Swapped(s), Crash([]));
    assert s.log + [] == s.log;
    CrashKeepsInv(Swapped(s), []);
  }

  // ---------- clocks that do not tick ----------

  /** An operation, a whole flush, and the eviction of its key. */
  ghost function Flushed(e: LogEntry): (steps: seq<Step>) {
    [Operate(e), Swap, Publish, Clear, Evict({CompositeKey(e)})]
  }

  lemma AfterOne(s: State, steps: seq<Step>, step: Step)
    ensures After(s, steps + [step]) == Next(After(s, steps), step)
    ensures SpecRun(steps + [step]) == SpecNext(SpecRun(steps), step)
  {
    assert (steps + [step])[..|steps|] == steps;
  }

  lemma AfterFlushed(s: State, steps: seq<Step>, e: LogEntry)
    ensures After(s, steps + Flushed(e)) == FlushedState(After(s, steps), e)
    ensures SpecRun(steps + Flushed(e)) == Do(SpecRun(steps), e)
  {
    var k := CompositeKey(e);
    assert steps + Flushed(e) == steps + [Operate(e)] + [Swap] + [Publish] + [Clear] + [Evict({k})];
    hide After, SpecRun;
    AfterOne(s, steps, Operate(e));
    AfterOne(s, steps + [Operate(e)], Swap);
    AfterOne(s, steps + [Operate(e)] + [Swap], Publish);
    AfterOne(s, steps + [Operate(e)] + [Swap] + [Publish], Clear);
    AfterOne(s, steps + [Operate(e)] + [Swap] + [Publish] + [Clear], Evict({k}));
  }

  ghost function FlushedState(s: State, e: LogEntry): (s': State) {
    var s1 := Operated(s, e);
    State(s1.log, map[], None, false, s1.tables + [s1.mem], s1.cache - {CompositeKey(e)})
  }

  /** After anything at all, an operation that is then flushed reads as the one map says exactly if
      its timestamp is positive and above every flushed version's, or the answers happen to agree:
      the clock hypothesis is needed. */
  lemma FlushedOverwriteIsReadIff(steps: seq<Step>, e: LogEntry)
    ensures var ts, k := After(INIT, steps).tables, CompositeKey(e);
            ReadAnswer(After(INIT, steps + Flushed(e)), k) ==
              SpecRead(SpecRun(steps + Flushed(e)), e.tenant, e.key) <==>
            (e.timestamp > 0 && forall i :: 0 <= i < |ts| && k in ts[i] ==> ts[i][k].timestamp < e.timestamp)
            || Visible(Some(EntryOf(e))) == Visible(Latest(ts, k))
  {
    hide After, SpecRun;
    AfterFlushed(INIT, steps, e);
    FlushedRead(After(INIT, steps), e);
    LatestBounds(After(INIT, steps).tables, CompositeKey(e));
    assert SpecRead(Do(SpecRun(steps), e), e.tenant, e.key) == Visible(Some(EntryOf(e)));
  }

  lemma FlushedRead(s: State, e: LogEntry)
    ensures ReadAnswer(FlushedState(s, e), CompositeKey(e)) ==
            if e.timestamp > Stamp(Latest(s.tables, CompositeKey(e))) then Visible(Some(EntryOf(e)))
            else Visible(Latest(s.tables, CompositeKey(e)))
  {
    var top := s.mem[CompositeKey(e) := EntryOf(e)];
    assert (s.tables + [top])[..|s.tables|] == s.tables;
  }

  function PutEntry(value: Str, timestamp: int): (e: LogEntry) {
    LogEntry(1, [97], [98], value, [], timestamp, Write, 0)
  }

  /** So without the clock hypothesis the engine is not one map: a key overwritten and flushed twice
      within one second reads as its old value. */
  lemma SameSecondOverwriteIsLost()
    ensures var steps := Flushed(PutEntry([1], 5)) + Flushed(PutEntry([2], 5));
            ReadAnswer(After(INIT, steps), BuildKey([97], [98])) == Some(Answer([1], []))
            && SpecRead(SpecRun(steps), [97], [98]) == Some(Answer([2], []))
  {
    var e1, e2 := PutEntry([1], 5), PutEntry([2], 5);
    assert [] + Flushed(e1) == Flushed(e1);
    AfterFlushed(INIT, [], e1);
    AfterFlushed(INIT, Flushed(e1), e2);
    var s1 := FlushedState(INIT, e1);
    FlushedRead(s1, e2);
    assert s1.tables == [map[CompositeKey(e1) := EntryOf(e1)]];
    assert Latest(s1.tables, CompositeKey(e1)) == Some(EntryOf(e1)) by { assert s1.tables[..0] == []; }
  }
}
