/** The storage service: each operation on the log, the memtables, the SSTables and the cache is a
    step of the storage engine, followed by whatever the cache evicts. */
module StorageService {
  import opened GoStrings
  import opened VectorClocks
  import opened SSTableFormat
  import opened StorageEngine
  import opened SkipLists
  import opened MemTables
  import opened CommitLog
  import opened SSTables
  import opened Cache

  ghost function Answers(m: map<Str, CacheEntry>): (r: map<Str, Answer>) {
    map k | k in m :: Answer(m[k].value, m[k].clock)
  }

  /** `s'` is `s` with some keys missing from the cache. */
  ghost predicate Evicted(s: State, s': State) {
    s' == Next(s, Evict(s.cache.Keys - s'.cache.Keys))
  }

  /** The cache takes the entry: it has the key, or evictions can make room. Otherwise the call that
      caches it never returns. */
  ghost predicate CacheRoom(m: map<Str, CacheEntry>, maxSize: int, k: Str, value: Str) {
    k in m || TotalSize(Pinned(m)) + |k| + |value| + 64 <= maxSize
  }

  /** How the cache's keys change when an answer is cached under `k`: if there can be room, `k` is one
      of them, and no more are evicted for it than needed. */
  ghost predicate CacheTakes(before: map<Str, CacheEntry>, after: map<Str, CacheEntry>, maxSize: int, k: Str,
        value: Str) {
    && (CacheRoom(before, maxSize, k, value) ==> k in after)
    && (if k in before then after.Keys == before.Keys
        else ByNeed(after - {k}, before, |k| + |value| + 64, maxSize))
  }

  /** The state agrees with a map keyed by tenant and key, and the invariant holds. */
  ghost predicate Tracks(s: State, m: Contents) {
    Good(s) && SameAs(Replay(s.log), m)
  }

  /** An enabled step and some evictions keep state and map in agreement. */
  lemma StepTracks(s: State, m: Contents, step: Step, s': State)
    requires Tracks(s, m) && Enabled(s, step) && Evicted(Next(s, step), s')
    ensures Tracks(s', SpecNext(m, step))
  {
    hide Inv, SameAs, Replay, Operated, Swapped, Cached;
    var s1 := Next(s, step);
    StepKeepsGood(s, step);
    StepKeepsGood(s1, Evict(s1.cache.Keys - s'.cache.Keys));
    StepLog(s, step);
    match step
    case Operate(e) =>
      DoAllKeepsSame(s.log, m, [e]);
      OneOperation(m, e);
    case Crash(pending) => DoAllKeepsSame(s.log, m, pending);
    case _ =>
  }

  lemma StepLog(s: State, step: Step)
    ensures Next(s, step).log == match step
          case Operate(e) => s.log + [e]
          case Crash(pending) => s.log + pending
          case _ => s.log
  {
  }

  lemma OneOperation(m: Contents, e: LogEntry)
    ensures DoAll(m, [e]) == Do(m, e)
  {
    assert [e][..0] == [];
  }

  /** A state that tracks a map answers every read as the map does. */
  lemma TrackedRead(s: State, m: Contents, tenant: Str, key: Str)
    requires Tracks(s, m) && COLON !in tenant
    ensures ReadAnswer(s, BuildKey(tenant, key)) == SpecRead(m, tenant, key)
  {
    ReadIsNewest(s, BuildKey(tenant, key));
  }

  class Service {
    const commitLog: CommitLogService
    const memTables: MemTableService
    const sstables: SSTableService
    const cache: CacheService
    ghost var published: bool
    ghost var spec: Contents    // the one map the service stands for

    ghost predicate Valid()
      reads this, commitLog, memTables, memTables.Repr, sstables, cache
    {
      && commitLog.Valid() && memTables.Valid() && sstables.Valid() && cache.Valid()
      && this !in memTables.Repr && commitLog !in memTables.Repr
      && sstables !in memTables.Repr && cache !in memTables.Repr
      && |sstables.contents| == LEVELS && forall l :: 1 <= l < LEVELS ==> sstables.contents[l] == []
    }

    /** The state of the engine. */
    ghost function Abs(): (s: State)
      requires Valid()
      reads this, commitLog, memTables, memTables.Repr, sstables, cache
    {
      State(Flat(commitLog.logged), memTables.Mem(), memTables.Imm(), published,
            sstables.contents[0], Answers(cache.cache))
    }

    constructor (commitLog: CommitLogService, memTables: MemTableService, sstables: SSTableService, cache: CacheService,
          ghost spec: Contents)
      requires commitLog.Valid() && memTables.Valid() && sstables.Valid() && cache.Valid()
      requires commitLog !in memTables.Repr && sstables !in memTables.Repr && cache !in memTables.Repr
      requires |sstables.contents| == LEVELS && forall l :: 1 <= l < LEVELS ==> sstables.contents[l] == []
      ensures Valid() && this.commitLog == commitLog && this.memTables == memTables && this.sstables == sstables
      ensures this.cache == cache
      ensures !published && this.spec == spec
    {
      hide SkipList.Valid, MemTable.Valid, CommitLogService.Valid, MemTableService.Valid, SSTableService.Valid,
           CacheService.Valid;
      this.commitLog, this.memTables, this.sstables, this.cache := commitLog, memTables, sstables, cache;
      published := false;
      this.spec := spec;
    }

    /** Log and memtable: the part Write, Repair and Delete have in common. */
    method Record(entry: LogEntry) returns (e: LogEntry)
      requires Valid()
      modifies commitLog, memTables.Repr
      ensures Valid() && fresh(memTables.Repr - old(memTables.Repr)) && cache.cache == old(cache.cache)
      ensures e.(seqNo := 0, checksum := 0) == entry.(seqNo := 0, checksum := 0)
      ensures Abs() == Operated(old(Abs()), e).(cache := old(Abs()).cache)
    {
      hide SkipList.Valid, MemTable.Valid, CommitLogService.Valid, CacheService.Valid, MemTableService.Valid;
      e := commitLog.Append(entry);
      var memEntry := MemEntry(BuildKey(e.tenant, e.key), e.value, e.clock, e.timestamp, e.op.Delete?);
      memTables.Put(memEntry);
    }

    /** Write. `admitted` says whether validation and the disk check let it through; `ends` whether
        the call returns. */
    method Write(tenant: Str, key: Str, value: Str, clock: Clock, now: int, score: real, admitted: bool)
      returns (ok: bool, ends: bool, ghost e: LogEntry)
      requires Valid()
      modifies this`spec, commitLog, memTables.Repr, cache
      ensures Valid() && fresh(memTables.Repr - old(memTables.Repr)) && ok == admitted
      ensures ends <==> !ok || old(CacheRoom(cache.cache, cache.maxSize, BuildKey(tenant, key), value))
      ensures !ok ==> Abs() == old(Abs()) && spec == old(spec)
      ensures ok ==> e.(seqNo := 0, checksum := 0) == LogEntry(0, tenant, key, value, clock, now, Operation.Write, 0)
      ensures ok ==> Evicted(Next(old(Abs()), Operate(e)), Abs()) && spec == Do(old(spec), e)
      ensures ok ==> CacheTakes(old(cache.cache), cache.cache, cache.maxSize, BuildKey(tenant, key), value)
      ensures ok && Tracks(old(Abs()), old(spec)) && Enabled(old(Abs()), Operate(e)) ==> Tracks(Abs(), spec)
    {
      var entry := LogEntry(0, tenant, key, value, clock, now, Operation.Write, 0);
      e := entry;
      if !admitted {
        return false, true, e;
      }
      e, ends := Perform(entry, score);
      ok := true;
    }

    /** Repair: as Write, without validation. */
    method Repair(tenant: Str, key: Str, value: Str, clock: Clock, now: int, score: real)
      returns (ends: bool, ghost e: LogEntry)
      requires Valid()
      modifies this`spec, commitLog, memTables.Repr, cache
      ensures Valid() && fresh(memTables.Repr - old(memTables.Repr))
      ensures ends <==> old(CacheRoom(cache.cache, cache.maxSize, BuildKey(tenant, key), value))
      ensures e.(seqNo := 0, checksum := 0) == LogEntry(0, tenant, key, value, clock, now, Operation.Repair, 0)
      ensures CacheTakes(old(cache.cache), cache.cache, cache.maxSize, BuildKey(tenant, key), value)
      ensures Evicted(Next(old(Abs()), Operate(e)), Abs()) && spec == Do(old(spec), e)
      ensures Tracks(old(Abs()), old(spec)) && Enabled(old(Abs()), Operate(e)) ==> Tracks(Abs(), spec)
    {
      e, ends := Perform(LogEntry(0, tenant, key, value, clock, now, Operation.Repair, 0), score);
    }

    /** Log, memtable, cache. */
    method Perform(entry: LogEntry, score: real) returns (e: LogEntry, ends: bool)
      requires Valid() && !entry.op.Delete?
      modifies this`spec, commitLog, memTables.Repr, cache
      ensures Valid() && fresh(memTables.Repr - old(memTables.Repr))
      ensures ends <==> old(CacheRoom(cache.cache, cache.maxSize, CompositeKey(entry), entry.value))
      ensures e.(seqNo := 0, checksum := 0) == entry.(seqNo := 0, checksum := 0)
      ensures CacheTakes(old(cache.cache), cache.cache, cache.maxSize, CompositeKey(entry), entry.value)
      ensures Evicted(Next(old(Abs()), Operate(e)), Abs()) && spec == Do(old(spec), e)
      ensures Tracks(old(Abs()), old(spec)) && Enabled(old(Abs()), Operate(e)) ==> Tracks(Abs(), spec)
    {
      hide SkipList.Valid, MemTable.Valid, CommitLogService.Valid, MemTableService.Valid, SSTableService.Valid,
           CacheService.Valid, Flat, Tracks, Enabled, TotalSize, Pinned, ByNeed, Do, Next, Evicted;
      ghost var s := Abs();
      e := Record(entry);
      var k := BuildKey(e.tenant, e.key);
      ghost var before := cache.cache;
      ends := cache.Put(k, e.value, e.clock, score);
      PutAnswers(before, cache.cache, k, e.value, e.clock);
      Performed(s, Abs(), e);
      if Tracks(s, spec) && Enabled(s, Operate(e)) { StepTracks(s, spec, Operate(e), Abs()); }
      spec := Do(spec, e);
    }

    /** Delete: a tombstone in the log and the memtable; the cache forgets the key. */
    method Delete(tenant: Str, key: Str, clock: Clock, now: int, admitted: bool) returns (ok: bool, ghost e: LogEntry)
      requires Valid()
      modifies this`spec, commitLog, memTables.Repr, cache
      ensures Valid() && fresh(memTables.Repr - old(memTables.Repr)) && ok == admitted
      ensures !ok ==> Abs() == old(Abs()) && spec == old(spec)
      ensures ok ==> e.(seqNo := 0, checksum := 0) == LogEntry(0, tenant, key, [], clock, now, Operation.Delete, 0)
      ensures ok ==> Abs() == Next(old(Abs()), Operate(e)) && spec == Do(old(spec), e)
      ensures ok && Tracks(old(Abs()), old(spec)) && Enabled(old(Abs()), Operate(e)) ==> Tracks(Abs(), spec)
    {
      hide SkipList.Valid, MemTable.Valid, CommitLogService.Valid, MemTableService.Valid, SSTableService.Valid,
           CacheService.Valid, Flat, Tracks, Enabled, Do;
      var entry := LogEntry(0, tenant, key, [], clock, now, Operation.Delete, 0);
      e := entry;
      if !admitted {
        return false, e;
      }
      ghost var s := Abs();
      e := Record(entry);
      var k := BuildKey(tenant, key);
      ghost var before := cache.cache;
      cache.Remove(k);
      assert Answers(before - {k}) == Answers(before) - {k};
      NothingEvicted(Abs());
      if Tracks(s, spec) && Enabled(s, Operate(e)) { StepTracks(s, spec, Operate(e), Abs()); }
      spec := Do(spec, e);
      ok := true;
    }

    /** Read: cache, memtables, SSTables; what is found outside the cache is cached. While the state
        tracks the map this is the map's answer. */
    method Read(tenant: Str, key: Str, score: real) returns (r: Option<Answer>, ends: bool)
      requires Valid()
      modifies cache
      ensures Valid() && r == ReadAnswer(old(Abs()), BuildKey(tenant, key))
      ensures ends <==> (r.Some? ==> old(CacheRoom(cache.cache, cache.maxSize, BuildKey(tenant, key), r.value.value)))
      ensures Evicted(Next(old(Abs()), Step.Read(tenant, key)), Abs())
      ensures if r.None? then cache.cache == old(cache.cache)
              else CacheTakes(old(cache.cache), cache.cache, cache.maxSize, BuildKey(tenant, key), r.value.value)
      ensures Tracks(old(Abs()), spec) ==>
          Tracks(Abs(), spec) && (COLON !in tenant ==> r == SpecRead(spec, tenant, key))
    {
      hide SkipList.Valid, MemTable.Valid, CommitLogService.Valid, MemTableService.Valid, SSTableService.Valid,
           CacheService.Valid, Flat, Latest, TotalSize, Tracks, SpecRead, CacheTakes;
      ghost var s := Abs();
      r, ends := Look(tenant, key, score);
      if Tracks(s, spec) {
        StepTracks(s, spec, Step.Read(tenant, key), Abs());
        if COLON !in tenant { TrackedRead(s, spec, tenant, key); }
      }
    }

    /** The body of Read. */
    method Look(tenant: Str, key: Str, score: real) returns (r: Option<Answer>, ends: bool)
      requires Valid()
      modifies cache
      ensures Valid() && r == ReadAnswer(old(Abs()), BuildKey(tenant, key))
      ensures ends <==> (r.Some? ==> old(CacheRoom(cache.cache, cache.maxSize, BuildKey(tenant, key), r.value.value)))
      ensures Evicted(Next(old(Abs()), Step.Read(tenant, key)), Abs())
      ensures if r.None? then cache.cache == old(cache.cache)
              else CacheTakes(old(cache.cache), cache.cache, cache.maxSize, BuildKey(tenant, key), r.value.value)
    {
      hide SkipList.Valid, MemTable.Valid, CommitLogService.Valid, MemTableService.Valid, SSTableService.Valid,
           CacheService.Valid, Flat, Latest, TotalSize, Pinned, ByNeed, EntrySize, Next, Evicted;
      var k := BuildKey(tenant, key);
      ghost var before, s := cache.cache, Abs();
      var hit := cache.Get(k, score);
      if hit.Some? {
        SameAnswers(before, cache.cache, k);
        ReadStep(s, tenant, key, Abs());
        return Some(Answer(hit.value.value, hit.value.clock)), true;
      }
      var entry := Fetch(k);
      if entry.None? || entry.value.tombstone {
        ReadStep(s, tenant, key, Abs());
        return None, true;
      }
      ends := cache.Put(k, entry.value.value, entry.value.clock, score);
      PutAnswers(before, cache.cache, k, entry.value.value, entry.value.clock);
      r := Some(Answer(entry.value.value, entry.value.clock));
      ReadStep(s, tenant, key, Abs());
    }

    /** The part of Read behind the cache. */
    method Fetch(k: Str) returns (entry: Option<MemEntry>)
      requires Valid()
      ensures entry == if MemGet(Abs(), k).Some? then MemGet(Abs(), k) else Latest(Abs().tables, k)
    {
      hide SkipList.Valid, MemTable.Valid, CommitLogService.Valid, MemTableService.Valid, SSTableService.Valid,
           CacheService.Valid, Flat, Latest;
      entry := memTables.Get(k);
      if entry.None? {
        entry := sstables.Get(k);
        OnlyLevelZero(sstables.contents);
      }
    }

    // ---------- flushing ----------

    /** Flush's first locked region. */
    method BeginFlush() returns (immutable: MemTable?)
      requires Valid()
      modifies this`published, memTables
      ensures Valid() && fresh(memTables.Repr - old(memTables.Repr))
      ensures immutable == null <==> old(Abs()).mem == map[]
      ensures immutable == null ==> Abs() == old(Abs())
      ensures immutable != null ==>
          immutable == memTables.immutableMT == old(memTables.memTable) && Abs() == Next(old(Abs()), Step.Swap)
    {
      hide SkipList.Valid, MemTable.Valid, CommitLogService.Valid, SSTableService.Valid, CacheService.Valid,
           MemTableService.Valid, Flat;
      immutable := memTables.BeginFlush();
      if immutable != null {
        published := false;
      }
    }

    /** Flush's call to WriteFromMemTable, which adds the table `m`. If the entries fit the format,
        `m` has those whose record has a checksum other than 0; if all do, this is the publish step. */
    method Publish(immutable: MemTable) returns (ghost m: Table)
      requires Valid() && immutable == memTables.immutableMT
      modifies this`published, sstables
      ensures Valid() && memTables.Repr == old(memTables.Repr) && memTables.immutableMT == old(memTables.immutableMT)
      ensures Abs() == Published(old(Abs()), m)
      ensures Storable(immutable, sstables.codec) ==> m == Legible(sstables.codec, old(Abs()).imm.value)
      ensures m == old(Abs()).imm.value ==> Abs() == Next(old(Abs()), Step.Publish)
    {
      hide SkipList.Valid, SkipList.SortedKeys, InOrder, MemTable.Valid, CommitLogService.Valid, SSTableService.Valid,
           CacheService.Valid, MemTableService.Valid, Legible, Fits, Flat, Next, Answers;
      ghost var s := Abs();
      ImmutableParts(memTables);
      m := sstables.WriteFromMemTable(immutable);
      published := true;
      PublishedWhole(s);
    }

    /** Flush's last locked region. */
    method EndFlush()
      requires Valid()
      modifies this`published, memTables
      ensures Valid() && memTables.Repr == old(memTables.Repr)
      ensures Abs() == Next(old(Abs()), Step.Clear)
    {
      hide SkipList.Valid, MemTable.Valid, CommitLogService.Valid, SSTableService.Valid, CacheService.Valid,
           MemTableService.Valid, Flat;
      memTables.EndFlush();
      published := false;
    }

    /** Flush, to the end or to the point where writing the SSTable fails. The new table holds `m`. */
    method Flush(writable: bool) returns (ok: bool, ghost m: Table)
      requires Valid()
      modifies this`published, memTables, sstables
      ensures Valid() && fresh(memTables.Repr - old(memTables.Repr))
      ensures old(Abs()).mem == map[] ==> ok && Abs() == old(Abs())
      ensures old(Abs()).mem != map[] ==> ok == writable
      ensures old(Abs()).mem != map[] && ok ==> Abs() == Flushed(old(Abs()), m)
      ensures old(Storable(memTables.memTable, sstables.codec)) ==> m == Legible(sstables.codec, old(Abs()).mem)
      ensures old(Abs()).mem != map[] && !ok ==> Abs() == Next(old(Abs()), Step.Swap)
      ensures Tracks(old(Abs()), spec) && old(Abs()).imm.None? && m == old(Abs()).mem ==> Tracks(Abs(), spec)
    {
      hide SkipList.Valid, SkipList.SortedKeys, InOrder, MemTable.Valid, CommitLogService.Valid, SSTableService.Valid,
           CacheService.Valid, Legible, Fits, Flat, Next, Service.Abs, Tracks;
      ghost var s := Abs();
      var immutable := BeginFlush();
      m := Legible(sstables.codec, s.mem);
      FlushTracks(s, spec);
      if immutable == null {
        return true, m;
      }
      if !writable {
        return false, m;
      }
      SwappedOut(s);
      m := Publish(immutable);
      EndFlush();
      ok := true;
    }

    // ---------- restarting ----------

    /** Recovery in a new process: nothing but the log is left of the state before the crash. What
        the segments' scans deliver is replayed; without lines that are too long or damaged that is
        the whole log, and this is the crash step. */
    method Recover()
      requires Valid() && Abs() == State(Abs().log, map[], None, false, [], map[])
      modifies commitLog, memTables.Repr
      ensures Valid() && fresh(memTables.Repr - old(memTables.Repr))
      ensures commitLog.segments == old(commitLog.segments) && commitLog.hit == old(commitLog.hit)
      ensures Abs() == old(Abs()).(mem := ReplayOnto(map[], ReplayedAll(commitLog.codec, commitLog.segments)))
      ensures SoundLog(commitLog.codec) ==>
          RestoresSurvivors(Abs().mem, commitLog.logged, Lost(commitLog.segments) + commitLog.hit)
      ensures SoundLog(commitLog.codec) && AllShort(commitLog.segments) && commitLog.hit == {} ==>
          Abs() == Next(old(Abs()), Crash([]))
      ensures && SoundLog(commitLog.codec) && AllShort(commitLog.segments) && commitLog.hit == {}
              && AllPlain(old(Abs()).log) && SameAs(Replay(old(Abs()).log), spec) ==>
              Tracks(Abs(), spec)
      ensures commitLog.sequenceNumber == RecoveredCounter(commitLog.codec, commitLog.segments)
    {
      hide SkipList.Valid, MemTable.Valid, SSTableService.Valid, CacheService.Valid, MemTableService.Valid, Flat,
           ReplayOnto, RecoveredCounter, ReplayedAll, SoundLog, AllShort, SameAs, Tracks, Replay, AllPlain,
           RestoresSurvivors, AllSealed, Stands, Lost;
      ghost var log, c := Flat(commitLog.logged), commitLog.codec;
      if SoundLog(c) {
        RecoveryRestores(c, commitLog.logged, commitLog.segments, commitLog.hit);
        RecoveredIsAllIff(c, commitLog.logged, commitLog.segments, commitLog.hit);
        ReplayOntoEmpty(log);
      }
      ghost var s := Abs();
      commitLog.Recover(memTables);
      assert log + [] == log;
      if AllPlain(log) && SameAs(Replay(log), spec) { RestartTracks(s, spec); }
    }
  }

  /** The state with the immutable memtable written out as a table that holds `m`. */
  ghost function Published(s: State, m: Table): (s': State) {
    if s.imm.Some? then s.(tables := s.tables + [m], published := true) else s
  }

  lemma ImmutableParts(mts: MemTableService)
    requires mts.Valid() && mts.immutableMT != null
    ensures mts.immutableMT.Valid() && mts.immutableMT.Footprint() <= mts.Repr
    ensures mts.Imm() == Some(mts.immutableMT.data.contents)
  {
    hide SkipList.Valid, MemTable.Valid;
  }

  lemma PublishedWhole(s: State)
    ensures s.imm.Some? ==> Published(s, s.imm.value) == Next(s, Step.Publish)
  {
  }

  lemma SwappedOut(s: State)
    ensures Next(s, Step.Swap).imm == Some(s.mem)
  {
  }

  /** The whole flush. */
  ghost function Flushed(s: State, m: Table): (s': State) {
    Next(Published(Next(s, Step.Swap), m), Step.Clear)
  }

  /** A flush that writes out everything, whole or failed after the swap, keeps state and map in agreement. */
  lemma FlushTracks(s: State, m: Contents)
    ensures Tracks(s, m) && s.imm.None? ==> Tracks(Next(s, Step.Swap), m) && Tracks(Flushed(s, s.mem), m)
  {
    hide Tracks;
    if Tracks(s, m) && s.imm.None? {
      var s1 := Next(s, Step.Swap);
      NothingEvicted(s1);
      StepTracks(s, m, Step.Swap, s1);
      var s2 := Next(s1, Step.Publish);
      NothingEvicted(s2);
      StepTracks(s1, m, Step.Publish, s2);
      NothingEvicted(Next(s2, Step.Clear));
      StepTracks(s2, m, Step.Clear, Next(s2, Step.Clear));
    }
  }

  /** A flush that writes out a part of the memtable, such as its legible entries, changes no read
      exactly if each of the other keys that is not cached shows in the older tables what it showed
      in the memtable. */
  lemma FlushChangesNoReadIff(s: State, m: Table)
    requires s.imm.None? && FlushOk(s) && Rising(Layers(s)) && m.Items <= s.mem.Items
    ensures (forall k :: ReadAnswer(Flushed(s, m), k) == ReadAnswer(s, k)) <==>
            (forall k :: Shows(s, m, k))
  {
    hide Shows, ReadAnswer, Flushed, Rising, Layers;
    forall k ensures ReadAnswer(Flushed(s, m), k) == ReadAnswer(s, k) <==> Shows(s, m, k) { ReadAfterFlush(s, m, k); }
  }

  /** If `k` is in the memtable but in neither `m` nor the cache, the older tables show the same of it. */
  ghost predicate Shows(s: State, m: Table, k: Str) {
    k in s.mem && k !in m && k !in s.cache ==> Visible(Some(s.mem[k])) == Visible(Latest(s.tables, k))
  }

  lemma ReadAfterFlush(s: State, m: Table, k: Str)
    requires s.imm.None? && FlushOk(s) && Rising(Layers(s)) && m.Items <= s.mem.Items
    ensures ReadAnswer(Flushed(s, m), k) == ReadAnswer(s, k) <==> Shows(s, m, k)
  {
    hide Latest, Visible;
    var ts := s.tables;
    LatestOne(ts, m, k);
    LatestBounds(ts, k);
    if k in m {
      assert (k, m[k]) in m.Items;
      assert Layers(s) == ts + [s.mem];
      assert Layers(s)[|ts|] == s.mem && forall i :: 0 <= i < |ts| ==> Layers(s)[i] == ts[i];
    }
  }

  ghost predicate AllPlain(log: seq<LogEntry>) {
    forall i :: 0 <= i < |log| ==> Plain(log[i])
  }

  /** Every key has the version of its last operation that is not among `out`. */
  ghost predicate RestoresSurvivors(m: Table, logged: seq<seq<LogEntry>>, out: set<nat>) {
    forall k :: Lookup(m, k) == Version(Flat(logged), LastOf(Flat(logged), out, k))
  }

  lemma RecoveryRestores(c: LogCodec, logged: seq<seq<LogEntry>>, segments: seq<seq<Str>>, hit: set<nat>)
    requires SoundLog(c) && AllSealed(c, logged) && Stands(c, logged, segments, hit)
    ensures RestoresSurvivors(ReplayOnto(map[], ReplayedAll(c, segments)), logged, Lost(segments) + hit)
  {
    hide SoundLog, AllSealed, Stands, ReplayOnto, ReplayedAll, Version, LastOf, Lost;
    forall k
      ensures Lookup(ReplayOnto(map[], ReplayedAll(c, segments)), k) ==
          Version(Flat(logged), LastOf(Flat(logged), Lost(segments) + hit, k)) {
      KeyRestoredIff(c, logged, segments, hit, k);
    }
  }

  /** A plain log that agrees with the map is enough for a restart. */
  lemma RestartTracks(s: State, m: Contents)
    requires AllPlain(s.log) && SameAs(Replay(s.log), m)
    ensures Tracks(Next(s, Crash([])), m)
  {
    hide SameAs, Inv, Replay;
    assert s.log + [] == s.log;
    CrashKeepsInv(s, []);
  }

  /** The memtable fits the SSTable format. */
  ghost predicate Storable(mt: MemTable, c: Codec)
    requires mt.Valid()
    reads mt, mt.data, mt.data.Repr
  {
    Fits(c, InOrder(mt.data.SortedKeys(), mt.data.contents))
  }

  lemma NothingEvicted(s: State)
    ensures Evicted(s, s)
  {
    assert s.cache - {} == s.cache;
  }

  /** A read leaves everything as it is but for its answer in the cache, less what was evicted. */
  lemma ReadStep(s: State, tenant: Str, key: Str, s': State)
    requires s' == s.(cache := s'.cache)
    requires var k := BuildKey(tenant, key); var a := ReadAnswer(s, k);
             if k in s.cache || a.None? then s'.cache == s.cache
             else var m := s.cache[k := a.value]; s'.cache == m - (m.Keys - s'.cache.Keys)
    ensures Evicted(Next(s, Step.Read(tenant, key)), s')
  {
    hide Latest;
    NothingEvicted(s);
  }

  lemma Performed(s: State, s': State, e: LogEntry)
    requires s'.(cache := s.cache) == Operated(s, e).(cache := s.cache) && !e.op.Delete?
    requires var m := s.cache[CompositeKey(e) := Answer(e.value, e.clock)]; s'.cache == m - (m.Keys - s'.cache.Keys)
    ensures Evicted(Next(s, Operate(e)), s')
  {
  }

  /** After a put the cache answers as before with the new answer added, less what was evicted. */
  lemma PutAnswers(before: map<Str, CacheEntry>, after: map<Str, CacheEntry>, k: Str, value: Str, clock: Clock)
    requires k in after ==> after[k].value == value && after[k].clock == clock
    requires (k in before && k in after && after == before[k := after[k]]) ||
             (k !in before && EvictedFrom(after - {k}, before))
    ensures var m := Answers(before)[k := Answer(value, clock)]; Answers(after) == m - (m.Keys - Answers(after).Keys)
  {
    var m := Answers(before)[k := Answer(value, clock)];
    forall j | j in Answers(after) ensures j in m && m[j] == Answers(after)[j] {
      if j != k { assert k !in before ==> j in after - {k}; }
    }
  }

  lemma SameAnswers(before: map<Str, CacheEntry>, after: map<Str, CacheEntry>, k: Str)
    requires k in before && k in after && after == before[k := after[k]]
    requires after[k].value == before[k].value && after[k].clock == before[k].clock
    ensures Answers(after) == Answers(before)
    ensures Answers(before)[k := Answers(before)[k]] == Answers(before)
  {
  }

  lemma OnlyLevelZero(contents: seq<seq<Table>>)
    requires |contents| == LEVELS && forall l :: 1 <= l < LEVELS ==> contents[l] == []
    ensures Flat(contents) == contents[0]
  {
    FlatPrefix(contents, 1);
  }

  lemma {:induction false} FlatPrefix<T>(ss: seq<seq<T>>, n: nat)
    requires n <= |ss| && forall l :: n <= l < |ss| ==> ss[l] == []
    ensures Flat(ss) == Flat(ss[..n])
    ensures n == 1 ==> Flat(ss) == ss[0]
    decreases |ss|
  {
    if |ss| == n {
      assert ss[..n] == ss;
      if n == 1 { assert ss[..0] == []; }
    } else {
      FlatPrefix(ss[..|ss| - 1], n);
      assert ss[..|ss| - 1][..n] == ss[..n];
    }
  }
}
