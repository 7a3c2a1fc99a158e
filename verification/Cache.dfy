/** The read cache: size accounting and eviction by lowest score. */
module Cache {
  import opened GoStrings
  import opened VectorClocks

  datatype CacheEntry = CacheEntry(key: Str, value: Str, clock: Clock, accessCount: int, score: real)

  const SCORE_LIMIT: real := 1000000000.0

  function EntrySize(keyLen: nat, valueLen: nat): (n: nat) { keyLen + valueLen + 64 }

  function SizeOf(e: CacheEntry): (n: nat) { EntrySize(|e.key|, |e.value|) }

  ghost function TotalSize(m: map<Str, CacheEntry>): (n: nat)
    decreases |m|
  {
    if m == map[] then 0
    else
      var k :| k in m;
      SizeOf(m[k]) + TotalSize(m - {k})
  }

  lemma {:induction false} TotalRemove(m: map<Str, CacheEntry>, k: Str)
    requires k in m
    ensures TotalSize(m) == SizeOf(m[k]) + TotalSize(m - {k})
    decreases |m|
  {
    var j :| j in m && TotalSize(m) == SizeOf(m[j]) + TotalSize(m - {j});
    if j != k {
      TotalRemove(m - {j}, k);
      TotalRemove(m - {k}, j);
      assert (m - {j}) - {k} == (m - {k}) - {j};
    }
  }

  lemma TotalInsert(m: map<Str, CacheEntry>, k: Str, e: CacheEntry)
    ensures TotalSize(m[k := e]) == SizeOf(e) + TotalSize(m - {k})
  {
    TotalRemove(m[k := e], k);
    assert m[k := e] - {k} == m - {k};
  }

  /** An entry takes its key, its value and 64 bytes. */
  lemma TotalGrows(m: map<Str, CacheEntry>, k: Str, e: CacheEntry)
    ensures TotalSize(map[]) == 0
    ensures TotalSize(m[k := e]) == |e.key| + |e.value| + 64 + TotalSize(m - {k})
  {
    TotalInsert(m, k, e);
  }

  ghost function KeyBytes(keys: set<Str>): (n: nat) {
    if keys == {} then 0 else var k :| k in keys; |k| + KeyBytes(keys - {k})
  }

  ghost function ValueBytes(m: map<Str, CacheEntry>): (n: nat)
    decreases |m|
  {
    if m == map[] then 0 else var k :| k in m; |m[k].value| + ValueBytes(m - {k})
  }

  lemma {:induction false} KeyBytesRemove(keys: set<Str>, k: Str)
    requires k in keys
    ensures KeyBytes(keys) == |k| + KeyBytes(keys - {k})
  {
    var j :| j in keys && KeyBytes(keys) == |j| + KeyBytes(keys - {j});
    if j != k {
      KeyBytesRemove(keys - {j}, k);
      KeyBytesRemove(keys - {k}, j);
      assert (keys - {j}) - {k} == (keys - {k}) - {j};
    }
  }

  lemma {:induction false} ValueBytesRemove(m: map<Str, CacheEntry>, k: Str)
    requires k in m
    ensures ValueBytes(m) == |m[k].value| + ValueBytes(m - {k})
    decreases |m|
  {
    var j :| j in m && ValueBytes(m) == |m[j].value| + ValueBytes(m - {j});
    if j != k {
      ValueBytesRemove(m - {j}, k);
      ValueBytesRemove(m - {k}, j);
      assert (m - {j}) - {k} == (m - {k}) - {j};
    }
  }

  /** The summed entry sizes are the lengths of all keys and values plus 64 bytes per entry. */
  lemma {:induction false} TotalIsBytes(m: map<Str, CacheEntry>)
    requires forall k :: k in m ==> m[k].key == k
    ensures TotalSize(m) == KeyBytes(m.Keys) + ValueBytes(m) + 64 * |m|
    decreases |m|
  {
    if m == map[] {
      assert m.Keys == {};
    } else {
      var k :| k in m;
      TotalIsBytes(m - {k});
      TotalRemove(m, k);
      KeyBytesRemove(m.Keys, k);
      ValueBytesRemove(m, k);
      assert (m - {k}).Keys == m.Keys - {k};
      assert |m.Keys| == |m| && |(m - {k}).Keys| == |m - {k}|;
    }
  }

  lemma {:induction false} TotalMonotone(small: map<Str, CacheEntry>, big: map<Str, CacheEntry>)
    requires forall k :: k in small ==> k in big && big[k] == small[k]
    ensures TotalSize(small) <= TotalSize(big)
    decreases |small|
  {
    if small != map[] {
      var k :| k in small;
      TotalRemove(small, k);
      TotalRemove(big, k);
      TotalMonotone(small - {k}, big - {k});
    }
  }

  /** Eviction never removes the entry: its score is at the limit or above, or the empty key, which
      stands for no choice at all, is there and has a lower score or is the key itself. */
  ghost predicate IsPinned(m: map<Str, CacheEntry>, k: Str)
    requires k in m
  {
    m[k].score >= 1000000000.0 || ([] in m && (k == [] || m[[]].score < m[k].score))
  }

  ghost function Pinned(m: map<Str, CacheEntry>): (r: map<Str, CacheEntry>) {
    map k | k in m && IsPinned(m, k) :: m[k]
  }

  /** `m'` is what some evictions leave of `m`. */
  ghost predicate EvictedFrom(m': map<Str, CacheEntry>, m: map<Str, CacheEntry>) {
    && (forall k :: k in m' ==> k in m && m'[k] == m[k])
    && (forall k :: k in m && IsPinned(m, k) ==> k in m')
  }

  /** Evictions took the lowest scores, and no more entries than needed: with the last one still there
      the new entry would not fit. */
  ghost predicate ByNeed(kept: map<Str, CacheEntry>, m: map<Str, CacheEntry>, need: nat, limit: int) {
    && (forall k, j :: k in m && k !in kept && j in kept ==> j in m && m[k].score <= m[j].score)
    && (kept == m || exists k :: k in m && k !in kept && TotalSize(kept[k := m[k]]) + need > limit)
  }

  lemma NoneGone(m: map<Str, CacheEntry>, need: nat, limit: int)
    ensures EvictedFrom(m, m) && ByNeed(m, m, need, limit)
  {
  }

  /** `k` may be evicted next. */
  ghost predicate IsLowest(m: map<Str, CacheEntry>, k: Str) {
    k in m && !IsPinned(m, k) && forall j :: j in m ==> m[k].score <= m[j].score
  }

  lemma OneMoreGone(kept: map<Str, CacheEntry>, m: map<Str, CacheEntry>, need: nat, limit: int, k: Str)
    requires EvictedFrom(kept, m) && ByNeed(kept, m, need, limit) && TotalSize(kept) + need > limit && IsLowest(kept, k)
    ensures EvictedFrom(kept - {k}, m) && ByNeed(kept - {k}, m, need, limit)
  {
    hide TotalSize;
    assert (kept - {k})[k := m[k]] == kept;
  }

  lemma OnlyPinnedLeft(kept: map<Str, CacheEntry>, m: map<Str, CacheEntry>)
    requires EvictedFrom(kept, m) && forall k :: k in kept ==> IsPinned(kept, k)
    ensures kept == Pinned(m)
  {
  }

  lemma PinnedStays(kept: map<Str, CacheEntry>, m: map<Str, CacheEntry>)
    requires EvictedFrom(kept, m)
    ensures TotalSize(Pinned(m)) <= TotalSize(kept)
  {
    TotalMonotone(Pinned(m), kept);
  }

  /** Room can be made for an entry exactly when the pinned entries leave room for it: then enough
      evictions fit it in, otherwise no sequence of evictions ever does and Put loops forever. */
  lemma RoomCanBeMadeIff(m: map<Str, CacheEntry>, need: nat, limit: int)
    ensures (exists m' :: EvictedFrom(m', m) && TotalSize(m') + need <= limit) <==> TotalSize(Pinned(m)) + need <= limit
  {
    assert EvictedFrom(Pinned(m), m);
    forall m' | EvictedFrom(m', m) ensures TotalSize(Pinned(m)) <= TotalSize(m') { TotalMonotone(Pinned(m), m'); }
  }

  lemma OtherKey(rest: set<Str>)
    requires rest != {}
    ensures exists key :: key in rest && (key != [] || rest == {[]})
  {
    var key :| key in rest;
    if key == [] && rest != {[]} {
      assert rest - {[]} != {};
      var other :| other in rest - {[]};
    }
  }

  /** The loop of evictLowestScore: a key of lowest score, or the empty key if there is nothing to
      evict. A pass in which the empty key wins a tie changes nothing and is repeated; such passes are
      left out, so the empty key is visited last. */
  method LowestKey(cache: map<Str, CacheEntry>) returns (lowestKey: Str)
    ensures lowestKey == [] <==> forall k :: k in cache ==> IsPinned(cache, k)
    ensures lowestKey != [] ==>
              && lowestKey in cache && !IsPinned(cache, lowestKey)
              && forall j :: j in cache ==> cache[lowestKey].score <= cache[j].score
  {
    lowestKey := [];
    var lowestScore := SCORE_LIMIT;
    var rest := cache.Keys;
    while rest != {}
      invariant rest <= cache.Keys && (rest != {} && [] in cache ==> [] in rest)
      invariant lowestScore <= SCORE_LIMIT
      invariant forall j :: j in cache && j !in rest ==> lowestScore <= cache[j].score
      invariant lowestKey != [] ==> lowestKey in cache && cache[lowestKey].score == lowestScore < SCORE_LIMIT
      invariant lowestKey == [] ==> lowestScore == SCORE_LIMIT || EmptyIsLowest(cache)
      decreases |rest|
    {
      OtherKey(rest);
      var key :| key in rest && (key != [] || rest == {[]});
      if cache[key].score < lowestScore {
        lowestKey, lowestScore := key, cache[key].score;
      }
      rest := rest - {key};
    }
  }

  ghost predicate EmptyIsLowest(m: map<Str, CacheEntry>) {
    [] in m && forall j :: j in m ==> j == [] || m[[]].score < m[j].score
  }

  class CacheService {
    const maxSize: int
    var cache: map<Str, CacheEntry>
    var currentSize: int

    /** The recorded size is the sum of the entry sizes. */
    ghost predicate Valid()
      reads this
    {
      && currentSize == TotalSize(cache)
      && forall k :: k in cache ==> cache[k].key == k
    }

    constructor (maxSize: int)
      ensures Valid() && cache == map[] && this.maxSize == maxSize
    {
      this.maxSize := maxSize;
      cache, currentSize := map[], 0;
    }

    /** Get: an access updates the entry's statistics, not its contents. */
    method Get(key: Str, score: real) returns (r: Option<CacheEntry>)
      requires Valid()
      modifies this
      ensures Valid() && currentSize == old(currentSize)
      ensures r.Some? <==> key in old(cache)
      ensures r.Some? ==> r.value == old(cache)[key].(accessCount := old(cache)[key].accessCount + 1, score := score)
      ensures cache == if r.Some? then old(cache)[key := r.value] else old(cache)
    {
      if key !in cache {
        return None;
      }
      var entry := cache[key].(accessCount := cache[key].accessCount + 1, score := score);
      TotalRemove(cache, key);
      TotalInsert(cache, key, entry);
      cache := cache[key := entry];
      r := Some(entry);
    }

    /** Put. On a new key, entries are evicted until the new one fits; `ends` is false where that
        never happens and the program loops on, with nothing but pinned entries left. */
    method Put(key: Str, value: Str, clock: Clock, score: real) returns (ends: bool)
      requires Valid()
      modifies this
      ensures Valid()
      ensures ends <==> key in old(cache) || TotalSize(Pinned(old(cache))) + |key| + |value| + 64 <= maxSize
      ensures ends <==> key in cache
      ensures ends ==> cache[key].value == value && cache[key].clock == clock && cache[key].score == score
      ensures ends ==> cache[key].accessCount == 1 + if key in old(cache) then old(cache)[key].accessCount else 0
      ensures key in old(cache) ==> cache == old(cache)[key := cache[key]]
      ensures key !in old(cache) ==> EvictedFrom(cache - {key}, old(cache))
      ensures key !in old(cache) ==> ByNeed(cache - {key}, old(cache), |key| + |value| + 64, maxSize)
      ensures key !in old(cache) && ends ==> KeyBytes(cache.Keys) + ValueBytes(cache) + 64 * |cache| <= maxSize
      ensures !ends ==> cache == Pinned(old(cache))
    {
      hide EvictedFrom, ByNeed, Pinned, IsPinned, KeyBytes, ValueBytes, TotalSize;
      var entrySize := EntrySize(|key|, |value|);
      if key in cache {
        var existing := cache[key];
        var oldSize := EntrySize(|existing.key|, |existing.value|);
        var updated := existing.(value := value, clock := clock,
                                   accessCount := existing.accessCount + 1, score := score);
        TotalRemove(cache, key);
        TotalInsert(cache, key, updated);
        cache := cache[key := updated];
        currentSize := currentSize - oldSize + entrySize;
        return true;
      }
      ends := MakeRoom(entrySize);
      assert key !in cache && cache - {key} == cache;
      if !ends {
        return;
      }
      var entry := CacheEntry(key, value, clock, 1, score);
      TotalInsert(cache, key, entry);
      assert cache[key := entry] - {key} == cache;
      cache := cache[key := entry];
      currentSize := currentSize + entrySize;
      TotalIsBytes(cache);
    }

    /** The eviction loop of Put. A pass that evicts nothing leaves everything as it was, so all
        later passes do the same. */
    method MakeRoom(entrySize: nat) returns (room: bool)
      requires Valid()
      modifies this
      ensures Valid() && EvictedFrom(cache, old(cache)) && ByNeed(cache, old(cache), entrySize, maxSize)
      ensures cache.Keys <= old(cache).Keys
      ensures room <==> TotalSize(Pinned(old(cache))) + entrySize <= maxSize
      ensures room ==> currentSize + entrySize <= maxSize
      ensures !room ==> cache == Pinned(old(cache))
    {
      hide EvictedFrom, ByNeed, Pinned, IsPinned, IsLowest, TotalSize;
      NoneGone(cache, entrySize, maxSize);
      while currentSize + entrySize > maxSize
        invariant Valid() && EvictedFrom(cache, old(cache)) && ByNeed(cache, old(cache), entrySize, maxSize)
        invariant cache.Keys <= old(cache).Keys
        decreases |cache|
      {
        ghost var before := cache;
        var evicted, k := EvictLowestScore();
        if !evicted {
          OnlyPinnedLeft(cache, old(cache));
          return false;
        }
        OneMoreGone(before, old(cache), entrySize, maxSize, k);
      }
      PinnedStays(cache, old(cache));
      room := true;
    }

    /** evictLowestScore: drop an entry of lowest score, unless none can be evicted. */
    method EvictLowestScore() returns (evicted: bool, ghost k: Str)
      requires Valid()
      modifies this
      ensures Valid()
      ensures evicted <==> exists k :: k in old(cache) && !IsPinned(old(cache), k)
      ensures !evicted ==> cache == old(cache)
      ensures evicted ==> IsLowest(old(cache), k) && k in old(cache) && cache == old(cache) - {k}
    {
      hide IsPinned;
      var lowestKey := LowestKey(cache);
      evicted, k := lowestKey != [], lowestKey;
      if evicted {
        var entry := cache[lowestKey];
        TotalRemove(cache, lowestKey);
        cache := cache - {lowestKey};
        currentSize := currentSize - EntrySize(|entry.key|, |entry.value|);
      }
    }

    /** Remove. */
    method Remove(key: Str)
      requires Valid()
      modifies this
      ensures Valid() && cache == old(cache) - {key}
    {
      if key in cache {
        TotalRemove(cache, key);
        var entry := cache[key];
        cache := cache - {key};
        currentSize := currentSize - EntrySize(|entry.key|, |entry.value|);
      } else {
        assert cache - {key} == cache;
      }
    }
  }
}
