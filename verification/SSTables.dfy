/** SSTables made from memtables and searched behind a key range and a bloom filter. */
module SSTables {
  import opened GoStrings
  import opened Encoding
  import opened SSTableFormat
  import opened StorageEngine
  import opened SkipLists
  import opened MemTables
  import opened Bloom

  /** A table's metadata, with the contents of its three files. */
  datatype TableFile = TableFile(startKey: Str, endKey: Str, dataFile: Str, indexFile: Str, bloomFile: Str)

  predicate KeyInRange(key: Str, t: TableFile) { !Less(key, t.startKey) && !Less(t.endKey, key) }

  // ---------- what a table is good for ----------

  /** The entries that can be read back: those whose record has a nonzero checksum. */
  ghost function Legible(c: Codec, m: Table): (r: Table) {
    map k | k in m && c.crc(c.marshal(m[k])) != 0 :: m[k]
  }

  function Readout(r: ReadResult): (e: Option<MemEntry>) { if r.Found? then Some(r.entry) else None }

  /** What the search gets from a table's files, whatever is in them: the entries the index leads to
      that neither the range nor the bloom filter hides. */
  ghost function Held(c: Codec, fnv: Str -> nat, t: TableFile, img: Image): (m: Table)
    requires |img.bits| > 0
  {
    match LoadFrom(t.indexFile, map[])
    case None => map[]
    case Some(index) =>
      map k | k in index && KeyInRange(k, t) && Marked(fnv, img.hashCount, img.bits, k)
            && ReadEntry(c, t.dataFile, index, k).Found?
        :: ReadEntry(c, t.dataFile, index, k).entry
  }

  ghost predicate IsTableFor(c: Codec, fnv: Str -> nat, t: TableFile, m: Table) {
    exists img :: Encodes(t.bloomFile, img) && |img.bits| > 0 && m == Held(c, fnv, t, img)
  }

  /** One table of Get's search: range, bloom filter, index, record. An unreadable file or record
      counts as absent. */
  method SearchTable(c: Codec, fnv: Str -> nat, t: TableFile, key: Str, ghost m: Table) returns (r: Option<MemEntry>)
    requires IsTableFor(c, fnv, t, m)
    ensures r == Lookup(m, key)
    ensures r.Some? ==> !Less(key, t.startKey) && !Less(t.endKey, key)
  {
    hide LoadFrom, Encodes, Marked, Less;
    if !KeyInRange(key, t) {
      return None;
    }
    ghost var img :| Encodes(t.bloomFile, img) && |img.bits| > 0 && m == Held(c, fnv, t, img);
    var filter := Load(fnv, t.bloomFile);
    if filter.None? {
      return None;
    }
    var may := filter.value.MayContain(key);
    if !may {
      return None;
    }
    var index := LoadIndex(t.indexFile);
    if index.None? {
      return None;
    }
    r := Readout(ReadEntry(c, t.dataFile, index.value, key));
  }

  // ---------- writing a table ----------

  /** `es` are the entries of `m` in key order. */
  ghost predicate Lists(es: seq<MemEntry>, m: Table) {
    && (forall i, j :: 0 <= i < j < |es| ==> Less(es[i].key, es[j].key))
    && (forall i :: 0 <= i < |es| ==> es[i].key in m && m[es[i].key] == es[i])
    && (forall k :: k in m ==> exists i :: 0 <= i < |es| && es[i].key == k)
  }

  ghost function KeysIn(es: seq<MemEntry>): (keys: seq<Str>) {
    if es == [] then [] else KeysIn(es[..|es| - 1]) + [es[|es| - 1].key]
  }

  lemma {:induction false} KeysInMembers(es: seq<MemEntry>)
    ensures forall i :: 0 <= i < |es| ==> es[i].key in KeysIn(es)
  {
    if es != [] { KeysInMembers(es[..|es| - 1]); }
  }

  lemma KeysInOne(es: seq<MemEntry>, i: nat)
    requires i < |es|
    ensures KeysIn(es[..i + 1]) == KeysIn(es[..i]) + [es[i].key] && es[..i + 1] == es[..i] + [es[i]]
  {
    assert es[..i + 1][..i] == es[..i];
  }

  lemma NoKeysYet(fnv: Str -> nat, hashCount: nat, bits: seq<bool>)
    requires |bits| > 0
    ensures AddAll(fnv, hashCount, bits, KeysIn([])) == bits
  {
  }

  /** The first and last keys of the sorted walk bound all of them. */
  lemma SortedWalkBounds(es: seq<MemEntry>, t: TableFile, m: Table)
    requires Lists(es, m) && (es != [] ==> t.startKey == es[0].key && t.endKey == es[|es| - 1].key)
    ensures forall k :: k in m ==> KeyInRange(k, t)
  {
    hide Less;
    forall k | k in m ensures KeyInRange(k, t) {
      var i :| 0 <= i < |es| && es[i].key == k;
      if i > 0 { LessAsymmetric(es[0].key, k); } else { LessIrreflexive(k); }
      if i < |es| - 1 { LessAsymmetric(k, es[|es| - 1].key); } else { LessIrreflexive(k); }
    }
  }

  lemma ListedAreDistinct(es: seq<MemEntry>, m: Table)
    requires Lists(es, m)
    ensures DistinctKeys(es)
  {
    hide Less;
    forall i, j | 0 <= i < j < |es| ensures es[i].key != es[j].key { LessAsymmetric(es[i].key, es[j].key); }
  }

  lemma ReadsAs(c: Codec, es: seq<MemEntry>, t: TableFile, m: Table, index: map<Str, IndexEntry>, k: Str)
    requires Lists(es, m)
    requires forall i :: 0 <= i < |es| ==>
               ReadEntry(c, t.dataFile, index, es[i].key) ==
                 (if c.crc(c.marshal(es[i])) != 0 then Found(es[i]) else Failed)
    requires forall k :: (forall i :: 0 <= i < |es| ==> es[i].key != k) ==>
        ReadEntry(c, t.dataFile, index, k) == NotFound
    ensures Readout(ReadEntry(c, t.dataFile, index, k)) == Lookup(Legible(c, m), k)
  {
    hide ReadEntry, Less;
    if k in m {
      var i :| 0 <= i < |es| && es[i].key == k;
      assert m[k] == es[i];
    } else {
      assert forall i :: 0 <= i < |es| ==> es[i].key != k;
    }
  }

  /** The files of a table written from `es` read back as the legible part of `m`. */
  lemma WrittenIsStored(c: Codec, es: seq<MemEntry>, t: TableFile, m: Table) returns (index: map<Str, IndexEntry>)
    requires Sound(c) && Fits(c, es) && Lists(es, m)
    requires t.dataFile == DataFile(c, es) && t.indexFile == IndexFile(IndexFor(c, es))
    ensures LoadFrom(t.indexFile, map[]) == Some(index)
    ensures forall k :: Readout(ReadEntry(c, t.dataFile, index, k)) == Lookup(Legible(c, m), k)
  {
    ListedAreDistinct(es, m);
    hide Sound, Fits, DataFile, IndexFile, IndexFor, LoadFrom, ReadEntry, Less;
    index := ReloadedIndex(c, es);
    ReadReturnsWrittenIff(c, es, index);
    forall k
      ensures Readout(ReadEntry(c, t.dataFile, index, k)) == Lookup(Legible(c, m), k)
    {
      ReadsAs(c, es, t, m, index, k);
    }
  }

  /** The body of WriteFromMemTable: every entry goes to the writer and the bloom filter, the first
      and last key become the range. */
  method WriteTable(c: Codec, fnv: Str -> nat, bloomSize: nat, hashCount: nat, es: seq<MemEntry>)
    returns (t: TableFile, ghost img: Image)
    requires 0 < bloomSize < TWO_64 && hashCount < TWO_64
    ensures es != [] ==> t.startKey == es[0].key && t.endKey == es[|es| - 1].key
    ensures t.dataFile == DataFile(c, es) && t.indexFile == IndexFile(IndexFor(c, es))
    ensures Encodes(t.bloomFile, img) && |img.bits| > 0
    ensures forall i :: 0 <= i < |es| ==> Marked(fnv, img.hashCount, img.bits, es[i].key)
  {
    hide Position, Encodes, IndexFor, DataFile, IndexFile, Marked, KeysIn, AddAll, SetFirst;
    var writer := new SSTableWriter(c);
    var filter := new BloomFilter(fnv, bloomSize, hashCount);
    var startKey: Str, endKey: Str := [], [];
    ghost var zeros := filter.bits[..];
    NoKeysYet(fnv, hashCount, zeros);
    for i := 0 to |es|
      invariant writer.Valid() && fresh(writer) && writer.codec == c && writer.written == es[..i]
      invariant i > 0 ==> startKey == es[0].key && endKey == es[i - 1].key
      invariant filter.bits[..] == AddAll(fnv, hashCount, zeros, KeysIn(es[..i]))
    {
      if i == 0 {
        startKey := es[i].key;
      }
      endKey := es[i].key;
      writer.Write(es[i]);
      filter.Add(es[i].key);
      KeysInOne(es, i);
      AddOne(fnv, hashCount, zeros, KeysIn(es[..i]), es[i].key);
    }
    assert es[..|es|] == es;
    writer.Finalize();
    var bloomFile := filter.WriteTo();
    t := TableFile(startKey, endKey, writer.dataFile, writer.indexFile, bloomFile);
    img := Image(bloomSize, hashCount, filter.bits[..]);
    NoFalseNegatives(fnv, hashCount, zeros, KeysIn(es));
    KeysInMembers(es);
  }

  /** A memtable's table. If the entries fit the format, it holds the legible ones. */
  method TableOf(c: Codec, fnv: Str -> nat, bloomSize: nat, hashCount: nat, mt: MemTable)
    returns (t: TableFile, ghost m: Table)
    requires Sound(c) && 0 < bloomSize < TWO_64 && hashCount < TWO_64 && mt.Valid()
    ensures IsTableFor(c, fnv, t, m)
    ensures Fits(c, InOrder(mt.data.SortedKeys(), mt.data.contents)) ==> m == Legible(c, mt.data.contents)
  {
    hide SkipList.Valid, SkipList.SortedKeys, Fits, InOrder, Legible, Sound, Lists, Encodes, Marked, Held;
    var es := mt.Entries();
    WalkLists(mt.data.SortedKeys(), mt.data.contents, es);
    ghost var img;
    t, img := WriteTable(c, fnv, bloomSize, hashCount, es);
    m := Held(c, fnv, t, img);
    if Fits(c, es) { WrittenTable(c, fnv, es, t, img, mt.data.contents); }
  }

  lemma AddOne(fnv: Str -> nat, hashCount: nat, bits: seq<bool>, keys: seq<Str>, key: Str)
    requires |bits| > 0
    ensures AddAll(fnv, hashCount, bits, keys + [key]) ==
        SetFirst(fnv, AddAll(fnv, hashCount, bits, keys), key, hashCount)
  {
    assert (keys + [key])[..|keys|] == keys;
  }

  // ---------- the service ----------

  const LEVELS := 5

  class SSTableService {
    const codec: Codec
    const fnv: Str -> nat
    const bloomSize: nat
    const hashCount: nat
    var levels: seq<seq<TableFile>>
    ghost var contents: seq<seq<Table>>    // what each table holds

    ghost predicate Valid()
      reads this
    {
      && Sound(codec) && 0 < bloomSize < TWO_64 && hashCount < TWO_64
      && |levels| == |contents| == LEVELS
      && forall l :: 0 <= l < LEVELS ==> LevelOk(codec, fnv, levels[l], contents[l])
    }

    constructor (codec: Codec, fnv: Str -> nat, bloomSize: nat, hashCount: nat)
      requires Sound(codec) && 0 < bloomSize < TWO_64 && hashCount < TWO_64
      ensures Valid() && contents == [[], [], [], [], []]
      ensures this.codec == codec
    {
      this.codec, this.fnv, this.bloomSize, this.hashCount := codec, fnv, bloomSize, hashCount;
      levels, contents := [[], [], [], [], []], [[], [], [], [], []];
    }

    /** WriteFromMemTable: a new table at the end of level 0, which holds what can be read of it. */
    method WriteFromMemTable(mt: MemTable) returns (ghost m: Table)
      requires Valid() && mt.Valid() && this !in mt.Footprint()
      modifies this
      ensures Valid()
      ensures contents == old(contents)[0 := old(contents)[0] + [m]]
      ensures Fits(codec, InOrder(mt.data.SortedKeys(), mt.data.contents)) ==> m == Legible(codec, mt.data.contents)
    {
      hide SkipList.Valid, SkipList.SortedKeys, Fits, InOrder, IsTableFor, Legible, Sound;
      var t;
      t, m := TableOf(codec, fnv, bloomSize, hashCount, mt);
      assert LevelOk(codec, fnv, levels[0] + [t], contents[0] + [m]);
      levels := levels[0 := levels[0] + [t]];
      contents := contents[0 := contents[0] + [m]];
    }

    /** Get: search every table of every level, keeping the version with the largest timestamp. */
    method Get(key: Str) returns (latestEntry: Option<MemEntry>)
      requires Valid()
      ensures latestEntry == Latest(Flat(contents), key)
    {
      latestEntry := None;
      assert Flat(contents[..0]) == [];
      for level := 0 to LEVELS
        invariant latestEntry == Latest(Flat(contents[..level]), key)
      {
        latestEntry := SearchLevel(codec, fnv, levels[level], key, latestEntry,
                                   Flat(contents[..level]), contents[level]);
        assert contents[..level + 1][..level] == contents[..level];
      }
      assert contents[..LEVELS] == contents;
    }
  }

  /** The inner loop of Get. */
  method SearchLevel(c: Codec, fnv: Str -> nat, tables: seq<TableFile>, key: Str, found: Option<MemEntry>,
        ghost before: seq<Table>, ghost held: seq<Table>)
    returns (latestEntry: Option<MemEntry>)
    requires LevelOk(c, fnv, tables, held) && found == Latest(before, key)
    ensures latestEntry == Latest(before + held, key)
  {
    hide IsTableFor, Latest;
    latestEntry := found;
    var latestTimestamp := if found.Some? then found.value.timestamp else 0;
    assert before + held[..0] == before;
    for i := 0 to |tables|
      invariant latestEntry == Latest(before + held[..i], key) && latestTimestamp == Stamp(latestEntry)
    {
      var entry := SearchTable(c, fnv, tables[i], key, held[i]);
      LatestOne(before + held[..i], held[i], key);
      assert before + held[..i + 1] == before + held[..i] + [held[i]];
      if entry.Some? && entry.value.timestamp > latestTimestamp {
        latestEntry, latestTimestamp := entry, entry.value.timestamp;
      }
    }
    assert held[..|held|] == held;
  }

  ghost predicate LevelOk(c: Codec, fnv: Str -> nat, tables: seq<TableFile>, contents: seq<Table>) {
    |tables| == |contents| && forall i :: 0 <= i < |tables| ==> IsTableFor(c, fnv, tables[i], contents[i])
  }

  lemma LatestOne(ts: seq<Table>, t: Table, k: Str)
    ensures Latest(ts + [t], k) == if k in t && t[k].timestamp > Stamp(Latest(ts, k)) then Some(t[k]) else Latest(ts, k)
  {
    assert (ts + [t])[..|ts|] == ts;
  }

  lemma WalkLists(keys: seq<Str>, m: Table, es: seq<MemEntry>)
    requires StrictlySorted(keys) && Keyed(m) && forall k :: k in keys <==> k in m
    requires es == InOrder(keys, m)
    ensures Lists(es, m)
  {
    hide Less, InOrder;
    assert forall i :: 0 <= i < |es| ==> keys[i] in keys && es[i].key == keys[i];
    forall k | k in m ensures exists i :: 0 <= i < |es| && es[i].key == k {
      var i :| 0 <= i < |keys| && keys[i] == k;
      assert es[i].key == k;
    }
  }

  /** Neither prefilter hides a written key, and the records read back. */
  lemma WrittenTable(c: Codec, fnv: Str -> nat, es: seq<MemEntry>, t: TableFile, img: Image, m: Table)
    requires Sound(c) && Fits(c, es) && Lists(es, m)
    requires es != [] ==> t.startKey == es[0].key && t.endKey == es[|es| - 1].key
    requires t.dataFile == DataFile(c, es) && t.indexFile == IndexFile(IndexFor(c, es))
    requires |img.bits| > 0 && forall i :: 0 <= i < |es| ==> Marked(fnv, img.hashCount, img.bits, es[i].key)
    ensures Held(c, fnv, t, img) == Legible(c, m)
  {
    hide Sound, Fits, DataFile, IndexFile, IndexFor, LoadFrom, ReadEntry, Less, Encodes, Marked;
    SortedWalkBounds(es, t, m);
    var index := WrittenIsStored(c, es, t, m);
    forall k | k in m ensures Marked(fnv, img.hashCount, img.bits, k) {
      var i :| 0 <= i < |es| && es[i].key == k;
    }
    var held, legible := Held(c, fnv, t, img), Legible(c, m);
    forall k ensures Lookup(held, k) == Lookup(legible, k) {
      assert Readout(ReadEntry(c, t.dataFile, index, k)) == Lookup(legible, k);
      FoundIsIndexed(c, t.dataFile, index, k);
    }
    SameLookups(held, legible);
  }

  lemma FoundIsIndexed(c: Codec, dataFile: Str, index: map<Str, IndexEntry>, k: Str)
    ensures ReadEntry(c, dataFile, index, k).Found? ==> k in index
  {
  }

  lemma SameLookups(a: Table, b: Table)
    requires forall k :: Lookup(a, k) == Lookup(b, k)
    ensures a == b
  {
    forall k ensures k in a <==> k in b { assert Lookup(a, k) == Lookup(b, k); }
    forall k | k in a ensures a[k] == b[k] { assert Lookup(a, k) == Lookup(b, k); }
  }
}
