/** The SSTable's data and index files: what the writer appends and the reader parses back. */
module SSTableFormat {
  import opened GoStrings
  import opened Encoding
  import opened VectorClocks

  datatype MemEntry = MemEntry(key: Str, value: Str, clock: Clock, timestamp: int, tombstone: bool)

  datatype IndexEntry = IndexEntry(key: Str, offset: int, size: int, checksum: nat)

  /** JSON and CRC-32, as functions the format is built on. */
  datatype Codec = Codec(marshal: MemEntry -> Str, unmarshal: Str -> Option<MemEntry>, crc: Str -> nat)

  /** What the format needs of them: parsing undoes printing, no JSON text is empty or starts with
      a NUL byte, checksums have 32 bits. */
  ghost predicate Sound(c: Codec) {
    && (forall e :: c.unmarshal(c.marshal(e)) == Some(e))
    && (forall d :: d == [] || d[0] == 0 ==> c.unmarshal(d).None?)
    && (forall d :: c.crc(d) < TWO_32)
  }

  // ---------- the data file ----------

  /** One record: size, checksum, JSON. */
  function Record(c: Codec, e: MemEntry): (bytes: Str) {
    var data := c.marshal(e);
    Put32(ToInt32(|data|)) + Put32(c.crc(data)) + data
  }

  function DataFile(c: Codec, es: seq<MemEntry>): (bytes: Str) {
    if es == [] then [] else DataFile(c, es[..|es| - 1]) + Record(c, es[|es| - 1])
  }

  function IndexFor(c: Codec, es: seq<MemEntry>): (index: seq<IndexEntry>)
    ensures |index| == |es|
  {
    if es == [] then []
    else
      var init, e := es[..|es| - 1], es[|es| - 1];
      var data := c.marshal(e);
      IndexFor(c, init) + [IndexEntry(e.key, |DataFile(c, init)|, ToInt32(|data|), c.crc(data))]
  }

  // ---------- the index file ----------

  function IndexRecord(ie: IndexEntry): (bytes: Str) {
    Put32(ToInt32(|ie.key|)) + ie.key + Put64(ie.offset) + Put32(ie.size) + Put32(ie.checksum)
  }

  function IndexFile(index: seq<IndexEntry>): (bytes: Str) {
    if index == [] then [] else IndexRecord(index[0]) + IndexFile(index[1..])
  }

  /** loadIndex from the current position on, given the entries read so far. A record may end
      before its checksum at the very end of the file; any other short read is an error. */
  function LoadFrom(bytes: Str, index: map<Str, IndexEntry>): (r: Option<map<Str, IndexEntry>>)
    decreases |bytes|
  {
    if bytes == [] then Some(index)
    else if |bytes| < 4 then None
    else
      var keyLen := GetInt32(bytes[..4]);
      if keyLen < 0 || |bytes| < 4 + keyLen + 12 then None
      else
        var key := bytes[4..4 + keyLen];
        var offset := GetInt64(bytes[4 + keyLen..12 + keyLen]);
        var size := GetInt32(bytes[12 + keyLen..16 + keyLen]);
        if |bytes| == 16 + keyLen then Some(index[key := IndexEntry(key, offset, size, 0)])
        else if |bytes| < 20 + keyLen then None
        else
          var checksum := GetUint32(bytes[16 + keyLen..20 + keyLen]);
          LoadFrom(bytes[20 + keyLen..], index[key := IndexEntry(key, offset, size, checksum)])
  }

  // ---------- the writer ----------

  /** The entries fit the format's 32- and 64-bit fields. */
  ghost predicate Fits(c: Codec, es: seq<MemEntry>) {
    && (forall i :: 0 <= i < |es| ==> |es[i].key| < 0x8000_0000 && |c.marshal(es[i])| < 0x8000_0000)
    && |DataFile(c, es)| < 0x8000_0000_0000_0000
  }

  class SSTableWriter {
    const codec: Codec
    var dataFile: Str
    var indexFile: Str
    var offset: int
    var index: seq<IndexEntry>
    ghost var written: seq<MemEntry>

    ghost predicate Valid()
      reads this
    {
      && dataFile == DataFile(codec, written) && offset == |dataFile|
      && index == IndexFor(codec, written) && indexFile == []
    }

    constructor (codec: Codec)
      ensures Valid() && written == [] && this.codec == codec
    {
      this.codec := codec;
      dataFile, indexFile, offset, index, written := [], [], 0, [], [];
    }

    method Write(entry: MemEntry)
      requires Valid()
      modifies this
      ensures Valid() && written == old(written) + [entry]
    {
      var data := codec.marshal(entry);
      var checksum := codec.crc(data);
      var entrySize := ToInt32(|data|);
      dataFile := dataFile + Put32(entrySize);
      dataFile := dataFile + Put32(checksum);
      dataFile := dataFile + data;
      index := index + [IndexEntry(entry.key, offset, entrySize, checksum)];
      offset := offset + 4 + 4 + |data|;
      written := written + [entry];
      assert written[..|written| - 1] == old(written);
      assert old(dataFile) + Put32(entrySize) + Put32(checksum) + data == old(dataFile) + Record(codec, entry);
    }

    /** Finalize: the index file lists the index in order. */
    method Finalize()
      requires Valid()
      modifies this
      ensures indexFile == IndexFile(IndexFor(codec, written))
      ensures dataFile == DataFile(codec, written) && written == old(written)
    {
      for i := 0 to |index|
        invariant index == old(index) && dataFile == old(dataFile) && written == old(written)
        invariant indexFile == IndexFile(index[..i])
      {
        IndexFileAppend(index[..i], index[i]);
        assert index[..i + 1] == index[..i] + [index[i]];
        indexFile := indexFile + IndexRecord(index[i]);
      }
      assert index[..|index|] == index;
    }
  }

  lemma {:induction false} IndexFileAppend(index: seq<IndexEntry>, ie: IndexEntry)
    ensures IndexFile(index + [ie]) == IndexFile(index) + IndexRecord(ie)
  {
    hide IndexRecord;
    if index == [] {
      assert [ie][1..] == [];
    } else {
      assert (index + [ie])[1..] == index[1..] + [ie];
      IndexFileAppend(index[1..], ie);
    }
  }

  // ---------- the reader ----------

  /** loadIndex. */
  method LoadIndex(indexFile: Str) returns (r: Option<map<Str, IndexEntry>>)
    ensures r == LoadFrom(indexFile, map[])
  {
    var index: map<Str, IndexEntry> := map[];
    var rest := indexFile;
    while rest != []
      invariant LoadFrom(indexFile, map[]) == LoadFrom(rest, index)
      decreases |rest|
    {
      if |rest| < 4 {
        return None;
      }
      var keyLen := GetInt32(rest[..4]);
      if keyLen < 0 || |rest| < 4 + keyLen + 12 {
        return None;
      }
      var key := rest[4..4 + keyLen];
      var offset := GetInt64(rest[4 + keyLen..12 + keyLen]);
      var size := GetInt32(rest[12 + keyLen..16 + keyLen]);
      if |rest| == 16 + keyLen {
        return Some(index[key := IndexEntry(key, offset, size, 0)]);
      }
      if |rest| < 20 + keyLen {
        return None;
      }
      var checksum := GetUint32(rest[16 + keyLen..20 + keyLen]);
      index := index[key := IndexEntry(key, offset, size, checksum)];
      rest := rest[20 + keyLen..];
    }
    return Some(index);
  }

  datatype ReadResult = NotFound | Failed | Found(entry: MemEntry)

  /** Get: look the key up, read its record, check it, parse it. The checksum field is skipped over
      only if the index records a checksum other than 0. */
  function ReadEntry(c: Codec, dataFile: Str, index: map<Str, IndexEntry>, key: Str): (r: ReadResult) {
    if key !in index then NotFound
    else
      var ie := index[key];
      if ie.offset < 0 || |dataFile| < ie.offset + 4 then Failed
      else
        var entrySize := GetInt32(dataFile[ie.offset..ie.offset + 4]);
        var start := if ie.checksum != 0 then ie.offset + 8 else ie.offset + 4;
        if entrySize < 0 || |dataFile| < start + entrySize then Failed
        else
          var data := dataFile[start..start + entrySize];
          if ie.checksum != 0 && c.crc(data) != GetUint32(dataFile[ie.offset + 4..ie.offset + 8]) then Failed
          else
            match c.unmarshal(data)
            case None => Failed
            case Some(e) => Found(e)
  }

  // ---------- the round trip ----------

  ghost predicate InRange(ie: IndexEntry) {
    && |ie.key| < 0x8000_0000 && 0 <= ie.offset < 0x8000_0000_0000_0000
    && 0 <= ie.size < 0x8000_0000 && ie.checksum < TWO_32
  }

  /** The index map after reading `es` in order: a later record for a key replaces an earlier one. */
  ghost function Recorded(m: map<Str, IndexEntry>, index: seq<IndexEntry>): (r: map<Str, IndexEntry>)
    decreases |index|
  {
    if index == [] then m else Recorded(m[index[0].key := index[0]], index[1..])
  }

  lemma LoadOneRecord(ie: IndexEntry, rest: Str, m: map<Str, IndexEntry>)
    requires InRange(ie)
    ensures LoadFrom(IndexRecord(ie) + rest, m) == LoadFrom(rest, m[ie.key := ie])
  {
    var n := |ie.key|;
    var p1, p2, p3, p4 := Put32(ToInt32(n)), Put64(ie.offset), Put32(ie.size), Put32(ie.checksum);
    RoundTrip32(n);
    RoundTrip64(ie.offset);
    RoundTrip32(ie.size);
    RoundTrip32(ie.checksum);
    hide Put32, Put64, GetInt32, GetInt64, GetUint32;
    var bytes := IndexRecord(ie) + rest;
    assert bytes[..4] == p1;
    assert bytes[4..4 + n] == ie.key;
    assert bytes[4 + n..12 + n] == p2;
    assert bytes[12 + n..16 + n] == p3;
    assert bytes[16 + n..20 + n] == p4;
    assert bytes[20 + n..] == rest;
  }

  lemma {:induction false} LoadUndoesFinalize(index: seq<IndexEntry>, m: map<Str, IndexEntry>)
    requires forall i :: 0 <= i < |index| ==> InRange(index[i])
    ensures LoadFrom(IndexFile(index), m) == Some(Recorded(m, index))
    decreases |index|
  {
    hide IndexRecord, LoadFrom;
    if index == [] {
      EmptyIndex(m);
    } else {
      LoadOneRecord(index[0], IndexFile(index[1..]), m);
      LoadUndoesFinalize(index[1..], m[index[0].key := index[0]]);
    }
  }

  lemma EmptyIndex(m: map<Str, IndexEntry>)
    ensures LoadFrom([], m) == Some(m)
  {
  }

  ghost predicate DistinctKeys(es: seq<MemEntry>) {
    forall i, j :: 0 <= i < j < |es| ==> es[i].key != es[j].key
  }

  lemma {:induction false} RecordedDistinct(m: map<Str, IndexEntry>, index: seq<IndexEntry>)
    requires forall i, j :: 0 <= i < j < |index| ==> index[i].key != index[j].key
    ensures forall i :: 0 <= i < |index| ==>
        index[i].key in Recorded(m, index) && Recorded(m, index)[index[i].key] == index[i]
    ensures forall k :: k in Recorded(m, index) <==> k in m || exists i :: 0 <= i < |index| && index[i].key == k
    ensures forall k :: k in m && (forall i :: 0 <= i < |index| ==> index[i].key != k) ==>
        k in Recorded(m, index) && Recorded(m, index)[k] == m[k]
    decreases |index|
  {
    if index != [] {
      var rest := index[1..];
      assert forall i :: 0 <= i < |rest| ==> rest[i] == index[i + 1];
      RecordedDistinct(m[index[0].key := index[0]], rest);
      forall i | 0 <= i < |index|
        ensures index[i].key in Recorded(m, index) && Recorded(m, index)[index[i].key] == index[i]
      {
        if i > 0 { assert rest[i - 1] == index[i]; }
      }
      forall k ensures k in Recorded(m, index) <==> k in m || exists i :: 0 <= i < |index| && index[i].key == k {
        if i :| 0 <= i < |index| && index[i].key == k { assert i > 0 ==> rest[i - 1].key == k; }
      }
    }
  }

  /** Where record `i` starts: right after the records before it. */
  ghost function OffsetOf(c: Codec, es: seq<MemEntry>, i: nat): (o: nat)
    requires i <= |es|
  {
    |DataFile(c, es[..i])|
  }

  /** Offsets tile the data file: each record starts where the previous one ends, the last one ends
      the file, and the index records just these offsets. */
  lemma {:induction false} RecordsTile(c: Codec, es: seq<MemEntry>, i: nat)
    requires i < |es|
    ensures OffsetOf(c, es, 0) == 0 && OffsetOf(c, es, |es|) == |DataFile(c, es)|
    ensures OffsetOf(c, es, i + 1) == OffsetOf(c, es, i) + 8 + |c.marshal(es[i])| <= |DataFile(c, es)|
    ensures DataFile(c, es)[OffsetOf(c, es, i)..OffsetOf(c, es, i + 1)] == Record(c, es[i])
    ensures IndexFor(c, es)[i] ==
        IndexEntry(es[i].key, OffsetOf(c, es, i), ToInt32(|c.marshal(es[i])|), c.crc(c.marshal(es[i])))
    decreases |es|
  {
    hide Record, ToInt32;
    assert es[..|es|] == es && es[..0] == [];
    var init, last := es[..|es| - 1], es[|es| - 1];
    RecordSize(c, last);
    if i < |init| {
      RecordsTile(c, init, i);
      assert init[..i] == es[..i] && init[..i + 1] == es[..i + 1];
      assert DataFile(c, es)[..|DataFile(c, init)|] == DataFile(c, init);
    }
  }

  lemma RecordSize(c: Codec, e: MemEntry)
    ensures |Record(c, e)| == 8 + |c.marshal(e)|
  {
  }

  /** Writing, finalizing and reloading gives an index with exactly the written keys. */
  lemma ReloadedIndex(c: Codec, es: seq<MemEntry>) returns (index: map<Str, IndexEntry>)
    requires Sound(c) && Fits(c, es) && DistinctKeys(es)
    ensures LoadFrom(IndexFile(IndexFor(c, es)), map[]) == Some(index)
    ensures forall k :: k in index <==> exists i :: 0 <= i < |es| && es[i].key == k
    ensures forall i :: 0 <= i < |es| ==> index[es[i].key] == IndexFor(c, es)[i]
  {
    hide DataFile, IndexFor, IndexFile, LoadFrom, Recorded, ToInt32;
    var entries := IndexFor(c, es);
    forall i | 0 <= i < |es| ensures entries[i].key == es[i].key && InRange(entries[i]) { RecordsTile(c, es, i); }
    LoadUndoesFinalize(entries, map[]);
    RecordedDistinct(map[], entries);
    index := Recorded(map[], entries);
  }

  /** Reading back: a written entry is returned exactly when its checksum is not 0; otherwise the
      read starts inside the checksum field and fails. Other keys are not found. */
  lemma ReadReturnsWrittenIff(c: Codec, es: seq<MemEntry>, index: map<Str, IndexEntry>)
    requires Sound(c) && Fits(c, es) && DistinctKeys(es)
    requires LoadFrom(IndexFile(IndexFor(c, es)), map[]) == Some(index)
    ensures forall i :: 0 <= i < |es| ==>
              ReadEntry(c, DataFile(c, es), index, es[i].key) ==
                (if c.crc(c.marshal(es[i])) != 0 then Found(es[i]) else Failed)
    ensures forall k :: (forall i :: 0 <= i < |es| ==> es[i].key != k) ==>
        ReadEntry(c, DataFile(c, es), index, k) == NotFound
  {
    var index' := ReloadedIndex(c, es);
    forall i | 0 <= i < |es|
      ensures ReadEntry(c, DataFile(c, es), index, es[i].key) ==
          (if c.crc(c.marshal(es[i])) != 0 then Found(es[i]) else Failed)
    {
      ReadRecord(c, es, index, i);
    }
  }

  lemma ReadRecord(c: Codec, es: seq<MemEntry>, index: map<Str, IndexEntry>, i: nat)
    requires Sound(c) && Fits(c, es) && i < |es|
    requires es[i].key in index && index[es[i].key] == IndexFor(c, es)[i]
    ensures ReadEntry(c, DataFile(c, es), index, es[i].key) ==
        if c.crc(c.marshal(es[i])) != 0 then Found(es[i]) else Failed
  {
    RecordsTile(c, es, i);
    var data := c.marshal(es[i]);
    assert c.unmarshal(data) == Some(es[i]);
    assert ToInt32(|data|) == |data|;
    ReadAt(c, DataFile(c, es), index, es[i].key, OffsetOf(c, es, i), data, es[i]);
  }

  lemma ReadAt(c: Codec, file: Str, index: map<Str, IndexEntry>, key: Str, o: nat, data: Str, e: MemEntry)
    requires Sound(c) && |data| < 0x8000_0000 && c.unmarshal(data) == Some(e)
    requires key in index && index[key] == IndexEntry(key, o, |data|, c.crc(data))
    requires o + 8 + |data| <= |file| && file[o..o + 8 + |data|] == Put32(|data|) + Put32(c.crc(data)) + data
    ensures ReadEntry(c, file, index, key) == if c.crc(data) != 0 then Found(e) else Failed
  {
    RoundTrip32(|data|);
    RoundTrip32(c.crc(data));
    ZeroBytes();
    hide Put32, GetInt32, GetUint32;
    var rec := file[o..o + 8 + |data|];
    SubSlice(file, o, 8 + |data|, 0, 4);
    SubSlice(file, o, 8 + |data|, 4, 8);
    SubSlice(file, o, 8 + |data|, 8, 8 + |data|);
    assert rec[0..4] == Put32(|data|) && rec[4..8] == Put32(c.crc(data)) && rec[8..8 + |data|] == data;
    if c.crc(data) == 0 {
      assert data != [];
      var misread := file[o + 4..o + 4 + |data|];
      assert misread[0] == file[o + 4..o + 8][0] == 0;
      assert c.unmarshal(misread).None?;
    }
  }

  // ---------- damage and older files ----------

  /** Record `i` of a file in which some records' data may have changed: size and checksum as they were
      written, and the data too, unless it is damaged so that its checksum is another one. */
  ghost predicate RecordStands(c: Codec, es: seq<MemEntry>, file: Str, i: nat, damaged: bool)
    requires i < |es| && |file| == |DataFile(c, es)|
  {
    var o, data := OffsetOf(c, es, i), c.marshal(es[i]);
    && o + 8 + |data| <= |file| && file[o..o + 8] == Put32(|data|) + Put32(c.crc(data))
    && (if damaged then c.crc(file[o + 8..o + 8 + |data|]) != c.crc(data) else file[o + 8..o + 8 + |data|] == data)
  }

  ghost predicate FileStands(c: Codec, es: seq<MemEntry>, file: Str, hit: set<nat>) {
    |file| == |DataFile(c, es)| && forall i: nat :: i < |es| ==> RecordStands(c, es, file, i, i in hit)
  }

  /** A damaged record is refused, and no other record suffers. */
  lemma {:induction false} DamagedRecordIsRefused(c: Codec, es: seq<MemEntry>, index: map<Str, IndexEntry>, file: Str,
        hit: set<nat>, i: nat)
    requires Sound(c) && Fits(c, es) && DistinctKeys(es) && FileStands(c, es, file, hit) && i < |es|
    requires LoadFrom(IndexFile(IndexFor(c, es)), map[]) == Some(index)
    ensures ReadEntry(c, file, index, es[i].key) ==
        if c.crc(c.marshal(es[i])) != 0 && i !in hit then Found(es[i]) else Failed
  {
    hide ReadEntry, DataFile, IndexFile, IndexFor, LoadFrom, Put32;
    var index' := ReloadedIndex(c, es);
    RecordsTile(c, es, i);
    var data := c.marshal(es[i]);
    assert ToInt32(|data|) == |data| && c.unmarshal(data) == Some(es[i]);
    assert RecordStands(c, es, file, i, i in hit);
    ReadStanding(c, file, index, es[i].key, OffsetOf(c, es, i), data, es[i]);
  }

  lemma ReadStanding(c: Codec, file: Str, index: map<Str, IndexEntry>, key: Str, o: nat, data: Str, e: MemEntry)
    requires Sound(c) && |data| < 0x8000_0000 && c.unmarshal(data) == Some(e)
    requires key in index && index[key] == IndexEntry(key, o, |data|, c.crc(data))
    requires o + 8 + |data| <= |file| && file[o..o + 8] == Put32(|data|) + Put32(c.crc(data))
    requires var read := file[o + 8..o + 8 + |data|]; read == data || c.crc(read) != c.crc(data)
    ensures ReadEntry(c, file, index, key) ==
        if c.crc(data) != 0 && c.crc(file[o + 8..o + 8 + |data|]) == c.crc(data) then Found(e) else Failed
  {
    RoundTrip32(|data|);
    RoundTrip32(c.crc(data));
    ZeroBytes();
    hide Put32, GetInt32, GetUint32;
    SubSlice(file, o, 8, 0, 4);
    SubSlice(file, o, 8, 4, 8);
    var head := file[o..o + 8];
    assert head[0..4] == Put32(|data|) && head[4..8] == Put32(c.crc(data));
    if c.crc(data) == 0 {
      assert data != [];
      var misread := file[o + 4..o + 4 + |data|];
      assert misread[0] == file[o + 4..o + 8][0] == 0;
      assert c.unmarshal(misread).None?;
    }
  }

  /** An index file that ends within a record: it loads with that record's checksum taken as 0 if just
      the checksum is missing, as in older files, and otherwise not at all. */
  lemma {:induction false} TornIndexLoads(index: seq<IndexEntry>, ie: IndexEntry, n: nat, m: map<Str, IndexEntry>)
    requires InRange(ie) && 0 < n < |IndexRecord(ie)| && forall i :: 0 <= i < |index| ==> InRange(index[i])
    ensures LoadFrom(IndexFile(index) + IndexRecord(ie)[..n], m) ==
        if n == |IndexRecord(ie)| - 4 then Some(Recorded(m, index)[ie.key := ie.(checksum := 0)]) else None
    decreases |index|
  {
    hide IndexRecord, LoadFrom;
    var torn := IndexRecord(ie)[..n];
    if index == [] {
      assert IndexFile(index) + torn == torn;
      TornRecord(ie, n, m);
    } else {
      var rest := index[1..];
      TornIndexLoads(rest, ie, n, m[index[0].key := index[0]]);
      assert IndexFile(index) + torn == IndexRecord(index[0]) + (IndexFile(rest) + torn);
      LoadOneRecord(index[0], IndexFile(rest) + torn, m);
    }
  }

  lemma TornRecord(ie: IndexEntry, n: nat, m: map<Str, IndexEntry>)
    requires InRange(ie) && 0 < n < |IndexRecord(ie)|
    ensures LoadFrom(IndexRecord(ie)[..n], m) ==
        if n == |IndexRecord(ie)| - 4 then Some(m[ie.key := ie.(checksum := 0)]) else None
  {
    var len := |ie.key|;
    var p1, p2, p3 := Put32(ToInt32(len)), Put64(ie.offset), Put32(ie.size);
    RoundTrip32(len);
    RoundTrip64(ie.offset);
    RoundTrip32(ie.size);
    hide Put32, Put64, GetInt32, GetInt64, GetUint32;
    var rec := IndexRecord(ie);
    var bytes := rec[..n];
    assert rec[..4] == p1 && rec[4..4 + len] == ie.key;
    assert rec[4 + len..12 + len] == p2 && rec[12 + len..16 + len] == p3;
    if n >= 4 { assert bytes[..4] == rec[..4]; }
    if n >= 16 + len {
      assert bytes[4..4 + len] == rec[4..4 + len] && bytes[4 + len..12 + len] == rec[4 + len..12 + len];
      assert bytes[12 + len..16 + len] == rec[12 + len..16 + len];
    }
  }

  /** A record of an older file, which has no checksum, reads back. */
  lemma OldRecordReads(c: Codec, file: Str, index: map<Str, IndexEntry>, key: Str, data: Str, e: MemEntry)
    requires |data| < 0x8000_0000 && c.unmarshal(data) == Some(e) && key in index && index[key].checksum == 0
    requires var o := index[key].offset;
             0 <= o && o + 4 + |data| <= |file| && file[o..o + 4 + |data|] == Put32(|data|) + data
    ensures ReadEntry(c, file, index, key) == Found(e)
  {
    RoundTrip32(|data|);
    hide Put32, GetInt32, GetUint32;
    var o := index[key].offset;
    SubSlice(file, o, 4 + |data|, 0, 4);
    SubSlice(file, o, 4 + |data|, 4, 4 + |data|);
    var rec := file[o..o + 4 + |data|];
    assert rec[0..4] == Put32(|data|) && rec[4..4 + |data|] == data;
  }

  lemma SubSlice(s: Str, o: nat, n: nat, a: nat, b: nat)
    requires o + n <= |s| && a <= b <= n
    ensures s[o..o + n][a..b] == s[o + a..o + b]
  {
    var x, y := s[o..o + n][a..b], s[o + a..o + b];
    forall i | 0 <= i < b - a ensures x[i] == y[i] { assert x[i] == s[o..o + n][a + i]; }
  }

  lemma ZeroBytes()
    ensures Put32(0)[0] == 0
  {
  }
}
