/** The memtable over the skip list, and the service that swaps it out for flushing. */
module MemTables {
  import opened GoStrings
  import opened SSTableFormat
  import opened StorageEngine
  import opened SkipLists

  ghost predicate Keyed(m: Table) {
    forall k :: k in m ==> m[k].key == k
  }

  /** The entries of a table in the order of its keys. */
  ghost function InOrder(keys: seq<Str>, m: Table): (es: seq<MemEntry>)
    requires forall k :: k in keys ==> k in m
    ensures |es| == |keys| && forall i :: 0 <= i < |es| ==> es[i] == m[keys[i]]
  {
    if keys == [] then [] else InOrder(keys[..|keys| - 1], m) + [m[keys[|keys| - 1]]]
  }

  class MemTable {
    const data: SkipList<MemEntry>
    var size: int

    ghost function Footprint(): (objects: set<object>)
      reads this, data
    {
      {this, data} + data.Repr
    }

    /** Entries are filed under their own keys; the size is 0 exactly while the table is empty. */
    ghost predicate Valid()
      reads this, data, data.Repr
    {
      && data.Valid() && this !in data.Repr && Keyed(data.contents)
      && size >= 0 && (size == 0 <==> data.contents == map[])
    }

    constructor ()
      ensures Valid() && data.contents == map[] && fresh(Footprint())
    {
      data := new SkipList();
      size := 0;
    }

    method Put(entry: MemEntry)
      requires Valid()
      modifies Footprint()
      ensures Valid() && fresh(Footprint() - old(Footprint()))
      ensures data.contents == old(data.contents)[entry.key := entry]
      ensures size == old(size) + |entry.key| + |entry.value| + 64
    {
      hide SkipList.Valid;
      var entrySize := |entry.key| + |entry.value| + 64;
      data.Insert(entry.key, entry);
      size := size + entrySize;
      assert entry.key in data.contents;
    }

    method Get(key: Str) returns (r: Option<MemEntry>)
      requires Valid()
      ensures r == Lookup(data.contents, key)
    {
      r := data.Search(key);
    }

    /** Walking the iterator to its end yields every entry once, in key order. */
    method Entries() returns (es: seq<MemEntry>)
      requires Valid()
      ensures es == InOrder(data.SortedKeys(), data.contents)
    {
      es := Walk(data);
    }
  }

  /** The iterator loop. */
  method Walk(data: SkipList<MemEntry>) returns (es: seq<MemEntry>)
    requires data.Valid()
    ensures es == InOrder(data.SortedKeys(), data.contents)
  {
    hide SkipList.Valid, SkipList.SortedKeys, SkipListIterator.Valid, InOrder;
    es := [];
    var it := new SkipListIterator(data);
    ghost var keys := data.SortedKeys();
    while true
      invariant it.Valid() && it.list == data && fresh(it)
      invariant data.SortedKeys() == keys && |es| == it.pos <= |keys|
      invariant forall i :: 0 <= i < |es| ==> es[i] == data.contents[keys[i]]
      decreases |keys| - it.pos
    {
      var more := it.Next();
      if !more {
        break;
      }
      var entry := it.Value();
      es := es + [entry.value];
    }
    WalkedInOrder(data, es);
  }

  lemma WalkedInOrder(data: SkipList<MemEntry>, es: seq<MemEntry>)
    requires data.Valid() && |es| == |data.SortedKeys()|
    requires forall i :: 0 <= i < |es| ==> es[i] == data.contents[data.SortedKeys()[i]]
    ensures es == InOrder(data.SortedKeys(), data.contents)
  {
    hide SkipList.Valid, SkipList.SortedKeys;
  }

  class MemTableService {
    var memTable: MemTable
    var immutableMT: MemTable?
    ghost var Repr: set<object>

    ghost predicate Valid()
      reads this, Repr
    {
      && this in Repr && memTable in Repr && memTable.data in Repr
      && memTable.Footprint() <= Repr && this !in memTable.Footprint() && memTable.Valid()
      && (immutableMT != null ==>
            && immutableMT in Repr && immutableMT.data in Repr
            && immutableMT.Footprint() <= Repr && this !in immutableMT.Footprint() && immutableMT.Valid()
            && immutableMT.Footprint() !! memTable.Footprint())
    }

    ghost function Mem(): (m: Table)
      reads this, memTable, memTable.data
    {
      memTable.data.contents
    }

    ghost function Imm(): (m: Option<Table>)
      requires Valid()
      reads this, Repr
    {
      if immutableMT == null then None else Some(immutableMT.data.contents)
    }

    constructor ()
      ensures Valid() && fresh(Repr) && Mem() == map[] && Imm() == None
    {
      hide SkipList.Valid;
      memTable := new MemTable();
      immutableMT := null;
      new;
      Repr := {this} + memTable.Footprint();
    }

    method Put(entry: MemEntry)
      requires Valid()
      modifies Repr
      ensures Valid() && fresh(Repr - old(Repr))
      ensures Mem() == old(Mem())[entry.key := entry] && Imm() == old(Imm())
      ensures immutableMT == old(immutableMT) && memTable == old(memTable)
    {
      hide SkipList.Valid;
      memTable.Put(entry);
      Repr := Repr + memTable.Footprint();
    }

    /** Get: the current memtable, then the immutable one. */
    method Get(key: Str) returns (r: Option<MemEntry>)
      requires Valid()
      ensures r == if key in Mem() then Some(Mem()[key]) else if Imm().Some? then Lookup(Imm().value, key) else None
    {
      r := memTable.Get(key);
      if r.Some? {
        return;
      }
      if immutableMT != null {
        r := immutableMT.Get(key);
      }
    }

    /** The first part of Flush: an empty memtable is left alone, any other becomes immutable. */
    method BeginFlush() returns (immutable: MemTable?)
      requires Valid()
      modifies this
      ensures Valid() && fresh(Repr - old(Repr))
      ensures immutable == null <==> old(Mem()) == map[]
      ensures immutable == null ==> Mem() == old(Mem()) && Imm() == old(Imm())
      ensures immutable != null ==>
          immutable == immutableMT && immutable == old(memTable) && Mem() == map[] && Imm() == Some(old(Mem()))
    {
      hide SkipList.Valid;
      if memTable.size == 0 {
        return null;
      }
      var table := new MemTable();
      immutableMT := memTable;
      memTable := table;
      Repr := Repr + table.Footprint();
      immutable := immutableMT;
    }

    /** The last part of Flush. */
    method EndFlush()
      requires Valid()
      modifies this
      ensures Valid() && Repr == old(Repr) && Mem() == old(Mem()) && Imm() == None
    {
      hide SkipList.Valid;
      immutableMT := null;
    }
  }
}
