/** The in-memory table: a sorted map of cells and a running estimate of its size. */
module MemTables {
  import opened Entries
  import opened Records

  /** Four tree links and one entry (a 32-byte string and a tag) on a 64-bit platform. */
  const ENTRY_OVERHEAD: nat := 72

  function EntrySize(key: Key, cell: Cell): nat
  {
    |key| + (if cell.kind.Tombstone? then 0 else |cell.value|) + ENTRY_OVERHEAD
  }

  /** The size that the entries of a layer add up to. */
  function TotalSize(layer: Layer): nat
    decreases |layer|
  {
    if layer == map[] then 0 else
      var k := LeastKey(layer.Keys);
      EntrySize(k, layer[k]) + TotalSize(layer - {k})
  }

  lemma {:induction false} TotalSizeWithout(layer: Layer, key: Key)
    requires key in layer
    ensures TotalSize(layer) == EntrySize(key, layer[key]) + TotalSize(layer - {key})
    decreases |layer|
  {
    var k := LeastKey(layer.Keys);
    if k != key {
      TotalSizeWithout(layer - {k}, key);
      TotalSizeWithout(layer - {key}, k);
      assert layer - {k} - {key} == layer - {key} - {k};
    }
  }

  lemma TotalSizeUpdate(layer: Layer, key: Key, cell: Cell)
    ensures TotalSize(layer[key := cell])
         == EntrySize(key, cell) + (if key in layer then TotalSize(layer) - EntrySize(key, layer[key]) else TotalSize(layer))
  {
    var updated := layer[key := cell];
    TotalSizeWithout(updated, key);
    assert updated - {key} == layer - {key};
    if key in layer {
      TotalSizeWithout(layer, key);
    } else {
      assert layer - {key} == layer;
    }
  }

  /** The size of an entry that is present is part of the total, so that subtracting it never
      has to be clamped at zero. */
  lemma SubtractionNeverClamps(layer: Layer, key: Key)
    requires key in layer
    ensures TotalSize(layer) >= EntrySize(key, layer[key])
  {
    TotalSizeWithout(layer, key);
  }

  /** The size is that of the entries as records of a log or a table, and 59 bytes for each of them. */
  lemma {:induction false} SizeAsRecords(layer: Layer)
    ensures TotalSize(layer) == |EncodeAll(Listing(layer))| + 59 * |layer|
    decreases |layer|
  {
    hide Encode, LeastKey;
    if layer == map[] {
      assert Listing(layer) == [];
    } else {
      var k := LeastKey(layer.Keys);
      var e := Entry(k, layer[k].value, layer[k].kind);
      SizeAsRecords(layer - {k});
      PutBack(layer, k);
      assert Listing(layer)[1..] == Listing(layer - {k});
      assert EncodeAll(Listing(layer)) == Encode(e) + EncodeAll(Listing(layer - {k}));
    }
  }

  /** What a record does to the table when it is replayed: a deletion drops its value. */
  function Replayed(e: Entry): Cell
  {
    Cell(StoredValue(e), e.kind)
  }

  /** The table that a sequence of log records rebuilds. */
  function LogLayer(es: seq<Entry>): Layer
  {
    if es == [] then map[] else
      LogLayer(es[..|es| - 1])[es[|es| - 1].key := Replayed(es[|es| - 1])]
  }

  lemma LogLayerSnoc(es: seq<Entry>, e: Entry)
    ensures LogLayer(es + [e]) == LogLayer(es)[e.key := Replayed(e)]
  {
    assert (es + [e])[..|es|] == es;
  }

  predicate EmptyTombstones(layer: Layer)
  {
    forall k :: k in layer && layer[k].kind.Tombstone? ==> layer[k].value == []
  }

  class MemTable {
    var table: Layer
    var approximateSize: nat
    const sizeThreshold: nat

    /** The running size is exact, and tombstones hold no value. */
    ghost predicate Valid()
      reads this
    {
      approximateSize == TotalSize(table) && EmptyTombstones(table)
    }

    constructor (threshold: nat)
      ensures Valid() && table == map[] && sizeThreshold == threshold
    {
      table := map[];
      approximateSize := 0;
      sizeThreshold := threshold;
      new;
      assert TotalSize(map[]) == 0;
    }

    method AddSize(bytes: nat)
      modifies this`approximateSize
      ensures approximateSize == old(approximateSize) + bytes
    {
      approximateSize := approximateSize + bytes;
    }

    method SubSize(bytes: nat)
      modifies this`approximateSize
      ensures approximateSize == if old(approximateSize) >= bytes then old(approximateSize) - bytes else 0
    {
      if approximateSize >= bytes {
        approximateSize := approximateSize - bytes;
      } else {
        approximateSize := 0;
      }
    }

    method Put(key: Key, value: Value)
      requires Valid()
      modifies this
      ensures Valid() && table == old(table)[key := Cell(value, Kind.Put)]
      ensures approximateSize == |EncodeAll(Listing(table))| + 59 * |table|
      ensures approximateSize <= old(approximateSize) + |key| + |value| + ENTRY_OVERHEAD
    {
      TotalSizeUpdate(table, key, Cell(value, Kind.Put));
      if key in table {
        SubtractionNeverClamps(table, key);
        SubSize(|key| + (if table[key].kind.Tombstone? then 0 else |table[key].value|) + ENTRY_OVERHEAD);
        table := table[key := Cell(value, Kind.Put)];
        AddSize(|key| + |value| + ENTRY_OVERHEAD);
      } else {
        table := table[key := Cell(value, Kind.Put)];
        AddSize(|key| + |value| + ENTRY_OVERHEAD);
      }
      SizeAsRecords(table);
    }

    method Remove(key: Key)
      requires Valid()
      modifies this
      ensures Valid() && table == old(table)[key := Cell([], Tombstone)]
      ensures approximateSize == |EncodeAll(Listing(table))| + 59 * |table|
      ensures approximateSize <= old(approximateSize) + |key| + ENTRY_OVERHEAD
    {
      TotalSizeUpdate(table, key, Cell([], Tombstone));
      if key in table {
        SubtractionNeverClamps(table, key);
        SubSize(|key| + (if table[key].kind.Tombstone? then 0 else |table[key].value|) + ENTRY_OVERHEAD);
        table := table[key := Cell([], Tombstone)];
        AddSize(|key| + ENTRY_OVERHEAD);
      } else {
        table := table[key := Cell([], Tombstone)];
        AddSize(|key| + ENTRY_OVERHEAD);
      }
      SizeAsRecords(table);
    }

    method Get(key: Key) returns (answer: Lookup)
      ensures answer == Answer(table, key)
    {
      if key !in table {
        return Absent;
      }
      if table[key].kind.Tombstone? {
        return Deleted;
      }
      return Found(table[key].value);
    }

    method IsFull() returns (full: bool)
      ensures full == (approximateSize >= sizeThreshold)
    {
      full := approximateSize >= sizeThreshold;
    }

    method Clear()
      modifies this
      ensures Valid() && table == map[] && approximateSize == 0
    {
      table := map[];
      approximateSize := 0;
    }
  }
}
