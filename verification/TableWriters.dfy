/** Writing a table file, record by record. */
module TableWriters {
  import opened Bytes
  import opened Crc
  import opened Entries
  import opened Records
  import opened SparseIndexes
  import opened Blooms
  import opened TableFormat
  import opened Storage
  import opened Config

  /** The records of a list that the writer's check of each key against the one before lets
      through: an empty previous key switches the check off. */
  predicate AcceptedOrder(es: seq<Entry>)
  {
    forall i :: 0 < i < |es| ==> es[i - 1].key == [] || Less(es[i - 1].key, es[i].key)
  }

  lemma {:induction false} AcceptedFrom(es: seq<Entry>, i: nat, j: nat)
    requires AcceptedOrder(es) && (forall k :: 1 <= k < |es| ==> es[k].key != []) && i < j < |es|
    ensures Less(es[i].key, es[j].key)
  {
    if i < j - 1 {
      AcceptedFrom(es, i, j - 1);
      LessTransitive(es[i].key, es[j - 1].key, es[j].key);
    }
  }

  /** The pairwise check accepts exactly the strictly sorted lists, as long as no key but the
      first is empty; and a strictly sorted list has no other empty key. */
  lemma OrderCheckIsSorted(es: seq<Entry>)
    ensures Sorted(es) <==> AcceptedOrder(es) && forall i :: 1 <= i < |es| ==> es[i].key != []
  {
    if AcceptedOrder(es) && forall i :: 1 <= i < |es| ==> es[i].key != [] {
      forall i, j | 0 <= i < j < |es|
        ensures Less(es[i].key, es[j].key)
      {
        AcceptedFrom(es, i, j);
      }
    }
    if Sorted(es) {
      forall i | 1 <= i < |es|
        ensures es[i].key != []
      {
        assert Less(es[0].key, es[i].key);
      }
    }
  }

  /** Otherwise it lets through what is not sorted: the same empty key is accepted twice. */
  lemma EmptyKeyIsNotChecked()
    ensures exists es :: AcceptedOrder(es) && !Sorted(es)
  {
    var e := Entry([], [], Put);
    assert AcceptedOrder([e, e]);
    LessIrreflexive([]);
    assert [e, e][0] == e && [e, e][1] == e;
    assert !Sorted([e, e]);
  }

  /** What a writer keeps track of. */
  datatype Progress = Progress(offset: nat, count: nat, last: Key, index: seq<IndexEntry>, bits: Bytes, hashes: nat)

  /** Everything tracked is a function of the records written so far. */
  ghost predicate Tracks(p: Progress, file: Bytes, written: seq<Entry>, shape: Shape)
  {
    && shape.interval > 0
    && file == TableHeader() + EncodeAll(written)
    && p.offset == TABLE_HEADER_SIZE + |EncodeAll(written)|
    && p.count == |written| < U32
    && p.last == (if written == [] then [] else written[|written| - 1].key)
    && p.index == SparseOf(written, shape.interval)
    && p.bits == FilterBits(written, shape) && p.hashes == shape.hashes
    && AcceptedOrder(written)
    && (forall e :: e in written ==> Encodable(e) && Canonical(e))
  }

  lemma TracksStart(shape: Shape)
    requires shape.interval > 0
    ensures Tracks(Progress(TABLE_HEADER_SIZE, 0, [], [], EmptyBits(ByteCount(shape.capacity, shape.bitsPerKey)), shape.hashes),
                   TableHeader(), [], shape)
  {
    hide EncodeAll, SparseOf, FilterBits, TableHeader, ByteCount;
    NothingWritten(shape);
    assert TableHeader() == TableHeader() + [];
  }

  lemma TracksAppend(p: Progress, file: Bytes, written: seq<Entry>, shape: Shape, e: Entry)
    requires Tracks(p, file, written, shape) && Encodable(e) && Canonical(e) && p.count + 1 < U32
    requires p.last == [] || !LessEq(e.key, p.last)
    ensures Tracks(Progress(p.offset + RecordSize(e), (p.count + 1) % U32, e.key,
                            if p.count % shape.interval == 0 then p.index + [IndexEntry(e.key, p.offset)] else p.index,
                            AddKey(p.bits, p.hashes, e.key), p.hashes),
                   file + Encode(e), written + [e], shape)
  {
    hide EncodeAll, Encode, SparseOf, FilterBits, AddKey, TableHeader, AcceptedOrder, Less;
    AppendFacts(written, e, shape);
    OrderExtends(written, e);
    assert (TableHeader() + EncodeAll(written)) + Encode(e) == TableHeader() + (EncodeAll(written) + Encode(e));
  }

  class SSTableWriter {
    const fs: FileSystem
    const options: Options
    var path: Name
    var isOpen: bool
    var currentOffset: nat
    var recordCount: nat
    var lastKey: Key
    const index: SSTableIndex
    var bloom: BloomFilter
    ghost var written: seq<Entry>
    ghost var shape: Shape

    ghost function Tracked(): Progress
      reads this, index, bloom
    {
      Progress(currentOffset, recordCount, lastKey, index.entries, bloom.bits, bloom.hashes)
    }

    ghost predicate Valid()
      reads this, index, bloom, fs
    {
      isOpen ==>
        && shape.interval == options.sparseInterval
        && path in fs.files && Tracks(Tracked(), fs.files[path], written, shape)
    }

    constructor (fs: FileSystem, options: Options)
      ensures this.fs == fs && this.options == options && !isOpen
      ensures fresh(index) && fresh(bloom) && index.entries == []
    {
      this.fs := fs;
      this.options := options;
      path := "";
      isOpen := false;
      currentOffset := 0;
      recordCount := 0;
      lastKey := [];
      index := new SSTableIndex();
      bloom := new BloomFilter(0, 10, 7);
      written := [];
      shape := Shape(1, 0, 0, 0);
    }

    /** Starts the file. The index is not reset, so a writer is opened once. */
    method Open(path: Name, estimatedKeys: nat) returns (status: Status)
      requires options.sparseInterval > 0 && index.entries == []
      modifies this, fs`files, fs`crashes, fs`failures
      ensures status.OK? || status.IOError?
      ensures !status.OK? ==> !isOpen && fs.files == old(fs.files)
      ensures status.OK? ==> Valid() && isOpen && this.path == path && written == [] && recordCount == 0 && lastKey == []
      ensures status.OK? ==> shape == ShapeFor(options, estimatedKeys)
      ensures fresh(bloom) || bloom == old(bloom)
      ensures fs.failures == if status.OK? then old(fs.failures) else old(fs.failures) + 1
      ensures Confined(old(fs.files), old(fs.crashes), fs.files, fs.crashes, path)
    {
      hide Confined, ByteCount, EmptyBits, Tracks, TableHeader;
      isOpen := false;
      this.path := path;
      var ok := BeginFile(fs, path);
      if !ok {
        return IOError;
      }
      isOpen := true;
      recordCount := 0;
      lastKey := [];
      bloom := new BloomFilter(if estimatedKeys > 0 then estimatedKeys else 100, options.bloomBitsPerKey, options.bloomHashes);
      currentOffset := TABLE_HEADER_SIZE;
      written, shape := [], ShapeFor(options, estimatedKeys);
      TracksStart(shape);
      status := OK;
    }

    /** Appends a record, unless its key is not above the key before it. */
    method Append(key: Key, value: Value, kind: Kind) returns (status: Status)
      requires Valid() && |key| < U32 && |value| < U32 && recordCount + 1 < U32 && options.sparseInterval > 0
      modifies this, index, bloom, fs`files, fs`crashes
      ensures Valid() && path == old(path) && isOpen == old(isOpen) && shape == old(shape) && bloom == old(bloom)
      ensures recordCount == if status.OK? then old(recordCount) + 1 else old(recordCount)
      ensures lastKey == if status.OK? then key else old(lastKey)
      ensures status == (if !isOpen then IOError
                         else if old(lastKey) != [] && LessEq(key, old(lastKey)) then Corruption
                         else OK)
      ensures isOpen && old(lastKey) != [] ==> (status.OK? <==> Above(key, old(lastKey)))
      ensures written == if status.OK? then old(written) + [Entry(key, StoredValue(Entry(key, value, kind)), kind)] else old(written)
      ensures !status.OK? ==> fs.files == old(fs.files) && fs.crashes == old(fs.crashes)
      ensures Confined(old(fs.files), old(fs.crashes), fs.files, fs.crashes, path)
    {
      hide Confined, Encode, AddKey, Tracks, Less, Above, BodySizeOf, Body;
      ConfinedNothing(fs.files, fs.crashes, path);
      NotLessEqMeans(key, lastKey);
      if !isOpen {
        return IOError;
      }
      if lastKey != [] && LessEq(key, lastKey) {
        return Corruption;
      }
      ghost var e := Entry(key, StoredValue(Entry(key, value, kind)), kind);
      TracksAppend(Tracked(), fs.files[path], written, shape, e);
      bloom.Add(key);
      if recordCount % options.sparseInterval == 0 {
        index.Add(key, currentOffset);
      }
      var record := BuildRecord(key, value, kind, BodySizeOf(key, value, kind));
      SameRecord(key, value, kind);
      fs.Append(path, record);
      currentOffset := currentOffset + |record|;
      recordCount := (recordCount + 1) % U32;
      lastKey := key;
      written := written + [e];
      status := OK;
    }

    /** Completes the file with index, filter and footer. */
    method Finish() returns (status: Status)
      requires Valid() && (isOpen ==> Fits(written, shape))
      modifies this, fs`files, fs`crashes
      ensures status == if old(isOpen) then OK else IOError
      ensures !isOpen && path == old(path) && written == old(written) && shape == old(shape)
      ensures status.OK? ==> path in fs.files && fs.files[path] == TableBytes(written, shape)
      ensures !status.OK? ==> fs.files == old(fs.files) && fs.crashes == old(fs.crashes)
      ensures Confined(old(fs.files), old(fs.crashes), fs.files, fs.crashes, path)
    {
      hide Confined, EncodeAll, SparseOf, FilterBits, TableHeader, IndexBlock, BloomRaw, Le, Crc32, ByteCount,
        FooterBytes;
      ConfinedNothing(fs.files, fs.crashes, path);
      if !isOpen {
        return IOError;
      }
      ghost var disk0, crashes0 := fs.files, fs.crashes;
      var dataSize := currentOffset - TABLE_HEADER_SIZE;
      var indexOffset := currentOffset;
      SparseOfStorable(written, options.sparseInterval, |TableBytes(written, shape)|);
      var indexBlock := index.Serialize();
      fs.Append(path, indexBlock);
      ghost var disk1, crashes1 := fs.files, fs.crashes;
      currentOffset := currentOffset + |indexBlock|;
      var bloomOffset := currentOffset;
      FilterBitsSize(written, shape);
      var bloomRaw := bloom.Serialize();
      var bloomBlock := Seal(bloomRaw);
      fs.Append(path, bloomBlock);
      ghost var disk2, crashes2 := fs.files, fs.crashes;
      ConfinedChain(disk0, crashes0, disk1, crashes1, disk2, crashes2, path);
      currentOffset := currentOffset + |bloomBlock|;
      var footer := Footer(TABLE_HEADER_SIZE, dataSize, indexOffset, |indexBlock|, bloomOffset, |bloomBlock|, recordCount, 0);
      var footerBlock := SerializeFooter(footer);
      fs.Append(path, footerBlock);
      ConfinedChain(disk0, crashes0, disk2, crashes2, fs.files, fs.crashes, path);
      isOpen := false;
      status := OK;
    }
  }

  lemma NothingWritten(p: Shape)
    requires p.interval > 0
    ensures EncodeAll([]) == [] && SparseOf([], p.interval) == []
    ensures FilterBits([], p) == EmptyBits(ByteCount(p.capacity, p.bitsPerKey))
    ensures AcceptedOrder([])
  {
    assert KeysOf([]) == [];
  }

  lemma OrderExtends(es: seq<Entry>, e: Entry)
    requires AcceptedOrder(es)
    requires es == [] || es[|es| - 1].key == [] || !LessEq(e.key, es[|es| - 1].key)
    ensures AcceptedOrder(es + [e])
  {
    if es != [] {
      LessTotal(e.key, es[|es| - 1].key);
    }
  }

  lemma SameRecord(key: Key, value: Value, kind: Kind)
    ensures Encode(Entry(key, value, kind)) == Encode(Entry(key, StoredValue(Entry(key, value, kind)), kind))
  {
    var e := Entry(key, value, kind);
    var e' := Entry(key, StoredValue(e), kind);
    assert StoredValue(e) == StoredValue(e');
    assert Body(e) == Body(e');
  }

  /** How the tracked values change when a record is added. */
  lemma AppendFacts(es: seq<Entry>, e: Entry, p: Shape)
    requires p.interval > 0
    ensures EncodeAll(es + [e]) == EncodeAll(es) + Encode(e)
    ensures SparseOf(es + [e], p.interval)
         == (if |es| % p.interval == 0 then SparseOf(es, p.interval) + [IndexEntry(e.key, TABLE_HEADER_SIZE + |EncodeAll(es)|)]
             else SparseOf(es, p.interval))
    ensures FilterBits(es + [e], p) == AddKey(FilterBits(es, p), p.hashes, e.key)
  {
    hide EncodeAll, Encode, AddKey, SparseOf, FilterBits;
    EncodeAllConcat(es, [e]);
    EncodeAllOne(e);
    IndexAppend(es, e, p.interval);
    FilterAppend(es, e, p);
  }

  lemma IndexAppend(es: seq<Entry>, e: Entry, interval: nat)
    requires interval > 0
    ensures SparseOf(es + [e], interval)
         == (if |es| % interval == 0 then SparseOf(es, interval) + [IndexEntry(e.key, TABLE_HEADER_SIZE + |EncodeAll(es)|)]
             else SparseOf(es, interval))
  {
    hide EncodeAll;
    var all := es + [e];
    assert all[..|all| - 1] == es && all[|all| - 1] == e;
    assert Offset(all, |es|) == TABLE_HEADER_SIZE + |EncodeAll(es)|;
  }

  lemma FilterAppend(es: seq<Entry>, e: Entry, p: Shape)
    ensures FilterBits(es + [e], p) == AddKey(FilterBits(es, p), p.hashes, e.key)
  {
    hide AddKey, EmptyBits, ByteCount;
    var all := es + [e];
    assert KeysOf(all)[..|es|] == KeysOf(es) && KeysOf(all)[|es|] == e.key;
  }

  /** Creates the file and writes the header. */
  method BeginFile(fs: FileSystem, path: Name) returns (ok: bool)
    modifies fs`files, fs`crashes, fs`failures
    ensures ok ==> path in fs.files && fs.files[path] == TableHeader()
    ensures !ok ==> fs.files == old(fs.files)
    ensures fs.failures == if ok then old(fs.failures) else old(fs.failures) + 1
    ensures Confined(old(fs.files), old(fs.crashes), fs.files, fs.crashes, path)
  {
    hide Confined, TableHeader;
    ok := fs.Create(path);
    if ok {
      ghost var disk, crashes := fs.files, fs.crashes;
      var header := WriteTableHeader();
      fs.Append(path, header);
      ConfinedChain(old(fs.files), old(fs.crashes), disk, crashes, fs.files, fs.crashes, path);
      assert [] + header == header;
    }
  }

  method WriteTableHeader() returns (header: Bytes)
    ensures header == TableHeader()
  {
    hide Le;
    var buffer := new byte[TABLE_HEADER_SIZE];
    EncodeUint64LE(HEADER_MAGIC, buffer, 0);
    assert buffer[..8] == Le(HEADER_MAGIC, 8);
    EncodeUint32LE(VERSION, buffer, 8);
    assert buffer[..12] == Le(HEADER_MAGIC, 8) + Le(VERSION, 4);
    EncodeUint32LE(0, buffer, 12);
    assert buffer[..] == Le(HEADER_MAGIC, 8) + Le(VERSION, 4) + Le(0, 4) + [];
    header := buffer[..];
  }

  method SerializeFooter(f: Footer) returns (block: Bytes)
    requires Narrow(f)
    ensures block == FooterBytes(f)
  {
    hide Le;
    var buffer := new byte[FOOTER_SIZE];
    EncodeUint64LE(f.dataOffset, buffer, 0);
    ghost var b1 := Le(f.dataOffset, 8);
    assert buffer[..8] == b1;
    EncodeUint64LE(f.dataSize, buffer, 8);
    ghost var b2 := b1 + Le(f.dataSize, 8);
    assert buffer[..16] == b2;
    EncodeUint64LE(f.indexOffset, buffer, 16);
    ghost var b3 := b2 + Le(f.indexOffset, 8);
    assert buffer[..24] == b3;
    EncodeUint64LE(f.indexSize, buffer, 24);
    ghost var b4 := b3 + Le(f.indexSize, 8);
    assert buffer[..32] == b4;
    EncodeUint64LE(f.bloomOffset, buffer, 32);
    ghost var b5 := b4 + Le(f.bloomOffset, 8);
    assert buffer[..40] == b5;
    EncodeUint64LE(f.bloomSize, buffer, 40);
    ghost var b6 := b5 + Le(f.bloomSize, 8);
    assert buffer[..48] == b6;
    EncodeUint32LE(f.recordCount, buffer, 48);
    ghost var b7 := b6 + Le(f.recordCount, 4);
    assert buffer[..52] == b7;
    EncodeUint32LE(f.flags, buffer, 52);
    ghost var b8 := b7 + Le(f.flags, 4);
    assert buffer[..56] == b8;
    EncodeUint64LE(FOOTER_MAGIC, buffer, 56);
    assert buffer[..] == b8 + Le(FOOTER_MAGIC, 8) + [];
    block := buffer[..];
  }

  /** The records of a list as a reader will hand them back. */
  function Stored(es: seq<Entry>): (r: seq<Entry>)
    ensures |r| == |es|
  {
    seq(|es|, i requires 0 <= i < |es| => Entry(es[i].key, StoredValue(es[i]), es[i].kind))
  }

  /** Writes a whole table. Sorted records are only ever refused because the file cannot be
      created; a failed write touches no other file. */
  method WriteEntries(fs: FileSystem, path: Name, entries: seq<Entry>, options: Options) returns (status: Status)
    requires Fits(Stored(entries), ShapeFor(options, |entries|))
    requires forall e :: e in entries ==> Encodable(e)
    requires options.sparseInterval > 0
    modifies fs`files, fs`crashes, fs`failures
    ensures status.OK? || status.IOError? || status.Corruption?
    ensures fs.failures == if status.IOError? then old(fs.failures) + 1 else old(fs.failures)
    ensures Sorted(entries) ==> !status.Corruption?
    ensures status.OK? ==>
      && path in fs.files && fs.files[path] == TableBytes(Stored(entries), ShapeFor(options, |entries|))
      && AcceptedOrder(entries)
    ensures Confined(old(fs.files), old(fs.crashes), fs.files, fs.crashes, path)
  {
    hide Confined, Tracks, TableBytes, ByteCount, AcceptedOrder, StoredValue;
    assert |Stored(entries)| < U32;
    hide Fits, Sorted;
    var writer := new SSTableWriter(fs, options);
    status := writer.Open(path, |entries|);
    if !status.OK? {
      return;
    }
    ghost var disk, crashes := fs.files, fs.crashes;
    status := AppendAll(writer, entries);
    ConfinedChain(old(fs.files), old(fs.crashes), disk, crashes, fs.files, fs.crashes, path);
    if !status.OK? {
      return;
    }
    WrittenInOrder(writer.Tracked(), fs.files[path], entries, writer.shape);
    ghost var disk1, crashes1 := fs.files, fs.crashes;
    status := writer.Finish();
    ConfinedChain(old(fs.files), old(fs.crashes), disk1, crashes1, fs.files, fs.crashes, path);
  }

  /** Appends the entries to a new table until one is refused. */
  method AppendAll(writer: SSTableWriter, entries: seq<Entry>) returns (status: Status)
    requires writer.Valid() && writer.isOpen && writer.written == [] && writer.recordCount == 0 && writer.lastKey == []
    requires writer.options.sparseInterval > 0 && |entries| < U32 && forall e :: e in entries ==> Encodable(e)
    modifies writer, writer.index, writer.bloom, writer.fs`files, writer.fs`crashes
    ensures status.OK? || status.Corruption?
    ensures Sorted(entries) ==> status.OK?
    ensures writer.Valid() && writer.isOpen && writer.path == old(writer.path) && writer.shape == old(writer.shape)
    ensures status.OK? ==> writer.written == Stored(entries)
    ensures Confined(old(writer.fs.files), old(writer.fs.crashes), writer.fs.files, writer.fs.crashes, writer.path)
  {
    hide Confined, Tracks, AcceptedOrder, Less, StoredValue;
    ghost var records := Stored(entries);
    ghost var disk0, crashes0 := writer.fs.files, writer.fs.crashes;
    ConfinedNothing(disk0, crashes0, writer.path);
    for i := 0 to |entries|
      invariant writer.Valid() && writer.isOpen && writer.path == old(writer.path) && writer.written == records[..i]
      invariant writer.shape == old(writer.shape) && writer.bloom == old(writer.bloom)
      invariant writer.recordCount == i && writer.lastKey == (if i == 0 then [] else entries[i - 1].key)
      invariant Confined(disk0, crashes0, writer.fs.files, writer.fs.crashes, writer.path)
    {
      ghost var disk, crashes := writer.fs.files, writer.fs.crashes;
      if Sorted(entries) && i > 0 {
        LessAsymmetric(entries[i - 1].key, entries[i].key);
      }
      assert entries[i] in entries;
      status := writer.Append(entries[i].key, entries[i].value, entries[i].kind);
      ConfinedChain(disk0, crashes0, disk, crashes, writer.fs.files, writer.fs.crashes, writer.path);
      if !status.OK? {
        return;
      }
      assert records[..i + 1] == records[..i] + [records[i]];
    }
    assert records[..|entries|] == records;
    status := OK;
  }

  lemma WrittenInOrder(p: Progress, file: Bytes, es: seq<Entry>, shape: Shape)
    requires Tracks(p, file, Stored(es), shape)
    ensures AcceptedOrder(es)
  {
    StoredOrder(es);
  }

  lemma StoredOrder(es: seq<Entry>)
    ensures AcceptedOrder(Stored(es)) <==> AcceptedOrder(es)
    ensures Sorted(Stored(es)) <==> Sorted(es)
  {
    assert forall i :: 0 <= i < |es| ==> Stored(es)[i].key == es[i].key;
  }
}
