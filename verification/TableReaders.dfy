/** Reading a table file back: opening it with every check, point look-ups, full scans. */
module TableReaders {
  import opened Bytes
  import opened Crc
  import opened Entries
  import opened Records
  import opened SparseIndexes
  import opened Blooms
  import opened TableFormat
  import opened Damage
  import opened Storage

  /** What is left of a stream from a position on. */
  function Rest(content: Bytes, at: nat): (rest: Bytes)
  {
    if at <= |content| then content[at..] else []
  }

  /** The stream holds a whole record with the right checksum. */
  predicate WholeRecord(s: Bytes)
  {
    |s| >= HEADER_SIZE && |s| >= BodySize(s) + CRC_SIZE && FrontIntact(s)
  }

  // ---------- opening ----------

  method DeserializeFooter(data: Bytes) returns (ok: bool, footer: Footer)
    ensures ok == (|data| == FOOTER_SIZE && FromLe(data[56..64]) == FOOTER_MAGIC)
    ensures ok ==> footer == ParseFooter(data)
  {
    footer := Footer(0, 0, 0, 0, 0, 0, 0, 0);
    if |data| != FOOTER_SIZE {
      return false, footer;
    }
    var magic := FromLe(data[56..64]);
    if magic != FOOTER_MAGIC {
      return false, footer;
    }
    footer := footer.(dataOffset := FromLe(data[0..8]), dataSize := FromLe(data[8..16]));
    footer := footer.(indexOffset := FromLe(data[16..24]), indexSize := FromLe(data[24..32]));
    footer := footer.(bloomOffset := FromLe(data[32..40]), bloomSize := FromLe(data[40..48]));
    footer := footer.(recordCount := FromLe(data[48..52]), flags := FromLe(data[52..56]));
    ok := true;
  }

  /** Header, footer and offsets of a table file, and the sections that they point to. */
  method ReadFrame(content: Bytes) returns (ok: bool, footer: Footer)
    ensures LoadTable(content) == if ok then LoadSections(content, footer) else BadTable
  {
    hide FromLe, LoadSections, ParseFooter;
    ok, footer := false, Footer(0, 0, 0, 0, 0, 0, 0, 0);
    if |content| < TABLE_HEADER_SIZE + FOOTER_SIZE {
      return;
    }
    var header := Take(content, 0, TABLE_HEADER_SIZE);
    assert header[0..8] == content[0..8] && header[8..12] == content[8..12];
    var magic := FromLe(header[0..8]);
    if magic != HEADER_MAGIC {
      return;
    }
    var version := FromLe(header[8..12]);
    if version != VERSION {
      return;
    }
    var tail := Take(content, |content| - FOOTER_SIZE, FOOTER_SIZE);
    assert tail == content[|content| - FOOTER_SIZE..];
    var valid;
    valid, footer := DeserializeFooter(tail);
    if !valid {
      return;
    }
    ok := !(footer.dataOffset != TABLE_HEADER_SIZE
            || (footer.dataOffset + footer.dataSize) % U64 != footer.indexOffset
            || (footer.indexOffset + footer.indexSize) % U64 != footer.bloomOffset
            || (footer.bloomOffset + footer.bloomSize) % U64 != |content| - FOOTER_SIZE);
  }

  method DeserializeBloom(data: Bytes) returns (parsed: Parsed)
    ensures parsed == ParseBloom(data)
  {
    if |data| < 8 {
      return Invalid;
    }
    var hashes := FromLe(data[..4]);
    var byteCount := FromLe(data[4..8]);
    if |data| < (8 + byteCount) % U32 {
      return Invalid;
    }
    if |data| < 8 + byteCount {
      return Invalid;
    }
    return Filter(data[8..8 + byteCount], hashes);
  }

  method ReadBloom(block: Bytes) returns (parsed: Parsed)
    ensures parsed == LoadBloom(block)
  {
    hide FromLe, Crc32, ParseBloom;
    if |block| < 4 {
      return Invalid;
    }
    var n := |block| - 4;
    var expected := FromLe(block[n..]);
    var actual := Checksum(block[..n]);
    if expected != actual {
      return Invalid;
    }
    parsed := DeserializeBloom(block[..n]);
  }

  // ---------- full scans ----------

  /** A string of n zero bytes, with as much read into it as the stream still holds. */
  function Padded(taken: Bytes, n: nat): Bytes
  {
    if |taken| >= n then taken else taken + seq(n - |taken|, _ => 0)
  }

  /** The record at the k-th offset of an intact file. */
  lemma RecordAt(file: Bytes, es: seq<Entry>, k: nat)
    requires IsTable(file, es) && k < |es|
    ensures Offset(es, k) < |file|
    ensures var s := file[Offset(es, k)..];
            && WholeRecord(s)
            && s[0] == KindCode(es[k].kind)
            && FrontKey(s) == es[k].key && FrontValue(s) == es[k].value
            && Offset(es, k) + BodySize(s) + CRC_SIZE == Offset(es, k + 1)
  {
    hide Le, FromLe, Crc32, Encode, EncodeAll, TableBytes, FrontIntact, FrontKey, FrontValue, BodySize;
    var e := es[k];
    var p :| Fits(es, p) && file == TableBytes(es, p);
    var rest := DataTail(es, p, k, k + 1);
    assert es[k..k + 1] == [e];
    EncodeAllOne(e);
    assert e in es;
    FrontOfEncoded(e, rest);
    FrontSize(e, rest);
    assert es[..k + 1] == es[..k] + [e];
    EncodeAllConcat(es[..k], [e]);
  }

  lemma DataEnd(file: Bytes, es: seq<Entry>, footer: Footer, index: seq<IndexEntry>, bits: Bytes, hashes: nat)
    requires IsTable(file, es) && LoadTable(file) == Loaded(footer, index, bits, hashes)
    ensures footer.dataOffset == TABLE_HEADER_SIZE == Offset(es, 0)
    ensures (footer.dataOffset + footer.dataSize) % U64 == Offset(es, |es|) <= |file|
  {
    hide LoadTable, EncodeAll, TableBytes;
    var p :| Fits(es, p) && file == TableBytes(es, p);
    DataSection(es, p);
    OffsetZero(es);
    assert es[..|es|] == es;
  }

  lemma {:induction false} OffsetsGrow(es: seq<Entry>, i: nat, j: nat)
    requires i < j <= |es|
    ensures Offset(es, i) < Offset(es, j)
  {
    hide Encode;
    assert es[..j] == es[..i] + es[i..j];
    EncodeAllConcat(es[..i], es[i..j]);
    assert es[i..j][0] == es[i];
    assert EncodeAll(es[i..j]) == Encode(es[i]) + EncodeAll(es[i..j][1..]);
  }

  // ---------- look-ups ----------

  /** What a reader holds that was opened on an intact file. */
  lemma LoadedFacts(file: Bytes, es: seq<Entry>, footer: Footer, index: seq<IndexEntry>, bits: Bytes, hashes: nat)
    returns (p: Shape)
    requires IsTable(file, es) && LoadTable(file) == Loaded(footer, index, bits, hashes)
    ensures Fits(es, p) && file == TableBytes(es, p)
    ensures index == SparseOf(es, p.interval) && bits == FilterBits(es, p) && hashes == p.hashes
    ensures (footer.dataOffset + footer.dataSize) % U64 == TABLE_HEADER_SIZE + |EncodeAll(es)|
  {
    hide LoadTable, EncodeAll, TableBytes, SparseOf, FilterBits, IndexBlock, Sealed, BloomRaw, Sorted;
    p :| Fits(es, p) && file == TableBytes(es, p);
    WrittenTableLoads(es, p);
    DataSection(es, p);
  }

  lemma FilterServes(file: Bytes, es: seq<Entry>, footer: Footer, index: seq<IndexEntry>, bits: Bytes, hashes: nat, key: Key)
    requires IsTable(file, es) && LoadTable(file) == Loaded(footer, index, bits, hashes)
    requires !MayContain(bits, hashes, key)
    ensures Answer(LayerOf(es), key) == Absent
  {
    hide LoadTable, MayContain, SparseOf, FilterBits, LayerOf, Answer, EncodeAll, Fits, IsTable, TableBytes;
    var p := LoadedFacts(file, es, footer, index, bits, hashes);
    FilterExcludes(es, p, key);
  }

  lemma IndexServes(file: Bytes, es: seq<Entry>, footer: Footer, index: seq<IndexEntry>, bits: Bytes, hashes: nat)
    requires IsTable(file, es) && LoadTable(file) == Loaded(footer, index, bits, hashes)
    ensures SortedIndex(index)
  {
    hide LoadTable, SparseOf, FilterBits, EncodeAll, TableBytes;
    var p := LoadedFacts(file, es, footer, index, bits, hashes);
    SamplesSorted(es, p.interval);
  }

  lemma RangeServes(file: Bytes, es: seq<Entry>, footer: Footer, index: seq<IndexEntry>, bits: Bytes, hashes: nat, key: Key, i: nat)
    requires IsTable(file, es) && LoadTable(file) == Loaded(footer, index, bits, hashes)
    requires IsUpperBound(index, key, i)
    ensures var (start, end) := RangeAt(index, i, (footer.dataOffset + footer.dataSize) % U64);
            ScanBytes(Rest(file, start), end - start, key) == Answered(Answer(LayerOf(es), key))
  {
    hide LoadTable, SparseOf, FilterBits, EncodeAll, TableBytes, ScanBytes, LayerOf, Answer, RangeAt;
    assert i <= |index|;
    hide IsUpperBound;
    var p := LoadedFacts(file, es, footer, index, bits, hashes);
    LookupIsExact(es, p, key, i);
  }

  /** How the outcome of a scan is handed to the caller. */
  predicate Reports(scanned: Scanned, status: Status, answer: Lookup)
  {
    match scanned
    case Answered(a) => answer == a && status == if a.Found? then OK else NotFound
    case Broken => status == Corruption && answer == Absent
  }

  /** One round of the scan. */
  lemma ScanRound(content: Bytes, curr: nat, end: int, key: Key)
    requires curr < end && curr < |content|
    ensures var s := content[curr..];
            ScanBytes(Rest(content, curr), end - curr, key)
            == if !WholeRecord(s) then Broken
               else if FrontKey(s) == key then Answered(if s[0] == KindCode(Tombstone) then Deleted else Found(FrontValue(s)))
               else if Less(key, FrontKey(s)) then Answered(Absent)
               else ScanBytes(Rest(content, curr + BodySize(s) + CRC_SIZE), end - (curr + BodySize(s) + CRC_SIZE), key)
  {
    hide FromLe, FrontIntact, Crc32, FrontKey, FrontValue, Less;
    var s := content[curr..];
    if WholeRecord(s) {
      var size := BodySize(s) + CRC_SIZE;
      assert s[size..] == Rest(content, curr + size);
    }
  }

  lemma ScanEnd(content: Bytes, curr: nat, end: int, key: Key)
    requires curr >= end || curr >= |content|
    ensures ScanBytes(Rest(content, curr), end - curr, key) == Answered(Absent)
  {
  }

  // ---------- damaged files ----------

  /** What a look-up reports about a table of es whose record k is damaged: the true answer, or
      corruption, which it is for the key of that record and is not for the keys up to the record
      before. */
  ghost predicate Honest(es: seq<Entry>, k: nat, key: Key, status: Status, answer: Lookup)
  {
    && k < |es|
    && (status.Corruption? || (answer == Answer(LayerOf(es), key) && status == if answer.Found? then OK else NotFound))
    && (key == es[k].key ==> status.Corruption?)
    && (k > 0 && LessEq(key, es[k - 1].key) ==> !status.Corruption?)
  }

  /** Whichever record of the file is damaged. */
  ghost predicate HonestAbout(file: Bytes, key: Key, status: Status, answer: Lookup)
  {
    forall es, k: nat :: k < |es| && DamagedTable(file, es, k) ==> Honest(es, k, key, status, answer)
  }

  /** A full scan of a damaged file hands back the records before the damage and reports it. */
  ghost predicate StopsAtDamage(file: Bytes, status: Status, records: seq<Entry>)
  {
    forall es, k: nat :: k < |es| && DamagedTable(file, es, k) ==> status.Corruption? && records == es[..k]
  }

  lemma DamagedFilterServes(file: Bytes, es: seq<Entry>, k: nat, footer: Footer, index: seq<IndexEntry>, bits: Bytes,
                            hashes: nat, key: Key)
    requires k < |es| && DamagedTable(file, es, k) && LoadTable(file) == Loaded(footer, index, bits, hashes)
    requires !MayContain(bits, hashes, key)
    ensures Honest(es, k, key, NotFound, Absent)
  {
    hide LoadTable, MayContain, LayerOf, IsTable, TableBytes, DamagedTable, Fits, Less;
    var p, at, n := DamagePlace(file, es, k);
    FilterServes(TableBytes(es, p), es, footer, index, bits, hashes, key);
    LayerOfKeys(es, es[k].key);
  }

  /** Where the index sends a look-up. */
  ghost predicate Ranged(index: seq<IndexEntry>, key: Key, dataEnd: nat, start: nat, end: nat)
  {
    SortedIndex(index) ==> exists i :: IsUpperBound(index, key, i) && (start, end) == RangeAt(index, i, dataEnd)
  }

  lemma DamagedRangeServes(file: Bytes, es: seq<Entry>, k: nat, footer: Footer, index: seq<IndexEntry>, bits: Bytes,
                           hashes: nat, key: Key, start: nat, end: nat, status: Status, answer: Lookup)
    requires k < |es| && DamagedTable(file, es, k) && LoadTable(file) == Loaded(footer, index, bits, hashes)
    requires Ranged(index, key, (footer.dataOffset + footer.dataSize) % U64, start, end)
    requires Reports(ScanBytes(Rest(file, start), end - start, key), status, answer)
    ensures Honest(es, k, key, status, answer)
  {
    hide LoadTable, LayerOf, Answer, IsTable, TableBytes, DamagedTable, Fits, Less, ScanBytes, RangeAt, EncodeAll, DamagedRecord;
    var p, at, n := DamagePlace(file, es, k);
    IndexServes(TableBytes(es, p), es, footer, index, bits, hashes);
    hide SortedIndex;
    var i :| IsUpperBound(index, key, i) && (start, end) == RangeAt(index, i, (footer.dataOffset + footer.dataSize) % U64);
    ServedIndex(TableBytes(es, p), es, p, footer, index, bits, hashes);
    DamagedLookup(file, es, p, k, at, n, key, i);
  }

  lemma FilterIsHonest(file: Bytes, footer: Footer, index: seq<IndexEntry>, bits: Bytes, hashes: nat, key: Key)
    requires LoadTable(file) == Loaded(footer, index, bits, hashes) && !MayContain(bits, hashes, key)
    ensures HonestAbout(file, key, NotFound, Absent)
  {
    hide LoadTable, MayContain, DamagedTable, Honest;
    forall es, k: nat | k < |es| && DamagedTable(file, es, k)
      ensures Honest(es, k, key, NotFound, Absent)
    {
      DamagedFilterServes(file, es, k, footer, index, bits, hashes, key);
    }
  }

  lemma ScanIsHonest(file: Bytes, footer: Footer, index: seq<IndexEntry>, bits: Bytes, hashes: nat, key: Key, start: nat,
                     end: nat, status: Status, answer: Lookup)
    requires LoadTable(file) == Loaded(footer, index, bits, hashes)
    requires Ranged(index, key, (footer.dataOffset + footer.dataSize) % U64, start, end)
    requires Reports(ScanBytes(Rest(file, start), end - start, key), status, answer)
    ensures HonestAbout(file, key, status, answer)
  {
    hide LoadTable, DamagedTable, Honest, Ranged, Reports, ScanBytes;
    forall es, k: nat | k < |es| && DamagedTable(file, es, k)
      ensures Honest(es, k, key, status, answer)
    {
      DamagedRangeServes(file, es, k, footer, index, bits, hashes, key, start, end, status, answer);
    }
  }

  /** The shape of a table gives its index and the end of its data. */
  lemma ServedIndex(file: Bytes, es: seq<Entry>, p: Shape, footer: Footer, index: seq<IndexEntry>, bits: Bytes, hashes: nat)
    requires Fits(es, p) && file == TableBytes(es, p) && LoadTable(file) == Loaded(footer, index, bits, hashes)
    ensures index == SparseOf(es, p.interval)
    ensures footer.dataOffset == TABLE_HEADER_SIZE && (footer.dataOffset + footer.dataSize) % U64 == 16 + |EncodeAll(es)|
  {
    hide LoadTable, EncodeAll, TableBytes, SparseOf, FilterBits, IndexBlock, Sealed, BloomRaw;
    WrittenTableLoads(es, p);
    DataSection(es, p);
  }

  /** A full scan of a table of es whose record k is damaged has read these records so far. */
  ghost predicate ReadUpTo(es: seq<Entry>, k: nat, records: seq<Entry>, curr: nat)
  {
    |records| <= k < |es| && records == es[..|records|] && curr == Offset(es, |records|)
  }

  lemma DamagedStart(file: Bytes, es: seq<Entry>, k: nat, footer: Footer, index: seq<IndexEntry>, bits: Bytes, hashes: nat)
    requires k < |es| && DamagedTable(file, es, k) && LoadTable(file) == Loaded(footer, index, bits, hashes)
    ensures (footer.dataOffset + footer.dataSize) % U64 == 16 + |EncodeAll(es)|
    ensures ReadUpTo(es, k, [], footer.dataOffset)
  {
    hide LoadTable, IsTable, TableBytes, DamagedTable, Fits, EncodeAll, DamagedRecord, Offset;
    var p, at, n := DamagePlace(file, es, k);
    ServedIndex(TableBytes(es, p), es, p, footer, index, bits, hashes);
    OffsetZero(es);
  }

  lemma DamagedStep(file: Bytes, es: seq<Entry>, k: nat, records: seq<Entry>, curr: nat, found: bool, record: Entry, size: nat)
    requires k < |es| && DamagedTable(file, es, k) && ReadUpTo(es, k, records, curr) && curr < |file|
    requires var s := file[curr..];
      && (WholeRecord(s) ==>
            && found && size == BodySize(s) + CRC_SIZE
            && record == Entry(FrontKey(s), FrontValue(s), if s[0] == KindCode(Tombstone) then Tombstone else Put))
      && (|s| >= HEADER_SIZE && |s| >= BodySize(s) + CRC_SIZE && !FrontIntact(s) ==> !found)
    ensures if found then ReadUpTo(es, k, records + [record], curr + size) else records == es[..k]
  {
    hide DamagedTable, FromLe, FrontKey, FrontValue, FrontIntact, Offset;
    var j := |records|;
    if j < k {
      ReadBefore(file, es, k, j);
      assert es[..j + 1] == es[..j] + [es[j]];
    } else {
      ReadBroken(file, es, k);
    }
  }

  /** A full scan does not get past the damaged record. */
  lemma DamagedNotPassed(file: Bytes, es: seq<Entry>, k: nat, records: seq<Entry>, curr: nat)
    requires k < |es| && DamagedTable(file, es, k) && ReadUpTo(es, k, records, curr)
    ensures curr < 16 + |EncodeAll(es)| && curr < |file|
  {
    hide DamagedTable, FrontBroken, EncodeAll, Offset;
    ReadBroken(file, es, k);
    if |records| < k {
      OffsetsGrow(es, |records|, k);
    }
  }

  ghost predicate Reading(file: Bytes, records: seq<Entry>, curr: nat, end: nat)
  {
    forall es, k: nat :: k < |es| && DamagedTable(file, es, k) ==> end == 16 + |EncodeAll(es)| && ReadUpTo(es, k, records, curr)
  }

  lemma ReadingStarts(file: Bytes, footer: Footer, index: seq<IndexEntry>, bits: Bytes, hashes: nat)
    requires LoadTable(file) == Loaded(footer, index, bits, hashes)
    ensures Reading(file, [], footer.dataOffset, (footer.dataOffset + footer.dataSize) % U64)
  {
    hide LoadTable, DamagedTable, EncodeAll, ReadUpTo;
    forall es, k: nat | k < |es| && DamagedTable(file, es, k)
      ensures (footer.dataOffset + footer.dataSize) % U64 == 16 + |EncodeAll(es)| && ReadUpTo(es, k, [], footer.dataOffset)
    {
      DamagedStart(file, es, k, footer, index, bits, hashes);
    }
  }

  lemma ReadingGoesOn(file: Bytes, records: seq<Entry>, curr: nat, end: nat, found: bool, record: Entry, size: nat)
    requires Reading(file, records, curr, end) && curr < |file|
    requires var s := file[curr..];
      && (WholeRecord(s) ==>
            && found && size == BodySize(s) + CRC_SIZE
            && record == Entry(FrontKey(s), FrontValue(s), if s[0] == KindCode(Tombstone) then Tombstone else Put))
      && (|s| >= HEADER_SIZE && |s| >= BodySize(s) + CRC_SIZE && !FrontIntact(s) ==> !found)
    ensures if found then Reading(file, records + [record], curr + size, end) else StopsAtDamage(file, Corruption, records)
  {
    hide DamagedTable, EncodeAll, ReadUpTo, FromLe, FrontKey, FrontValue, FrontIntact;
    forall es, k: nat | k < |es| && DamagedTable(file, es, k)
      ensures if found then ReadUpTo(es, k, records + [record], curr + size) else records == es[..k]
    {
      DamagedStep(file, es, k, records, curr, found, record, size);
    }
  }

  lemma ReadingEnds(file: Bytes, records: seq<Entry>, curr: nat, end: nat)
    requires Reading(file, records, curr, end) && (curr >= end || curr >= |file|)
    ensures StopsAtDamage(file, OK, records)
  {
    hide DamagedTable, EncodeAll, ReadUpTo;
    forall es, k: nat | k < |es| && DamagedTable(file, es, k)
      ensures false
    {
      DamagedNotPassed(file, es, k, records, curr);
    }
  }

  /** The filter tells that the key has not been added. */
  ghost predicate Excluded(bits: Bytes, hashes: nat, key: Key)
  {
    AddKey(bits, hashes, key) != bits
  }

  class SSTableReader {
    const fs: FileSystem
    var path: Name
    var isOpen: bool
    var useBloom: bool
    var footer: Footer
    var index: seq<IndexEntry>
    var bits: Bytes
    var hashes: nat

    /** The reader holds what opening its file loads. */
    ghost predicate Holds(disk: Disk)
      reads this
    {
      isOpen && path in disk && LoadTable(disk[path]) == Loaded(footer, index, bits, hashes)
    }

    /** The reader was opened on an intact file. */
    ghost predicate Serves(disk: Disk)
      reads this
    {
      Holds(disk) && Intact(disk[path])
    }

    constructor (fs: FileSystem)
      ensures this.fs == fs && !isOpen
    {
      this.fs := fs;
      path := "";
      isOpen := false;
      useBloom := true;
      footer := Footer(0, 0, 0, 0, 0, 0, 0, 0);
      index, bits, hashes := [], [], 0;
    }

    method Close()
      modifies this`isOpen
      ensures !isOpen
    {
      isOpen := false;
    }

    /** Opens a file if it can be read and passes every check. */
    method Open(path: Name, useBloom: bool) returns (status: Status)
      modifies this, fs`failures
      ensures this.path == path && this.useBloom == useBloom && isOpen == status.OK?
      ensures status.OK? ==> Holds(fs.files)
      ensures !status.OK? ==> status.IOError? || (status.Corruption? && path in fs.files && LoadTable(fs.files[path]).BadTable?)
      ensures fs.failures == if status.IOError? && path in fs.files then old(fs.failures) + 1 else old(fs.failures)
    {
      hide LoadTable, ParseIndex, LoadBloom, FromLe;
      Close();
      this.path := path;
      this.useBloom := useBloom;
      var ok, content := fs.Read(path);
      if !ok {
        return IOError;
      }
      ok, footer := ReadFrame(content);
      if !ok {
        return Corruption;
      }
      var indexBlock := Take(content, footer.indexOffset, footer.indexSize);
      if |indexBlock| < footer.indexSize {
        return Corruption;
      }
      var parsedIndex := DeserializeIndex(indexBlock);
      if parsedIndex.BadIndex? {
        return Corruption;
      }
      index := parsedIndex.entries;
      var bloomBlock := Take(content, footer.bloomOffset, footer.bloomSize);
      if |bloomBlock| < footer.bloomSize {
        return Corruption;
      }
      var parsedBloom := ReadBloom(bloomBlock);
      if parsedBloom.Invalid? {
        return Corruption;
      }
      bits, hashes := parsedBloom.bits, parsedBloom.hashes;
      isOpen := true;
      status := OK;
    }

    /** Point look-up: filter, index, scan. On an intact file the answer is that of searching
        the whole record list, unless the file cannot be read. */
    method Get(key: Key) returns (status: Status, answer: Lookup)
      modifies fs`failures
      ensures status.OK? <==> answer.Found?
      ensures !isOpen ==> status.IOError?
      ensures fs.failures == if status.IOError? && isOpen && path in fs.files then old(fs.failures) + 1 else old(fs.failures)
      ensures status.IOError? || status.Corruption? ==> answer.Absent?
      ensures Serves(fs.files) && !status.IOError? ==>
        answer == Answer(LayerOf(Contents(fs.files[path])), key) && (status.OK? || status.NotFound?)
      ensures Holds(fs.files) && !status.IOError? ==> HonestAbout(fs.files[path], key, status, answer)
      ensures isOpen && useBloom && Excluded(bits, hashes, key) ==> status.NotFound? && answer.Absent?
    {
      hide LoadTable, MayContain, RangeAt, SortedIndex, ScanBytes, LayerOf, Answer, IsTable, HonestAbout, AddKey;
      if !isOpen {
        return IOError, Absent;
      }
      ghost var serves := Serves(fs.files);
      ghost var file := if serves then fs.files[path] else [];
      if useBloom {
        var possible := PossiblyContains(bits, hashes, key);
        if !possible {
          if serves {
            FilterServes(file, Contents(file), footer, index, bits, hashes, key);
          }
          if Holds(fs.files) {
            FilterIsHonest(fs.files[path], footer, index, bits, hashes, key);
          }
          return NotFound, Absent;
        }
      }
      if serves {
        IndexServes(file, Contents(file), footer, index, bits, hashes);
      }
      var start, end := FindOffsetRange(index, key, (footer.dataOffset + footer.dataSize) % U64);
      if serves {
        var i :| IsUpperBound(index, key, i) && (start, end) == RangeAt(index, i, (footer.dataOffset + footer.dataSize) % U64);
        RangeServes(file, Contents(file), footer, index, bits, hashes, key, i);
      }
      status, answer := ScanRange(start, end, key);
      if Holds(fs.files) && !status.IOError? {
        ScanIsHonest(fs.files[path], footer, index, bits, hashes, key, start, end, status, answer);
      }
    }

    /** Reads records from start on until the key is found or passed or end is reached. */
    method ScanRange(start: nat, end: nat, key: Key) returns (status: Status, answer: Lookup)
      modifies fs`failures
      ensures status.IOError? ==> answer.Absent?
      ensures fs.failures == if status.IOError? && path in fs.files then old(fs.failures) + 1 else old(fs.failures)
      ensures !status.IOError? ==> path in fs.files
      ensures !status.IOError? ==> Reports(ScanBytes(Rest(fs.files[path], start), end - start, key), status, answer)
    {
      hide FromLe, FrontKey, FrontValue, Less, ScanBytes, WholeRecord, BodySize;
      var ok, content := fs.Read(path);
      if !ok {
        return IOError, Absent;
      }
      var curr := start;
      while curr < end && curr < |content|
        invariant fs.failures == old(fs.failures)
        invariant ScanBytes(Rest(content, curr), end - curr, key) == ScanBytes(Rest(content, start), end - start, key)
        decreases |content| - curr
      {
        ScanRound(content, curr, end, key);
        var found, record, size := ReadRecordAt(content, curr);
        if !found {
          return Corruption, Absent;
        }
        if record.key == key {
          if record.kind.Tombstone? {
            return NotFound, Deleted;
          }
          return OK, Found(record.value);
        }
        if Less(key, record.key) {
          return NotFound, Absent;
        }
        curr := curr + size;
      }
      ScanEnd(content, curr, end, key);
      return NotFound, Absent;
    }

    /** Hands back every record of the table. */
    method ReadAllRecords() returns (status: Status, records: seq<Entry>)
      modifies fs`failures
      ensures !isOpen ==> status.IOError?
      ensures fs.failures == if status.IOError? && isOpen && path in fs.files then old(fs.failures) + 1 else old(fs.failures)
      ensures Serves(fs.files) && !status.IOError? ==> status.OK? && records == Contents(fs.files[path])
      ensures Holds(fs.files) && !status.IOError? ==> StopsAtDamage(fs.files[path], status, records)
    {
      hide LoadTable, IsTable, Offset, FromLe, FrontIntact, Intact, StopsAtDamage, Reading, WholeRecord;
      records := [];
      if !isOpen {
        return IOError, records;
      }
      var ok, content := fs.Read(path);
      if !ok {
        return IOError, records;
      }
      var curr := footer.dataOffset;
      var end := (footer.dataOffset + footer.dataSize) % U64;
      ghost var serves := Serves(fs.files);
      ghost var es := if serves then Contents(content) else [];
      if serves {
        DataEnd(content, es, footer, index, bits, hashes);
        assert es[..0] == [];
      }
      ghost var held := Holds(fs.files);
      if held {
        ReadingStarts(content, footer, index, bits, hashes);
      }
      while curr < end && curr < |content|
        invariant fs.failures == old(fs.failures)
        invariant serves ==> |records| <= |es| && curr == Offset(es, |records|) && records == es[..|records|]
        invariant held ==> Reading(content, records, curr, end)
        decreases |content| - curr
      {
        if serves {
          InsideData(es, |records|);
          RecordAt(content, es, |records|);
        }
        var found, record, size := ReadUnchecked(content, curr);
        if held {
          ReadingGoesOn(content, records, curr, end, found, record, size);
        }
        if !found {
          return Corruption, records;
        }
        assert serves ==> es[..|records| + 1] == es[..|records|] + [record];
        records := records + [record];
        curr := curr + size;
      }
      if serves {
        AllRead(es, |records|);
        assert es[..|es|] == es;
      }
      if held {
        ReadingEnds(content, records, curr, end);
      }
      status := OK;
    }
  }

  /** Reads the record at a stream position without checking the length of what is read: bytes
      that the file does not hold stay zero, or arbitrary in the checksum. */
  method ReadUnchecked(content: Bytes, at: nat) returns (ok: bool, record: Entry, size: nat)
    requires at < |content|
    ensures size > 0
    ensures var s := content[at..];
      WholeRecord(s) ==>
        && ok && size == BodySize(s) + CRC_SIZE
        && record == Entry(FrontKey(s), FrontValue(s), if s[0] == KindCode(Tombstone) then Tombstone else Put)
    ensures var s := content[at..];
      |s| >= HEADER_SIZE && |s| >= BodySize(s) + CRC_SIZE && !FrontIntact(s) ==> !ok
  {
    hide FromLe, Crc32;
    ghost var s := content[at..];
    ok, record, size := false, Entry([], [], Put), 1;
    var header := Take(content, at, HEADER_SIZE);
    if |header| < HEADER_SIZE {
      return;
    }
    assert header == s[..HEADER_SIZE];
    assert header[1..5] == s[1..5] && header[5..9] == s[5..9];
    var keyLength := FromLe(header[1..5]);
    var valueLength := FromLe(header[5..9]);
    var key := Padded(Take(content, at + HEADER_SIZE, keyLength), keyLength);
    var value := Padded(Take(content, at + HEADER_SIZE + keyLength, valueLength), valueLength);
    var crc := Take(content, at + HEADER_SIZE + keyLength + valueLength, CRC_SIZE);
    if |s| >= BodySize(s) + CRC_SIZE {
      TakeRecord(content, at);
    }
    var expected: int := *;
    if |crc| == CRC_SIZE {
      expected := FromLe(crc);
    }
    var actual := Checksum(header + key + value);
    ok := actual == expected;
    size := HEADER_SIZE + keyLength + valueLength + CRC_SIZE;
    record := Entry(key, value, if header[0] == KindCode(Tombstone) then Tombstone else Put);
  }

  lemma InsideData(es: seq<Entry>, k: nat)
    requires k <= |es| && Offset(es, k) < Offset(es, |es|)
    ensures k < |es|
  {
  }

  lemma AllRead(es: seq<Entry>, k: nat)
    requires k <= |es| && Offset(es, k) >= Offset(es, |es|)
    ensures k == |es|
  {
    hide Offset;
    if k < |es| {
      OffsetsGrow(es, k, |es|);
    }
  }

  /** Reads the record at a stream position and checks its checksum. */
  method ReadRecordAt(content: Bytes, at: nat) returns (ok: bool, record: Entry, size: nat)
    requires at < |content|
    ensures var s := content[at..];
      && ok == WholeRecord(s)
      && (ok ==>
          && size == BodySize(s) + CRC_SIZE
          && record == Entry(FrontKey(s), FrontValue(s), if s[0] == KindCode(Tombstone) then Tombstone else Put))
  {
    hide FromLe, Crc32;
    ghost var s := content[at..];
    ok, record, size := false, Entry([], [], Put), 0;
    var header := Take(content, at, HEADER_SIZE);
    if |header| < HEADER_SIZE {
      return;
    }
    assert header == s[..HEADER_SIZE];
    assert header[1..5] == s[1..5] && header[5..9] == s[5..9];
    var keyLength := FromLe(header[1..5]);
    var valueLength := FromLe(header[5..9]);
    var key := Take(content, at + HEADER_SIZE, keyLength);
    if |key| < keyLength {
      return;
    }
    var value := Take(content, at + HEADER_SIZE + keyLength, valueLength);
    if |value| < valueLength {
      return;
    }
    var crc := Take(content, at + HEADER_SIZE + keyLength + valueLength, CRC_SIZE);
    if |crc| < CRC_SIZE {
      return;
    }
    TakeRecord(content, at);
    var expected := FromLe(crc);
    var actual := Checksum(header + key + value);
    ok := actual == expected;
    size := HEADER_SIZE + keyLength + valueLength + CRC_SIZE;
    record := Entry(key, value, if header[0] == KindCode(Tombstone) then Tombstone else Put);
  }
}
