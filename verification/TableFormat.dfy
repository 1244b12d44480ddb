/** The table file: header, records, sparse index, Bloom filter, footer. What a writer puts
    there, the checks that a reader makes, and the answers that it reads back. */
module TableFormat {
  import opened Bytes
  import opened Crc
  import opened Entries
  import opened Records
  import opened SparseIndexes
  import opened Blooms

  const HEADER_MAGIC: nat := 0x4C53_4D54_5245_4531
  const FOOTER_MAGIC: nat := 0x4C53_4D53_5354_4654
  const VERSION: nat := 1
  const FOOTER_SIZE: nat := 64

  datatype Footer = Footer(
    dataOffset: nat, dataSize: nat,
    indexOffset: nat, indexSize: nat,
    bloomOffset: nat, bloomSize: nat,
    recordCount: nat, flags: nat)

  predicate Narrow(f: Footer)
  {
    && f.dataOffset < U64 && f.dataSize < U64 && f.indexOffset < U64 && f.indexSize < U64
    && f.bloomOffset < U64 && f.bloomSize < U64 && f.recordCount < U32 && f.flags < U32
  }

  function FooterBytes(f: Footer): (b: Bytes)
    ensures |b| == FOOTER_SIZE
  {
    Le(f.dataOffset, 8) + Le(f.dataSize, 8) + Le(f.indexOffset, 8) + Le(f.indexSize, 8)
    + Le(f.bloomOffset, 8) + Le(f.bloomSize, 8) + Le(f.recordCount, 4) + Le(f.flags, 4)
    + Le(FOOTER_MAGIC, 8)
  }

  function ParseFooter(b: Bytes): Footer
    requires |b| == FOOTER_SIZE
  {
    Footer(FromLe(b[0..8]), FromLe(b[8..16]), FromLe(b[16..24]), FromLe(b[24..32]),
           FromLe(b[32..40]), FromLe(b[40..48]), FromLe(b[48..52]), FromLe(b[52..56]))
  }

  lemma FooterRoundTrip(f: Footer)
    requires Narrow(f)
    ensures ParseFooter(FooterBytes(f)) == f && FromLe(FooterBytes(f)[56..64]) == FOOTER_MAGIC
  {
    hide Le, FromLe;
    var b := FooterBytes(f);
    assert b[0..8] == Le(f.dataOffset, 8);
    assert b[8..16] == Le(f.dataSize, 8);
    assert b[16..24] == Le(f.indexOffset, 8);
    assert b[24..32] == Le(f.indexSize, 8);
    assert b[32..40] == Le(f.bloomOffset, 8);
    var last := Le(f.recordCount, 4) + Le(f.flags, 4) + Le(FOOTER_MAGIC, 8);
    assert b[48..] == last;
    assert b[40..48] == Le(f.bloomSize, 8);
    assert b[48..52] == last[0..4] == Le(f.recordCount, 4);
    assert b[52..56] == last[4..8] == Le(f.flags, 4);
    assert b[56..64] == last[8..16] == Le(FOOTER_MAGIC, 8);
    Le64(f.dataOffset);
    Le64(f.dataSize);
    Le64(f.indexOffset);
    Le64(f.indexSize);
    Le64(f.bloomOffset);
    Le64(f.bloomSize);
    Le32(f.recordCount);
    Le32(f.flags);
    Le64(FOOTER_MAGIC);
  }

  // ---------- the file of a sequence of records ----------

  /** What shapes a table file besides its records. */
  datatype Shape = Shape(interval: nat, capacity: nat, bitsPerKey: nat, hashes: nat)

  function KeysOf(es: seq<Entry>): (keys: seq<Key>)
    ensures |keys| == |es|
  {
    seq(|es|, i requires 0 <= i < |es| => es[i].key)
  }

  function TableHeader(): (h: Bytes)
    ensures |h| == TABLE_HEADER_SIZE
  {
    Le(HEADER_MAGIC, 8) + Le(VERSION, 4) + Le(0, 4)
  }

  function FilterBits(es: seq<Entry>, p: Shape): Bytes
  {
    AddKeys(EmptyBits(ByteCount(p.capacity, p.bitsPerKey)), p.hashes, KeysOf(es))
  }

  /** A block followed by its checksum. */
  function Sealed(block: Bytes): Bytes
  {
    block + Le(Crc32(block), 4)
  }

  function FooterOf(dataSize: nat, indexSize: nat, bloomSize: nat, records: nat): Footer
  {
    Footer(TABLE_HEADER_SIZE, dataSize,
           TABLE_HEADER_SIZE + dataSize, indexSize,
           TABLE_HEADER_SIZE + dataSize + indexSize, bloomSize,
           records, 0)
  }

  /** A file assembled from its sections. */
  function Assemble(data: Bytes, index: Bytes, bloom: Bytes, records: nat): Bytes
  {
    TableHeader() + data + index + bloom + FooterBytes(FooterOf(|data|, |index|, |bloom|, records))
  }

  function TableBytes(es: seq<Entry>, p: Shape): Bytes
    requires p.interval > 0
  {
    Assemble(EncodeAll(es), IndexBlock(SparseOf(es, p.interval)), Sealed(BloomRaw(FilterBits(es, p), p.hashes)), |es|)
  }

  /** Every length and offset of the file fits its field. */
  ghost predicate Fits(es: seq<Entry>, p: Shape)
  {
    && p.interval > 0 && p.hashes < U32 && ByteCount(p.capacity, p.bitsPerKey) < U32
    && |es| < U32 && (forall e :: e in es ==> Encodable(e) && Canonical(e))
    && |TableBytes(es, p)| < U64
  }

  /** A file that a writer produces for the sorted records es. */
  ghost predicate IsTable(file: Bytes, es: seq<Entry>)
  {
    Sorted(es) && exists p :: Fits(es, p) && file == TableBytes(es, p)
  }

  // ---------- opening a file ----------

  datatype Loaded = Loaded(footer: Footer, index: seq<IndexEntry>, bits: Bytes, hashes: nat) | BadTable

  /** The four offsets tile the file between header and footer, in 64-bit arithmetic. */
  predicate Tiles(f: Footer, fileSize: nat)
    requires fileSize >= FOOTER_SIZE
  {
    && f.dataOffset == TABLE_HEADER_SIZE
    && (f.dataOffset + f.dataSize) % U64 == f.indexOffset
    && (f.indexOffset + f.indexSize) % U64 == f.bloomOffset
    && (f.bloomOffset + f.bloomSize) % U64 == fileSize - FOOTER_SIZE
  }

  function LoadBloom(block: Bytes): Parsed
  {
    if |block| < 4 then Invalid
    else if FromLe(block[|block| - 4..]) != Crc32(block[..|block| - 4]) then Invalid
    else ParseBloom(block[..|block| - 4])
  }

  /** Everything that opening a table checks, in the order of the engine. */
  function LoadTable(file: Bytes): Loaded
  {
    if |file| < TABLE_HEADER_SIZE + FOOTER_SIZE then BadTable
    else if FromLe(file[0..8]) != HEADER_MAGIC then BadTable
    else if FromLe(file[8..12]) != VERSION then BadTable
    else
      var tail := file[|file| - FOOTER_SIZE..];
      if FromLe(tail[56..64]) != FOOTER_MAGIC then BadTable
      else
        var f := ParseFooter(tail);
        if !Tiles(f, |file|) then BadTable else LoadSections(file, f)
  }

  function LoadSections(file: Bytes, f: Footer): Loaded
  {
    var indexBlock := Take(file, f.indexOffset, f.indexSize);
    if |indexBlock| < f.indexSize then BadTable
    else
      match ParseIndex(indexBlock)
      case BadIndex => BadTable
      case Index(index) =>
        var bloomBlock := Take(file, f.bloomOffset, f.bloomSize);
        if |bloomBlock| < f.bloomSize then BadTable
        else
          match LoadBloom(bloomBlock)
          case Invalid => BadTable
          case Filter(bits, hashes) => Loaded(f, index, bits, hashes)
  }

  lemma SealedLoads(block: Bytes)
    ensures LoadBloom(Sealed(block)) == ParseBloom(block)
  {
    hide Le, FromLe, Crc32, ParseBloom;
    var s := Sealed(block);
    assert s[..|s| - 4] == block && s[|s| - 4..] == Le(Crc32(block), 4);
    Crc32Bound(block);
    Le32(Crc32(block));
  }

  lemma SectionOf(before: Bytes, s: Bytes, after: Bytes)
    ensures Take(before + s + after, |before|, |s|) == s
  {
  }

  lemma AssembledSections(data: Bytes, index: Bytes, bloom: Bytes, records: nat)
    ensures var file := Assemble(data, index, bloom, records);
            var f := FooterOf(|data|, |index|, |bloom|, records);
            && file[..TABLE_HEADER_SIZE] == TableHeader()
            && file[TABLE_HEADER_SIZE..f.indexOffset] == data
            && Take(file, f.indexOffset, |index|) == index
            && Take(file, f.bloomOffset, |bloom|) == bloom
            && |file| - FOOTER_SIZE == f.bloomOffset + |bloom|
            && file[|file| - FOOTER_SIZE..] == FooterBytes(f)
  {
    hide Le;
    var footer := FooterBytes(FooterOf(|data|, |index|, |bloom|, records));
    SectionOf(TableHeader() + data, index, bloom + footer);
    assert (TableHeader() + data) + index + (bloom + footer) == Assemble(data, index, bloom, records);
    SectionOf(TableHeader() + data + index, bloom, footer);
  }

  lemma HeaderChecks(file: Bytes)
    requires |file| >= TABLE_HEADER_SIZE && file[..TABLE_HEADER_SIZE] == TableHeader()
    ensures FromLe(file[0..8]) == HEADER_MAGIC && FromLe(file[8..12]) == VERSION
  {
    hide Le, FromLe;
    assert file[0..8] == file[..TABLE_HEADER_SIZE][0..8] == Le(HEADER_MAGIC, 8);
    assert file[8..12] == file[..TABLE_HEADER_SIZE][8..12] == Le(VERSION, 4);
    Le64(HEADER_MAGIC);
    Le32(VERSION);
  }

  lemma AssembledLoads(data: Bytes, index: Bytes, bloom: Bytes, records: nat)
    requires |Assemble(data, index, bloom, records)| < U64 && records < U32
    ensures var f := FooterOf(|data|, |index|, |bloom|, records);
            LoadTable(Assemble(data, index, bloom, records))
            == match ParseIndex(index)
               case BadIndex => BadTable
               case Index(entries) =>
                 match LoadBloom(bloom)
                 case Invalid => BadTable
                 case Filter(bits, hashes) => Loaded(f, entries, bits, hashes)
  {
    hide Le, FromLe, Crc32, ParseIndex, LoadBloom, Assemble, FooterBytes, ParseFooter;
    var file := Assemble(data, index, bloom, records);
    var f := FooterOf(|data|, |index|, |bloom|, records);
    AssembledSections(data, index, bloom, records);
    HeaderChecks(file);
    FooterRoundTrip(f);
    SumsFit(f, |file|);
  }

  lemma SumsFit(f: Footer, fileSize: nat)
    requires FOOTER_SIZE <= fileSize < U64
    requires f == FooterOf(f.dataSize, f.indexSize, f.bloomSize, f.recordCount)
    requires fileSize - FOOTER_SIZE == f.bloomOffset + f.bloomSize
    ensures Tiles(f, fileSize)
  {
  }

  lemma SparseOfStorable(es: seq<Entry>, interval: nat, bound: nat)
    requires interval > 0 && |es| < U32 && (forall e :: e in es ==> Encodable(e))
    requires TABLE_HEADER_SIZE + |EncodeAll(es)| <= bound < U64
    ensures Storable(SparseOf(es, interval))
  {
    hide SparseOf, Offset, Blocks;
    var index := SparseOf(es, interval);
    IndexShape(es, interval);
    SamplesFewer(es, interval);
    forall x | x in index
      ensures |x.key| < U32 && x.offset < U64
    {
      var k :| 0 <= k < |index| && index[k] == x;
      assert IsSample(es, interval, k, x);
      SampleFits(es, interval, k, x);
    }
  }

  lemma SampleFits(es: seq<Entry>, interval: nat, k: nat, x: IndexEntry)
    requires IsSample(es, interval, k, x) && (forall e :: e in es ==> Encodable(e))
    ensures |x.key| < U32 && x.offset <= TABLE_HEADER_SIZE + |EncodeAll(es)|
  {
    hide Offset, EncodeAll;
    RecordFits(es, k * interval, x);
  }

  lemma RecordFits(es: seq<Entry>, i: nat, x: IndexEntry)
    requires i < |es| && x == IndexEntry(es[i].key, Offset(es, i)) && (forall e :: e in es ==> Encodable(e))
    ensures |x.key| < U32 && x.offset <= TABLE_HEADER_SIZE + |EncodeAll(es)|
  {
    assert es[i] in es;
    OffsetBound(es, i);
  }

  lemma {:induction false} SamplesFewer(es: seq<Entry>, interval: nat)
    requires interval > 0
    ensures |SparseOf(es, interval)| <= |es|
  {
    if es != [] {
      SamplesFewer(es[..|es| - 1], interval);
    }
  }

  lemma OffsetBound(es: seq<Entry>, i: nat)
    requires i <= |es|
    ensures Offset(es, i) <= TABLE_HEADER_SIZE + |EncodeAll(es)|
  {
    assert es == es[..i] + es[i..];
    EncodeAllConcat(es[..i], es[i..]);
  }

  lemma {:induction false} FilterBitsSize(es: seq<Entry>, p: Shape)
    ensures |FilterBits(es, p)| == ByteCount(p.capacity, p.bitsPerKey)
  {
  }

  /** A written file passes every check, and gives back its index and filter. */
  lemma WrittenTableLoads(es: seq<Entry>, p: Shape)
    requires Fits(es, p)
    ensures LoadTable(TableBytes(es, p))
         == Loaded(FooterOf(|EncodeAll(es)|, |IndexBlock(SparseOf(es, p.interval))|,
                            |Sealed(BloomRaw(FilterBits(es, p), p.hashes))|, |es|),
                   SparseOf(es, p.interval), FilterBits(es, p), p.hashes)
  {
    hide Le, FromLe, Crc32, SparseOf, IndexBlock, FilterBits, BloomRaw, LoadTable, ParseIndex, LoadBloom,
      ParseBloom, EncodeAll, Sealed;
    var data := EncodeAll(es);
    var index := SparseOf(es, p.interval);
    var bloom := BloomRaw(FilterBits(es, p), p.hashes);
    SparseOfStorable(es, p.interval, |TableBytes(es, p)|);
    IndexRoundTrip(index);
    FilterBitsSize(es, p);
    BloomRoundTrip(FilterBits(es, p), p.hashes);
    SealedLoads(bloom);
    AssembledLoads(data, IndexBlock(index), Sealed(bloom), |es|);
  }

  // ---------- the bytes of a file ----------

  lemma HeaderMagicBytes()
    ensures Le(HEADER_MAGIC, 8) == [0x31, 0x45, 0x45, 0x52, 0x54, 0x4D, 0x53, 0x4C]
  {
    hide Le, FromLe;
    var s: Bytes := [0x31, 0x45, 0x45, 0x52, 0x54, 0x4D, 0x53, 0x4C];
    FromLe8(s);
    FromLe4(s[..4]);
    FromLe4(s[4..]);
    LeIs(HEADER_MAGIC, s);
  }

  lemma FooterMagicBytes()
    ensures Le(FOOTER_MAGIC, 8) == [0x54, 0x46, 0x54, 0x53, 0x53, 0x4D, 0x53, 0x4C]
  {
    hide Le, FromLe;
    var s: Bytes := [0x54, 0x46, 0x54, 0x53, 0x53, 0x4D, 0x53, 0x4C];
    FromLe8(s);
    FromLe4(s[..4]);
    FromLe4(s[4..]);
    LeIs(FOOTER_MAGIC, s);
  }

  lemma HeaderLayout()
    ensures TableHeader() == [0x31, 0x45, 0x45, 0x52, 0x54, 0x4D, 0x53, 0x4C, 1, 0, 0, 0, 0, 0, 0, 0]
  {
    hide Le;
    HeaderMagicBytes();
    LeOf4(VERSION);
    LeOf4(0);
  }

  /** Where everything is in a file: header, records, index, filter, and 64 bytes that say so. */
  lemma TableLayout(es: seq<Entry>, p: Shape)
    requires Fits(es, p)
    ensures var b, d := TableBytes(es, p), |EncodeAll(es)|;
            var i, f := |IndexBlock(SparseOf(es, p.interval))|, |BloomRaw(FilterBits(es, p), p.hashes)| + 4;
            && |b| == 16 + d + i + f + 64
            && b[..16] == [0x31, 0x45, 0x45, 0x52, 0x54, 0x4D, 0x53, 0x4C, 1, 0, 0, 0, 0, 0, 0, 0]
            && b[16..16 + d] == EncodeAll(es)
            && b[16 + d..16 + d + i] == IndexBlock(SparseOf(es, p.interval))
            && b[16 + d + i..16 + d + i + f - 4] == BloomRaw(FilterBits(es, p), p.hashes)
            && FromLe(b[16 + d + i + f - 4..16 + d + i + f]) == Crc32(BloomRaw(FilterBits(es, p), p.hashes))
            && FooterSays(b[16 + d + i + f..], 16, d, 16 + d, i, 16 + d + i, f, |es|)
  {
    hide Le, FromLe, Crc32, EncodeAll, SparseOf, FilterBits, IndexBlock, BloomRaw, FooterBytes, TableHeader, ParseFooter, Sealed;
    var data, index, raw := EncodeAll(es), IndexBlock(SparseOf(es, p.interval)), BloomRaw(FilterBits(es, p), p.hashes);
    var f := FooterOf(|data|, |index|, |Sealed(raw)|, |es|);
    HeaderLayout();
    AssembledSections(data, index, Sealed(raw), |es|);
    SealedParts(raw);
    FooterMeans(f);
    assert |TableBytes(es, p)| == f.bloomOffset + f.bloomSize + FOOTER_SIZE;
  }

  lemma SealedParts(block: Bytes)
    ensures |Sealed(block)| == |block| + 4 && Sealed(block)[..|block|] == block
    ensures FromLe(Sealed(block)[|block|..]) == Crc32(block)
  {
    hide Le, FromLe, Crc32;
    Crc32Bound(block);
    Le32(Crc32(block));
  }

  /** The footer field by field. */
  ghost predicate FooterSays(b: Bytes, dataOffset: nat, dataSize: nat, indexOffset: nat, indexSize: nat, bloomOffset: nat,
                             bloomSize: nat, records: nat)
  {
    && |b| == 64
    && FromLe(b[0..8]) == dataOffset && FromLe(b[8..16]) == dataSize
    && FromLe(b[16..24]) == indexOffset && FromLe(b[24..32]) == indexSize
    && FromLe(b[32..40]) == bloomOffset && FromLe(b[40..48]) == bloomSize
    && FromLe(b[48..52]) == records && FromLe(b[52..56]) == 0
    && b[56..64] == [0x54, 0x46, 0x54, 0x53, 0x53, 0x4D, 0x53, 0x4C]
  }

  lemma FooterMeans(f: Footer)
    requires Narrow(f) && f.flags == 0
    ensures FooterSays(FooterBytes(f), f.dataOffset, f.dataSize, f.indexOffset, f.indexSize, f.bloomOffset, f.bloomSize,
                       f.recordCount)
  {
    hide Le, FromLe;
    FooterRoundTrip(f);
    FooterMagicBytes();
    assert FooterBytes(f)[56..64] == Le(FOOTER_MAGIC, 8);
  }

  // ---------- scanning a byte range ----------

  datatype Scanned = Answered(answer: Lookup) | Broken

  /** The record loop of a look-up: s is the rest of the file, n the bytes left of the range. */
  function ScanBytes(s: Bytes, n: int, key: Key): Scanned
    decreases |s|
  {
    if n <= 0 || s == [] then Answered(Absent)
    else if |s| < HEADER_SIZE then Broken
    else if |s| < BodySize(s) + CRC_SIZE then Broken
    else if !FrontIntact(s) then Broken
    else if FrontKey(s) == key then
      Answered(if s[0] == KindCode(Tombstone) then Deleted else Found(FrontValue(s)))
    else if Less(key, FrontKey(s)) then Answered(Absent)
    else
      var size := BodySize(s) + CRC_SIZE;
      ScanBytes(s[size..], n - size, key)
  }

  lemma ScanFirst(e: Entry, rest: Bytes, n: int, key: Key)
    requires Encodable(e) && Canonical(e) && n > 0
    ensures ScanBytes(Encode(e) + rest, n, key)
         == if e.key == key then Answered(if e.kind.Tombstone? then Deleted else Found(e.value))
            else if Less(key, e.key) then Answered(Absent)
            else ScanBytes(rest, n - RecordSize(e), key)
  {
    hide Crc32, Le, FromLe, Encode, FrontKey, FrontValue, FrontIntact, BodySize;
    FrontOfEncoded(e, rest);
    FrontSize(e, rest);
  }

  lemma FrontSize(e: Entry, rest: Bytes)
    requires Encodable(e)
    ensures var s := Encode(e) + rest;
            |s| >= HEADER_SIZE && |s| >= BodySize(s) + CRC_SIZE && BodySize(s) + CRC_SIZE == RecordSize(e)
  {
    hide Crc32, Le, FromLe, Encode;
    FrontOfEncoded(e, rest);
  }

  /** Scanning the bytes of a run of records is scanning the records. */
  lemma {:induction false} ScanOfEncoded(es: seq<Entry>, rest: Bytes, key: Key)
    requires forall e :: e in es ==> Encodable(e) && Canonical(e)
    ensures ScanBytes(EncodeAll(es) + rest, |EncodeAll(es)|, key) == Answered(Scan(es, key))
  {
    hide ScanBytes, Encode;
    if es == [] {
      NothingToScan(EncodeAll(es) + rest, key);
    } else {
      var tail := EncodeAll(es[1..]);
      ScanFirst(es[0], tail + rest, |EncodeAll(es)|, key);
      assert Encode(es[0]) + (tail + rest) == EncodeAll(es) + rest;
      ScanOfEncoded(es[1..], rest, key);
    }
  }

  lemma NothingToScan(s: Bytes, key: Key)
    ensures ScanBytes(s, 0, key) == Answered(Absent)
  {
  }

  /** The whole look-up: filter, index, byte scan. i is the upper bound of the key. */
  lemma LookupIsExact(es: seq<Entry>, p: Shape, key: Key, i: nat)
    requires Fits(es, p) && Sorted(es) && IsUpperBound(SparseOf(es, p.interval), key, i)
    ensures var file := TableBytes(es, p);
            var (start, end) := RangeAt(SparseOf(es, p.interval), i, TABLE_HEADER_SIZE + |EncodeAll(es)|);
            && start <= |file|
            && ScanBytes(file[start..], end - start, key) == Answered(Answer(LayerOf(es), key))
  {
    hide Le, FromLe, Crc32, SparseOf, IndexBlock, FilterBits, BloomRaw, ScanBytes, Scan, Encode, EncodeAll, RangeAt;
    assert es[..|es|] == es;
    var lo, hi := RangeSuffices(es, p.interval, key, i);
    var part := es[lo..hi];
    assert es[..hi] == es[..lo] + part;
    EncodeAllConcat(es[..lo], part);
    assert es == es[..hi] + es[hi..];
    EncodeAllConcat(es[..hi], es[hi..]);
    var rest := DataTail(es, p, lo, hi);
    ScanOfEncoded(part, rest, key);
    ScanFinds(es, key);
  }

  lemma DataTail(es: seq<Entry>, p: Shape, lo: nat, hi: nat) returns (rest: Bytes)
    requires p.interval > 0 && lo <= hi <= |es|
    ensures Offset(es, lo) <= |TableBytes(es, p)|
    ensures TableBytes(es, p)[Offset(es, lo)..] == EncodeAll(es[lo..hi]) + rest
  {
    hide Le, FromLe, Crc32, SparseOf, IndexBlock, FilterBits, BloomRaw, Encode, EncodeAll;
    var index, bloom := IndexBlock(SparseOf(es, p.interval)), Sealed(BloomRaw(FilterBits(es, p), p.hashes));
    assert es == es[..lo] + (es[lo..hi] + es[hi..]);
    EncodeAllConcat(es[..lo], es[lo..hi] + es[hi..]);
    EncodeAllConcat(es[lo..hi], es[hi..]);
    var footer := FooterBytes(FooterOf(|EncodeAll(es)|, |index|, |bloom|, |es|));
    rest := EncodeAll(es[hi..]) + index + bloom + footer;
    assert TableBytes(es, p) == (TableHeader() + EncodeAll(es[..lo])) + (EncodeAll(es[lo..hi]) + rest);
  }

  lemma {:induction false} AddKeysBits(bits: Bytes, hashes: nat, keys: seq<Key>, j: nat)
    requires bits != [] && hashes <= U32 && j < 8 * |bits|
    ensures BitSet(AddKeys(bits, hashes, keys), j) <==>
      BitSet(bits, j) || exists i, r :: 0 <= i < |keys| && 0 <= r < hashes && Probed(keys[i], r, 8 * |bits|, j)
  {
    hide AddKey, BitSet, Probed;
    if keys != [] {
      var n := |keys| - 1;
      var before := AddKeys(bits, hashes, keys[..n]);
      AddKeysBits(bits, hashes, keys[..n], j);
      AddKeyBits(before, hashes, keys[n], j);
      if i, r :| 0 <= i < |keys| && 0 <= r < hashes && Probed(keys[i], r, 8 * |bits|, j) {
        assert i < n ==> Probed(keys[..n][i], r, 8 * |bits|, j);
      }
      if i, r :| 0 <= i < |keys[..n]| && 0 <= r < hashes && Probed(keys[..n][i], r, 8 * |bits|, j) {
        assert Probed(keys[i], r, 8 * |bits|, j);
      }
    }
  }

  /** The filter of a table has exactly the bits of its keys. */
  lemma FilterHolds(es: seq<Entry>, p: Shape, j: nat)
    requires p.hashes <= U32 && j < 8 * |FilterBits(es, p)|
    ensures BitSet(FilterBits(es, p), j) <==>
      exists i, r :: 0 <= i < |es| && 0 <= r < p.hashes && Probed(es[i].key, r, 8 * |FilterBits(es, p)|, j)
  {
    hide AddKeys, Probed, ByteCount;
    var empty := EmptyBits(ByteCount(p.capacity, p.bitsPerKey));
    AddKeysBits(empty, p.hashes, KeysOf(es), j);
    NoBit(j % 8);
    var bitCount := 8 * |empty|;
    if i, r :| 0 <= i < |es| && 0 <= r < p.hashes && Probed(es[i].key, r, bitCount, j) {
      assert Probed(KeysOf(es)[i], r, bitCount, j);
    }
    if i, r :| 0 <= i < |KeysOf(es)| && 0 <= r < p.hashes && Probed(KeysOf(es)[i], r, bitCount, j) {
      assert Probed(es[i].key, r, bitCount, j);
    }
  }

  lemma {:induction false} NoBit(k: nat)
    ensures !Bit(0, k)
  {
    if k > 0 {
      NoBit(k - 1);
    }
  }

  /** A key that the filter excludes is not in the table. */
  lemma FilterExcludes(es: seq<Entry>, p: Shape, key: Key)
    requires !MayContain(FilterBits(es, p), p.hashes, key)
    ensures Answer(LayerOf(es), key) == Absent
  {
    hide MayContain;
    if key in LayerOf(es) {
      LayerOfKeys(es, key);
      var i :| 0 <= i < |es| && es[i].key == key;
      assert KeysOf(es)[i] == key;
      NoFalseNegatives(EmptyBits(ByteCount(p.capacity, p.bitsPerKey)), p.hashes, KeysOf(es), key);
    }
  }

  // ---------- a file determines its records ----------

  lemma {:induction false} EncodeAllInjective(a: seq<Entry>, b: seq<Entry>)
    requires forall e :: e in a ==> Encodable(e) && Canonical(e)
    requires forall e :: e in b ==> Encodable(e) && Canonical(e)
    requires EncodeAll(a) == EncodeAll(b)
    ensures a == b
  {
    hide Encode;
    if a != [] && b != [] {
      var ra, rb := EncodeAll(a[1..]), EncodeAll(b[1..]);
      FrontsAgree(a[0], ra, b[0], rb);
      assert (Encode(a[0]) + ra)[RecordSize(a[0])..] == ra;
      assert (Encode(b[0]) + rb)[RecordSize(b[0])..] == rb;
      EncodeAllInjective(a[1..], b[1..]);
      assert a == [a[0]] + a[1..] && b == [b[0]] + b[1..];
    }
  }

  lemma FrontsAgree(a: Entry, ra: Bytes, b: Entry, rb: Bytes)
    requires Encodable(a) && Canonical(a) && Encodable(b) && Canonical(b)
    requires Encode(a) + ra == Encode(b) + rb
    ensures a == b
  {
    hide Encode, FrontIntact, BodySize;
    FrontOfEncoded(a, ra);
    FrontOfEncoded(b, rb);
  }

  ghost predicate Intact(file: Bytes)
  {
    exists es :: IsTable(file, es)
  }

  /** The records of an intact table file. */
  ghost function Contents(file: Bytes): (es: seq<Entry>)
    requires Intact(file)
    ensures IsTable(file, es)
  {
    var es :| IsTable(file, es);
    es
  }

  lemma DataSection(es: seq<Entry>, p: Shape)
    requires Fits(es, p)
    ensures LoadTable(TableBytes(es, p)).Loaded?
    ensures LoadTable(TableBytes(es, p)).footer.dataOffset == TABLE_HEADER_SIZE
    ensures LoadTable(TableBytes(es, p)).footer.dataSize == |EncodeAll(es)|
    ensures |TableBytes(es, p)| >= TABLE_HEADER_SIZE + |EncodeAll(es)|
    ensures TableBytes(es, p)[TABLE_HEADER_SIZE..TABLE_HEADER_SIZE + |EncodeAll(es)|] == EncodeAll(es)
  {
    hide LoadTable, EncodeAll, IndexBlock, BloomRaw, Sealed, FilterBits, SparseOf, Assemble;
    WrittenTableLoads(es, p);
    AssembledSections(EncodeAll(es), IndexBlock(SparseOf(es, p.interval)), Sealed(BloomRaw(FilterBits(es, p), p.hashes)), |es|);
  }

  lemma ContentsUnique(file: Bytes, es: seq<Entry>)
    requires IsTable(file, es)
    ensures Intact(file) && Contents(file) == es
  {
    hide LoadTable, EncodeAll, TableBytes;
    var other := Contents(file);
    var p :| Fits(es, p) && file == TableBytes(es, p);
    var q :| Fits(other, q) && file == TableBytes(other, q);
    DataSection(es, p);
    DataSection(other, q);
    EncodeAllInjective(es, other);
  }

  /** The table file round trip: a written file opens, and its data section holds exactly the
      records it was written from. */
  lemma TableRoundTrip(es: seq<Entry>, p: Shape)
    requires Fits(es, p) && Sorted(es)
    ensures Intact(TableBytes(es, p)) && Contents(TableBytes(es, p)) == es
    ensures LoadTable(TableBytes(es, p)).Loaded?
  {
    hide LoadTable, EncodeAll, TableBytes;
    ContentsUnique(TableBytes(es, p), es);
    DataSection(es, p);
  }
}
