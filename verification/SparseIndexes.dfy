/** The sparse index of a table: every N-th key with its byte offset, its serialized form,
    and the byte range that a look-up has to scan. */
module SparseIndexes {
  import opened Bytes
  import opened Crc
  import opened Entries
  import opened Records

  const TABLE_HEADER_SIZE: nat := 16

  datatype IndexEntry = IndexEntry(key: Key, offset: nat)

  // ---------- which records are indexed ----------

  /** Byte offset in the file of the i-th record. */
  function Offset(es: seq<Entry>, i: nat): nat
    requires i <= |es|
  {
    TABLE_HEADER_SIZE + |EncodeAll(es[..i])|
  }

  /** The index that a writer builds while it appends es: one entry whenever the number of
      records written so far is a multiple of the interval. */
  function SparseOf(es: seq<Entry>, interval: nat): seq<IndexEntry>
    requires interval > 0
  {
    if es == [] then [] else
      var n := |es| - 1;
      var before := SparseOf(es[..n], interval);
      if n % interval == 0 then before + [IndexEntry(es[n].key, Offset(es, n))] else before
  }

  /** Number of indexed records among the first n. */
  function Blocks(n: nat, interval: nat): nat
    requires interval > 0
  {
    (n + interval - 1) / interval
  }

  lemma BlocksStep(n: nat, interval: nat)
    requires interval > 0
    ensures Blocks(n + 1, interval) == if n % interval == 0 then Blocks(n, interval) + 1 else Blocks(n, interval)
    ensures n % interval == 0 ==> Blocks(n, interval) * interval == n
  {
    var q, r := n / interval, n % interval;
    assert n == q * interval + r;
    if r == 0 {
      DivideExactly(q, interval - 1, interval);
      DivideExactly(q + 1, 0, interval);
      assert n + interval - 1 == q * interval + (interval - 1);
      assert n + interval == (q + 1) * interval;
    } else {
      DivideExactly(q + 1, r - 1, interval);
      DivideExactly(q + 1, r, interval);
      assert n + interval - 1 == (q + 1) * interval + (r - 1);
      assert n + interval == (q + 1) * interval + r;
    }
  }

  lemma LastBlockEnd(n: nat, interval: nat)
    requires interval > 0
    ensures n <= Blocks(n, interval) * interval
  {
    var b := Blocks(n, interval);
    var m := n + interval - 1;
    assert m == b * interval + m % interval;
  }

  lemma OffsetPrefix(es: seq<Entry>, n: nat, i: nat)
    requires i <= n <= |es|
    ensures Offset(es[..n], i) == Offset(es, i)
  {
    assert es[..n][..i] == es[..i];
  }

  /** The k-th index entry is the key and the byte offset of record k * interval, and every
      such record has one. */
  lemma {:induction false} IndexShape(es: seq<Entry>, interval: nat)
    requires interval > 0
    ensures |SparseOf(es, interval)| == Blocks(|es|, interval)
    ensures forall k :: 0 <= k < |SparseOf(es, interval)| ==> IsSample(es, interval, k, SparseOf(es, interval)[k])
  {
    hide Offset, Blocks;
    if es == [] {
      NoBlocks(interval);
    } else {
      var n := |es| - 1;
      IndexShape(es[..n], interval);
      BlocksStep(n, interval);
      var before, now := SparseOf(es[..n], interval), SparseOf(es, interval);
      forall k | 0 <= k < |now|
        ensures IsSample(es, interval, k, now[k])
      {
        if k < |before| {
          assert IsSample(es[..n], interval, k, before[k]);
          SampleExtends(es, interval, k, before[k]);
        }
      }
    }
  }

  lemma NoBlocks(interval: nat)
    requires interval > 0
    ensures Blocks(0, interval) == 0
  {
    DivideExactly(0, interval - 1, interval);
  }

  lemma SampleExtends(es: seq<Entry>, interval: nat, k: nat, x: IndexEntry)
    requires es != [] && IsSample(es[..|es| - 1], interval, k, x)
    ensures IsSample(es, interval, k, x)
  {
    OffsetPrefix(es, |es| - 1, k * interval);
  }

  ghost predicate IsSample(es: seq<Entry>, interval: nat, k: nat, x: IndexEntry)
  {
    && k * interval < |es|
    && x == IndexEntry(es[k * interval].key, Offset(es, k * interval))
  }

  // ---------- the range to scan ----------

  predicate SortedIndex(index: seq<IndexEntry>)
  {
    forall i, j :: 0 <= i < j < |index| ==> Less(index[i].key, index[j].key)
  }

  /** i splits the index into the keys up to the target and the keys above it. */
  ghost predicate IsUpperBound(index: seq<IndexEntry>, key: Key, i: nat)
  {
    && i <= |index|
    && (forall j :: 0 <= j < i ==> LessEq(index[j].key, key))
    && (forall j :: i <= j < |index| ==> Less(key, index[j].key))
  }

  /** Binary search for the first index key above the target. */
  method UpperBound(index: seq<IndexEntry>, key: Key) returns (i: nat)
    ensures i <= |index|
    ensures SortedIndex(index) ==> IsUpperBound(index, key, i)
  {
    var lo, hi := 0, |index|;
    while lo < hi
      invariant 0 <= lo <= hi <= |index|
      invariant SortedIndex(index) ==> forall j :: 0 <= j < lo ==> LessEq(index[j].key, key)
      invariant SortedIndex(index) ==> forall j :: hi <= j < |index| ==> Less(key, index[j].key)
    {
      var mid := (lo + hi) / 2;
      if Less(key, index[mid].key) {
        if SortedIndex(index) {
          forall j | mid < j < |index|
            ensures Less(key, index[j].key)
          {
            LessTransitive(key, index[mid].key, index[j].key);
          }
        }
        hi := mid;
      } else {
        LessTotal(key, index[mid].key);
        if SortedIndex(index) {
          forall j | 0 <= j < mid
            ensures LessEq(index[j].key, key)
          {
            if index[mid].key != key {
              LessTransitive(index[j].key, index[mid].key, key);
            }
          }
        }
        lo := mid + 1;
      }
    }
    i := lo;
  }

  /** The byte range chosen for a target whose upper bound in the index is i. */
  function RangeAt(index: seq<IndexEntry>, i: nat, dataEnd: nat): (nat, nat)
    requires i <= |index|
  {
    if index == [] then (TABLE_HEADER_SIZE, dataEnd)
    else if i == 0 then (TABLE_HEADER_SIZE, index[0].offset)
    else (index[i - 1].offset, if i < |index| then index[i].offset else dataEnd)
  }

  lemma SamplesSorted(es: seq<Entry>, interval: nat)
    requires interval > 0 && Sorted(es)
    ensures SortedIndex(SparseOf(es, interval))
  {
    hide SparseOf, Offset;
    var index := SparseOf(es, interval);
    IndexShape(es, interval);
    forall i, j | 0 <= i < j < |index|
      ensures Less(index[i].key, index[j].key)
    {
      assert IsSample(es, interval, i, index[i]) && IsSample(es, interval, j, index[j]);
      MultiplesGrow(i, j, interval);
    }
  }

  lemma {:induction false} ScanSkips(es: seq<Entry>, lo: nat, key: Key)
    requires Sorted(es) && lo <= |es|
    requires forall j :: 0 <= j < lo ==> Less(es[j].key, key)
    ensures Scan(es, key) == Scan(es[lo..], key)
  {
    if lo == 0 {
      assert es[0..] == es;
    } else {
      LessAsymmetric(es[0].key, key);
      assert es[1..][lo - 1..] == es[lo..];
      assert forall j :: 0 <= j < lo - 1 ==> es[1..][j] == es[j + 1];
      ScanSkips(es[1..], lo - 1, key);
    }
  }

  lemma {:induction false} ScanStops(es: seq<Entry>, hi: nat, key: Key)
    requires Sorted(es) && hi <= |es|
    requires hi < |es| ==> Less(key, es[hi].key)
    ensures Scan(es, key) == Scan(es[..hi], key)
  {
    if hi == |es| {
      assert es[..hi] == es;
    } else if hi == 0 {
      LessAsymmetric(key, es[0].key);
    } else {
      assert es[..hi][1..] == es[1..][..hi - 1];
      ScanStops(es[1..], hi - 1, key);
    }
  }

  /** The records lo .. hi that a byte range of the data section covers. */
  ghost predicate Covers(es: seq<Entry>, lo: nat, hi: nat, range: (nat, nat))
  {
    lo <= hi <= |es| && range == (Offset(es, lo), Offset(es, hi))
  }

  /** The range of a look-up starts and ends on record boundaries, holds at most one interval
      of records, and scanning it gives the same answer as scanning the whole table. */
  lemma RangeSuffices(es: seq<Entry>, interval: nat, key: Key, i: nat) returns (lo: nat, hi: nat)
    requires interval > 0 && Sorted(es) && IsUpperBound(SparseOf(es, interval), key, i)
    ensures Covers(es, lo, hi, RangeAt(SparseOf(es, interval), i, Offset(es, |es|)))
    ensures hi - lo <= interval
    ensures 0 < lo < |es| ==> LessEq(es[lo].key, key)
    ensures Scan(es[lo..hi], key) == Scan(es, key)
  {
    hide SparseOf, Offset, Scan, Blocks;
    var index := SparseOf(es, interval);
    IndexShape(es, interval);
    LastBlockEnd(|es|, interval);
    OffsetZero(es);
    if i == 0 {
      lo, hi := 0, 0;
      if index != [] {
        assert IsSample(es, interval, 0, index[0]);
        ScanWithin(es, lo, hi, key);
      } else {
        NoSamples(es, interval);
      }
    } else {
      assert IsSample(es, interval, i - 1, index[i - 1]);
      lo := (i - 1) * interval;
      assert i * interval == lo + interval;
      if i < |index| {
        assert IsSample(es, interval, i, index[i]);
        hi := i * interval;
      } else {
        hi := |es|;
      }
      ScanWithin(es, lo, hi, key);
    }
  }

  lemma OffsetZero(es: seq<Entry>)
    ensures Offset(es, 0) == TABLE_HEADER_SIZE
  {
    assert es[..0] == [];
  }

  lemma NoSamples(es: seq<Entry>, interval: nat)
    requires interval > 0 && SparseOf(es, interval) == []
    ensures es == []
  {
    IndexShape(es, interval);
    LastBlockEnd(|es|, interval);
  }

  /** Leaving out records below a key that is not above the target, and records from a key
      above the target on, does not change a scan. */
  lemma ScanWithin(es: seq<Entry>, lo: nat, hi: nat, key: Key)
    requires Sorted(es) && lo <= hi <= |es|
    requires 0 < lo < |es| ==> LessEq(es[lo].key, key)
    requires lo < |es|
    requires hi < |es| ==> Less(key, es[hi].key)
    ensures Scan(es[lo..hi], key) == Scan(es, key)
  {
    forall j | 0 <= j < lo
      ensures Less(es[j].key, key)
    {
      if es[lo].key != key {
        LessTransitive(es[j].key, es[lo].key, key);
      }
    }
    ScanStops(es, hi, key);
    SortedPrefix(es, hi);
    ScanSkips(es[..hi], lo, key);
    assert es[..hi][lo..] == es[lo..hi];
  }

  // ---------- serialized form ----------

  function IndexRecord(x: IndexEntry): Bytes
  {
    Le(|x.key|, 4) + x.key + Le(x.offset, 8)
  }

  function IndexPayload(index: seq<IndexEntry>): Bytes
  {
    if index == [] then [] else IndexRecord(index[0]) + IndexPayload(index[1..])
  }

  function IndexBody(index: seq<IndexEntry>): Bytes
  {
    Le(|index|, 4) + IndexPayload(index)
  }

  function IndexBlock(index: seq<IndexEntry>): Bytes
  {
    IndexBody(index) + Le(Crc32(IndexBody(index)), 4)
  }

  datatype ParsedIndex = Index(entries: seq<IndexEntry>) | BadIndex

  /** Reads `count` index entries off the front of s. */
  function ParseEntries(s: Bytes, count: nat): ParsedIndex
    decreases count
  {
    if count == 0 then Index([])
    else if |s| < 4 then BadIndex
    else
      var keyLength := FromLe(s[..4]);
      if |s| < 4 + keyLength || |s| < 4 + keyLength + 8 then BadIndex
      else
        match ParseEntries(s[12 + keyLength..], count - 1)
        case BadIndex => BadIndex
        case Index(rest) =>
          Index([IndexEntry(s[4..4 + keyLength], FromLe(s[4 + keyLength..12 + keyLength]))] + rest)
  }

  function ParseIndex(data: Bytes): ParsedIndex
  {
    if |data| < 8 then BadIndex else
      var n := |data| - 4;
      if FromLe(data[n..]) != Crc32(data[..n]) then BadIndex
      else ParseEntries(data[4..n], FromLe(data[..4]))
  }

  predicate Storable(index: seq<IndexEntry>)
  {
    |index| < U32 && forall x :: x in index ==> |x.key| < U32 && x.offset < U64
  }

  /** The first entry is read back from the front of a payload. */
  lemma ParseFront(x: IndexEntry, rest: Bytes, count: nat)
    requires |x.key| < U32 && x.offset < U64
    ensures ParseEntries(IndexRecord(x) + rest, count + 1)
         == match ParseEntries(rest, count)
            case BadIndex => BadIndex
            case Index(entries) => Index([x] + entries)
  {
    hide Le, FromLe;
    var s := IndexRecord(x) + rest;
    var k := |x.key|;
    assert s[..4] == Le(k, 4);
    Le32(k);
    assert s[4..4 + k] == x.key;
    assert s[4 + k..12 + k] == Le(x.offset, 8);
    Le64(x.offset);
    assert s[12 + k..] == rest;
  }

  lemma {:induction false} ParsePayload(index: seq<IndexEntry>)
    requires forall x :: x in index ==> |x.key| < U32 && x.offset < U64
    ensures ParseEntries(IndexPayload(index), |index|) == Index(index)
  {
    hide IndexRecord;
    if index != [] {
      hide ParseEntries;
      ParsePayload(index[1..]);
      ParseFront(index[0], IndexPayload(index[1..]), |index| - 1);
      assert index == [index[0]] + index[1..];
    }
  }

  lemma IndexRoundTrip(index: seq<IndexEntry>)
    requires Storable(index)
    ensures ParseIndex(IndexBlock(index)) == Index(index)
  {
    hide Le, FromLe, Crc32, ParseEntries;
    var data := IndexBlock(index);
    var n := |data| - 4;
    assert data[..n] == IndexBody(index);
    assert data[n..] == Le(Crc32(IndexBody(index)), 4);
    assert data[..4] == Le(|index|, 4);
    assert data[4..n] == IndexPayload(index);
    Crc32Bound(IndexBody(index));
    Le32(Crc32(IndexBody(index)));
    Le32(|index|);
    ParsePayload(index);
  }

  /** The bytes of an index block: the number of entries, the entries, and the checksum of all that;
      an entry is the length of a key, the key, and the offset. */
  lemma IndexLayout(index: seq<IndexEntry>, x: IndexEntry)
    requires Storable(index) && x in index
    ensures var b := IndexBlock(index);
            |b| >= 8 && FromLe(b[..4]) == |index| && FromLe(b[|b| - 4..]) == Crc32(b[..|b| - 4])
            && b[4..|b| - 4] == IndexPayload(index)
    ensures var r, k := IndexRecord(x), |x.key|;
            |r| == k + 12 && FromLe(r[..4]) == k && r[4..4 + k] == x.key && FromLe(r[4 + k..]) == x.offset
  {
    hide Le, FromLe, Crc32;
    var b, r, k := IndexBlock(index), IndexRecord(x), |x.key|;
    assert b[..|b| - 4] == IndexBody(index) && b[|b| - 4..] == Le(Crc32(IndexBody(index)), 4);
    assert b[..4] == Le(|index|, 4);
    assert r[..4] == Le(k, 4) && r[4 + k..] == Le(x.offset, 8);
    Crc32Bound(IndexBody(index));
    Le32(Crc32(IndexBody(index)));
    Le32(|index|);
    Le32(k);
    Le64(x.offset);
  }

  /** A change inside at most four consecutive bytes of an index block is noticed. */
  lemma DamagedIndex(index: seq<IndexEntry>, block: Bytes, at: nat, n: nat)
    requires Burst(IndexBlock(index), block, at, n)
    ensures ParseIndex(block) == BadIndex
  {
    hide Le, FromLe, Crc32, ParseEntries, IndexBody;
    SealedBurst(IndexBody(index), block, at, n);
    assert |block| - 4 == |IndexBody(index)|;
  }

  lemma {:induction false} PayloadSnoc(index: seq<IndexEntry>, x: IndexEntry)
    ensures IndexPayload(index + [x]) == IndexPayload(index) + IndexRecord(x)
  {
    if index == [] {
      assert [x][1..] == [];
      assert [] + [x] == [x];
      assert IndexRecord(x) + [] == IndexRecord(x);
    } else {
      assert (index + [x])[1..] == index[1..] + [x];
      PayloadSnoc(index[1..], x);
      assert IndexRecord(index[0]) + (IndexPayload(index[1..]) + IndexRecord(x))
          == (IndexRecord(index[0]) + IndexPayload(index[1..])) + IndexRecord(x);
    }
  }

  class SSTableIndex {
    var entries: seq<IndexEntry>

    constructor ()
      ensures entries == []
    {
      entries := [];
    }

    method Add(key: Key, offset: nat)
      modifies this
      ensures entries == old(entries) + [IndexEntry(key, offset)]
    {
      entries := entries + [IndexEntry(key, offset)];
    }

    method Serialize() returns (data: Bytes)
      requires Storable(entries)
      ensures data == IndexBlock(entries)
    {
      hide Le, IndexRecord;
      var field := new byte[4];
      EncodeUint32LE(|entries|, field, 0);
      var buffer := field[..];
      for i := 0 to |entries|
        invariant buffer == Le(|entries|, 4) + IndexPayload(entries[..i])
      {
        var x := entries[i];
        var record := SerializeEntry(x);
        PayloadSnoc(entries[..i], x);
        assert entries[..i + 1] == entries[..i] + [x];
        assert Le(|entries|, 4) + (IndexPayload(entries[..i]) + record)
            == (Le(|entries|, 4) + IndexPayload(entries[..i])) + record;
        buffer := buffer + record;
      }
      assert entries[..|entries|] == entries;
      data := Seal(buffer);
    }
  }

  /** Where to look for a key in a file whose data section ends at dataEnd. */
  method FindOffsetRange(entries: seq<IndexEntry>, key: Key, dataEnd: nat) returns (start: nat, end: nat)
    ensures SortedIndex(entries) ==>
      exists i :: IsUpperBound(entries, key, i) && (start, end) == RangeAt(entries, i, dataEnd)
  {
    if entries == [] {
      start, end := TABLE_HEADER_SIZE, dataEnd;
      assert IsUpperBound(entries, key, 0);
      return;
    }
    var i := UpperBound(entries, key);
    if i == 0 {
      start := TABLE_HEADER_SIZE;
      end := entries[0].offset;
    } else {
      start := entries[i - 1].offset;
      if i < |entries| {
        end := entries[i].offset;
      } else {
        end := dataEnd;
      }
    }
    assert (start, end) == RangeAt(entries, i, dataEnd);
  }

  method SerializeEntry(x: IndexEntry) returns (record: Bytes)
    requires |x.key| < U32 && x.offset < U64
    ensures record == IndexRecord(x)
  {
    hide Le;
    var field := new byte[4];
    EncodeUint32LE(|x.key|, field, 0);
    assert field[..] == Le(|x.key|, 4);
    var position := new byte[8];
    EncodeUint64LE(x.offset, position, 0);
    assert position[..] == Le(x.offset, 8);
    record := field[..] + x.key + position[..];
  }

  /** Reads one index entry off the front of s. */
  method DeserializeEntry(s: Bytes) returns (parsed: ParsedIndex, size: nat)
    ensures size <= |s|
    ensures parsed.BadIndex? ==> forall count: nat :: count > 0 ==> ParseEntries(s, count) == BadIndex
    ensures parsed.Index? ==> forall count: nat :: count > 0 ==>
      ParseEntries(s, count) == Appended(parsed.entries, ParseEntries(s[size..], count - 1))
  {
    size := 0;
    if |s| < 4 {
      return BadIndex, 0;
    }
    var keyLength := FromLe(s[..4]);
    if |s| < 4 + keyLength {
      return BadIndex, 0;
    }
    var key := s[4..4 + keyLength];
    if |s| < 4 + keyLength + 8 {
      return BadIndex, 0;
    }
    var offset := FromLe(s[4 + keyLength..12 + keyLength]);
    return Index([IndexEntry(key, offset)]), 12 + keyLength;
  }

  ghost function Appended(front: seq<IndexEntry>, rest: ParsedIndex): ParsedIndex
  {
    match rest
    case BadIndex => BadIndex
    case Index(es) => Index(front + es)
  }

  lemma AppendedTwice(a: seq<IndexEntry>, b: seq<IndexEntry>, rest: ParsedIndex)
    ensures Appended(a, Appended(b, rest)) == Appended(a + b, rest)
  {
    if rest.Index? {
      assert a + (b + rest.entries) == (a + b) + rest.entries;
    }
  }

  /** Parses an index block with the checks in the order of the engine. */
  method DeserializeIndex(data: Bytes) returns (parsed: ParsedIndex)
    ensures parsed == ParseIndex(data)
  {
    if |data| < 8 {
      return BadIndex;
    }
    var n := |data| - 4;
    var expected := FromLe(data[n..]);
    var actual := Checksum(data[..n]);
    if expected != actual {
      return BadIndex;
    }
    var count := FromLe(data[..4]);
    var payload := data[4..n];
    var entries := ReadEntries(payload, count);
    return entries;
  }

  method ReadEntries(payload: Bytes, count: nat) returns (parsed: ParsedIndex)
    ensures parsed == ParseEntries(payload, count)
  {
    hide ParseEntries;
    var cursor := 0;
    var entries: seq<IndexEntry> := [];
    assert payload[0..] == payload;
    StartAppended(ParseEntries(payload, count));
    for i := 0 to count
      invariant cursor <= |payload|
      invariant Appended(entries, ParseEntries(payload[cursor..], count - i)) == ParseEntries(payload, count)
    {
      var front, size := DeserializeEntry(payload[cursor..]);
      if front.BadIndex? {
        return BadIndex;
      }
      assert payload[cursor..][size..] == payload[cursor + size..];
      AppendedTwice(entries, front.entries, ParseEntries(payload[cursor + size..], count - i - 1));
      entries := entries + front.entries;
      cursor := cursor + size;
    }
    NothingLeft(payload[cursor..], entries);
    return Index(entries);
  }

  lemma StartAppended(rest: ParsedIndex)
    ensures Appended([], rest) == rest
  {
    if rest.Index? {
      assert [] + rest.entries == rest.entries;
    }
  }

  lemma NothingLeft(s: Bytes, entries: seq<IndexEntry>)
    ensures Appended(entries, ParseEntries(s, 0)) == Index(entries)
  {
    assert entries + [] == entries;
  }
}
