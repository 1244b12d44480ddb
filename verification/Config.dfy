/** Engine configuration, and how many keys a table can be written for under it. */
module Config {
  import opened Bytes
  import opened Entries
  import opened Records
  import opened Blooms
  import opened SparseIndexes
  import opened TableFormat

  datatype Options = Options(
    memtableThreshold: nat,
    sparseInterval: nat,
    bloomBitsPerKey: nat,
    bloomHashes: nat,
    compactionThreshold: nat,
    enableBloom: bool)

  const MAX_KEYS: nat := 0x1000_0000

  /** The shape of a table written for an expected number of keys. */
  function ShapeFor(options: Options, estimatedKeys: nat): Shape
  {
    Shape(options.sparseInterval, if estimatedKeys > 0 then estimatedKeys else 100,
          options.bloomBitsPerKey, options.bloomHashes % U32)
  }

  /** Records can be counted in 28 bits and the filter for that many keys stays below 4 GiB. */
  predicate Roomy(options: Options, keys: nat)
  {
    && options.sparseInterval > 0 && keys <= MAX_KEYS
    && (keys + 100) * options.bloomBitsPerKey < 8 * (U32 - 16)
  }

  lemma RoomyFewer(options: Options, fewer: nat, keys: nat)
    requires Roomy(options, keys) && fewer <= keys
    ensures Roomy(options, fewer)
  {
    ProductGrows(fewer + 100, keys + 100, options.bloomBitsPerKey);
  }

  lemma ProductGrows(a: nat, b: nat, c: nat)
    requires a <= b
    ensures a * c <= b * c
  {
  }

  lemma FilterFits(options: Options, keys: nat)
    requires Roomy(options, keys)
    ensures var p := ShapeFor(options, keys); ByteCount(p.capacity, p.bitsPerKey) < U32 - 8
  {
    var p := ShapeFor(options, keys);
    ProductGrows(p.capacity, keys + 100, options.bloomBitsPerKey);
  }

  lemma {:induction false} DataBound(es: seq<Entry>)
    requires forall e :: e in es ==> Encodable(e)
    ensures |EncodeAll(es)| <= |es| * (2 * U32 + 13)
  {
    hide Encode;
    if es != [] {
      assert Encodable(es[0]);
      DataBound(es[1..]);
      assert |EncodeAll(es)| == RecordSize(es[0]) + |EncodeAll(es[1..])|;
      assert |es| * (2 * U32 + 13) == (|es| - 1) * (2 * U32 + 13) + (2 * U32 + 13);
    }
  }

  lemma {:induction false} IndexBound(index: seq<IndexEntry>)
    requires forall x :: x in index ==> |x.key| < U32
    ensures |IndexPayload(index)| <= |index| * (U32 + 12)
  {
    hide Le;
    if index != [] {
      IndexBound(index[1..]);
      assert |IndexRecord(index[0])| <= U32 + 12;
      assert |index| * (U32 + 12) == (|index| - 1) * (U32 + 12) + (U32 + 12);
    }
  }

  /** A table of that many records can be written and read back. */
  lemma RoomyFits(es: seq<Entry>, options: Options)
    requires Roomy(options, |es|) && forall e :: e in es ==> Encodable(e) && Canonical(e)
    ensures Fits(es, ShapeFor(options, |es|))
  {
    hide EncodeAll, SparseOf, FilterBits, ByteCount, Le, IndexPayload, FooterBytes, Roomy;
    assert options.sparseInterval > 0 && |es| <= MAX_KEYS by {
      FilterFits(options, |es|);
      RoomyParts(options, |es|);
    }
    var p := ShapeFor(options, |es|);
    FilterFits(options, |es|);
    FilterBitsSize(es, p);
    DataBound(es);
    var index := SparseOf(es, p.interval);
    SamplesFewer(es, p.interval);
    SampleKeys(es, p.interval);
    IndexBound(index);
    SizesFit(|es|, |index|);
    assert |IndexBlock(index)| == |IndexPayload(index)| + 8;
    assert |Sealed(BloomRaw(FilterBits(es, p), p.hashes))| == ByteCount(p.capacity, p.bitsPerKey) + 12;
    assert |TableBytes(es, p)| == TABLE_HEADER_SIZE + |EncodeAll(es)| + |IndexBlock(index)|
      + |Sealed(BloomRaw(FilterBits(es, p), p.hashes))| + FOOTER_SIZE;
  }

  lemma RoomyParts(options: Options, keys: nat)
    requires Roomy(options, keys)
    ensures options.sparseInterval > 0 && keys <= MAX_KEYS
  {
  }

  lemma SizesFit(records: nat, samples: nat)
    requires samples <= records <= MAX_KEYS
    ensures records * (2 * U32 + 13) + samples * (U32 + 12) + 2 * U32 < U64
  {
    assert records * (2 * U32 + 13) <= MAX_KEYS * (2 * U32 + 13);
    assert samples * (U32 + 12) <= MAX_KEYS * (U32 + 12);
  }

  lemma SampleKeys(es: seq<Entry>, interval: nat)
    requires interval > 0 && forall e :: e in es ==> Encodable(e)
    ensures forall x :: x in SparseOf(es, interval) ==> |x.key| < U32
  {
    hide Offset, Blocks, SparseOf;
    var index := SparseOf(es, interval);
    IndexShape(es, interval);
    forall x | x in index
      ensures |x.key| < U32
    {
      var k :| 0 <= k < |index| && index[k] == x;
      assert IsSample(es, interval, k, x);
      assert es[k * interval] in es;
    }
  }
}
