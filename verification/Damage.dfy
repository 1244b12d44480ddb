/** Damaged table files: every change inside four consecutive bytes that the checks cover is
    noticed, when the file is opened or when the record is read. */
module Damage {
  import opened Bytes
  import opened Crc
  import opened Entries
  import opened Records
  import opened SparseIndexes
  import opened Blooms
  import opened TableFormat

  /** A change inside at most four consecutive bytes of a filter block is noticed. */
  lemma DamagedFilter(block: Bytes, damaged: Bytes, at: nat, n: nat)
    requires Burst(Sealed(block), damaged, at, n)
    ensures LoadBloom(damaged) == Invalid
  {
    hide Le, FromLe, Crc32, ParseBloom;
    SealedBurst(block, damaged, at, n);
    assert |damaged| - 4 == |block|;
  }

  // ---------- opening ----------

  lemma HeaderBurst(file: Bytes, damaged: Bytes, at: nat, n: nat)
    requires |file| >= TABLE_HEADER_SIZE + FOOTER_SIZE && file[..TABLE_HEADER_SIZE] == TableHeader()
    requires Burst(file, damaged, at, n) && at + n <= 12
    ensures LoadTable(damaged) == BadTable
  {
    hide Le, FromLe, ParseFooter, LoadSections, Tiles;
    HeaderChecks(file);
    BurstWithin(file, damaged, at, n, 12, |file|);
    SameStart(file, damaged);
    if FromLe(damaged[0..8]) == HEADER_MAGIC {
      FromLeInjective(damaged[0..8], file[0..8]);
    }
    if FromLe(damaged[8..12]) == VERSION {
      FromLeInjective(damaged[8..12], file[8..12]);
    }
  }

  lemma SameStart(s: Bytes, t: Bytes)
    requires |s| == |t| >= 12 && t[12..|s|] == s[12..|s|]
    ensures t[0..8] == s[0..8] && t[8..12] == s[8..12] ==> t == s
  {
    assert s == s[0..8] + s[8..12] + s[12..|s|];
    assert t == t[0..8] + t[8..12] + t[12..|s|];
  }

  /** The footer without record count, flags and magic. */
  predicate SameOffsets(f: Footer, g: Footer)
  {
    && f.dataOffset == g.dataOffset && f.dataSize == g.dataSize && f.indexOffset == g.indexOffset
    && f.indexSize == g.indexSize && f.bloomOffset == g.bloomOffset && f.bloomSize == g.bloomSize
  }

  /** Of six offsets and sizes that tile the file no two neighbours can change. */
  lemma TilesRigid(f: Footer, g: Footer, fileSize: nat, i: nat)
    requires FOOTER_SIZE <= fileSize < U64 && Narrow(f) && Narrow(g) && Tiles(f, fileSize) && Tiles(g, fileSize)
    requires i != 0 && i != 1 ==> g.dataSize == f.dataSize
    requires i != 1 && i != 2 ==> g.indexOffset == f.indexOffset
    requires i != 2 && i != 3 ==> g.indexSize == f.indexSize
    requires i != 3 && i != 4 ==> g.bloomOffset == f.bloomOffset
    requires i != 4 && i != 5 ==> g.bloomSize == f.bloomSize
    ensures SameOffsets(f, g)
  {
    SumRigid(f.dataOffset, f.dataSize, f.indexOffset, g.dataOffset, g.dataSize, g.indexOffset);
    SumRigid(f.indexOffset, f.indexSize, f.bloomOffset, g.indexOffset, g.indexSize, g.bloomOffset);
    SumRigid(f.bloomOffset, f.bloomSize, fileSize - FOOTER_SIZE, g.bloomOffset, g.bloomSize, fileSize - FOOTER_SIZE);
    assert g.dataOffset == f.dataOffset;
    hide Tiles;
  }

  /** Two of the three numbers of a sum in 64 bits determine the third. */
  lemma SumRigid(a: nat, x: nat, c: nat, b: nat, y: nat, d: nat)
    requires a < U64 && x < U64 && b < U64 && y < U64 && (a + x) % U64 == c && (b + y) % U64 == d
    ensures a == b && x == y ==> c == d
    ensures a == b && c == d ==> x == y
    ensures x == y && c == d ==> a == b
  {
    Wraps(a + x);
    Wraps(b + y);
  }

  lemma Wraps(v: nat)
    requires v < 2 * U64
    ensures v % U64 == if v < U64 then v else v - U64
  {
  }

  /** The last 64 bytes of a file. */
  function Tail(file: Bytes): (tail: Bytes)
    requires |file| >= FOOTER_SIZE
    ensures |tail| == FOOTER_SIZE
  {
    file[|file| - FOOTER_SIZE..]
  }

  lemma FooterIsNarrow(b: Bytes)
    requires |b| == FOOTER_SIZE
    ensures Narrow(ParseFooter(b))
  {
    hide FromLe;
    FromLeBounds(b[0..8]);
    FromLeBounds(b[8..16]);
    FromLeBounds(b[16..24]);
    FromLeBounds(b[24..32]);
    FromLeBounds(b[32..40]);
    FromLeBounds(b[40..48]);
    FromLeBounds(b[48..52]);
    FromLeBounds(b[52..56]);
  }

  /** Bytes of the footer that the burst does not touch. */
  lemma FooterBytesKept(file: Bytes, damaged: Bytes, at: nat, n: nat, from: nat, to: nat)
    requires |file| >= FOOTER_SIZE && from <= to <= FOOTER_SIZE && Burst(file, damaged, at, n)
    requires at + n <= |file| - FOOTER_SIZE + from || |file| - FOOTER_SIZE + to <= at
    ensures Tail(damaged)[from..to] == Tail(file)[from..to]
  {
    assert |damaged| == |file|;
    hide Burst;
    var base := |file| - FOOTER_SIZE;
    BurstWithin(file, damaged, at, n, base + from, base + to);
    assert Tail(file)[from..to] == file[base + from..base + to];
    assert Tail(damaged)[from..to] == damaged[base + from..base + to];
  }

  /** Whatever four bytes are changed: if the offsets still tile the file, they are what they were. */
  lemma OffsetsSurvive(file: Bytes, damaged: Bytes, at: nat, n: nat)
    requires FOOTER_SIZE <= |file| < U64 && Burst(file, damaged, at, n)
    requires Tiles(ParseFooter(Tail(file)), |file|) && Tiles(ParseFooter(Tail(damaged)), |file|)
    ensures SameOffsets(ParseFooter(Tail(file)), ParseFooter(Tail(damaged)))
  {
    assert n <= 4;
    hide FromLe, Burst, Tiles, Tail;
    var base := |file| - FOOTER_SIZE;
    var i := if at < base then 0 else (at - base) / 8;
    if i != 0 && i != 1 {
      FooterBytesKept(file, damaged, at, n, 8, 16);
    }
    if i != 1 && i != 2 {
      FooterBytesKept(file, damaged, at, n, 16, 24);
    }
    if i != 2 && i != 3 {
      FooterBytesKept(file, damaged, at, n, 24, 32);
    }
    if i != 3 && i != 4 {
      FooterBytesKept(file, damaged, at, n, 32, 40);
    }
    if i != 4 && i != 5 {
      FooterBytesKept(file, damaged, at, n, 40, 48);
    }
    FooterIsNarrow(Tail(file));
    FooterIsNarrow(Tail(damaged));
    TilesRigid(ParseFooter(Tail(file)), ParseFooter(Tail(damaged)), |file|, i);
  }

  // ---------- a written file, damaged ----------

  /** Where the data section of the file of es ends. */
  function DataEndOf(es: seq<Entry>): nat
  {
    TABLE_HEADER_SIZE + |EncodeAll(es)|
  }

  /** The sections of a written file, and what its footer says. */
  lemma WrittenSections(es: seq<Entry>, p: Shape)
    requires Fits(es, p)
    ensures var file := TableBytes(es, p);
            var index, bloom := IndexBlock(SparseOf(es, p.interval)), Sealed(BloomRaw(FilterBits(es, p), p.hashes));
            var f := FooterOf(|EncodeAll(es)|, |index|, |bloom|, |es|);
            && |file| == DataEndOf(es) + |index| + |bloom| + FOOTER_SIZE < U64
            && file[..TABLE_HEADER_SIZE] == TableHeader()
            && file[DataEndOf(es)..DataEndOf(es) + |index|] == index
            && file[DataEndOf(es) + |index|..|file| - FOOTER_SIZE] == bloom
            && ParseFooter(Tail(file)) == f && Tiles(f, |file|)
            && FromLe(Tail(file)[56..64]) == FOOTER_MAGIC
  {
    hide Le, FromLe, EncodeAll, IndexBlock, Sealed, FilterBits, SparseOf, Assemble, FooterBytes, ParseFooter, TableHeader;
    var data, index, bloom := EncodeAll(es), IndexBlock(SparseOf(es, p.interval)), Sealed(BloomRaw(FilterBits(es, p), p.hashes));
    var f := FooterOf(|data|, |index|, |bloom|, |es|);
    AssembledSections(data, index, bloom, |es|);
    FooterRoundTrip(f);
    SumsFit(f, |TableBytes(es, p)|);
  }

  /** What a file with these offsets is refused for. */
  lemma RefusedFor(file: Bytes, f: Footer)
    requires |file| >= TABLE_HEADER_SIZE + FOOTER_SIZE
    requires f.indexOffset + f.indexSize == f.bloomOffset && f.bloomOffset + f.bloomSize <= |file|
    ensures !Tiles(ParseFooter(Tail(file)), |file|) ==> LoadTable(file) == BadTable
    ensures SameOffsets(f, ParseFooter(Tail(file)))
            && (ParseIndex(file[f.indexOffset..f.bloomOffset]) == BadIndex
                || LoadBloom(file[f.bloomOffset..f.bloomOffset + f.bloomSize]) == Invalid)
            ==> LoadTable(file) == BadTable
  {
    hide Le, FromLe, ParseFooter, Tiles, ParseIndex, LoadBloom;
    assert Tail(file) == file[|file| - FOOTER_SIZE..];
    assert Take(file, f.indexOffset, f.indexSize) == file[f.indexOffset..f.bloomOffset];
    assert Take(file, f.bloomOffset, f.bloomSize) == file[f.bloomOffset..f.bloomOffset + f.bloomSize];
  }

  lemma OffsetsDetermine(b: Bytes, c: Bytes)
    requires |b| == |c| == FOOTER_SIZE && SameOffsets(ParseFooter(b), ParseFooter(c))
    ensures b[..48] == c[..48]
  {
    hide FromLe;
    FromLeInjective(b[0..8], c[0..8]);
    FromLeInjective(b[8..16], c[8..16]);
    FromLeInjective(b[16..24], c[16..24]);
    FromLeInjective(b[24..32], c[24..32]);
    FromLeInjective(b[32..40], c[32..40]);
    FromLeInjective(b[40..48], c[40..48]);
    assert b[..48] == b[0..8] + b[8..16] + b[16..24] + b[24..32] + b[32..40] + b[40..48];
    assert c[..48] == c[0..8] + c[8..16] + c[16..24] + c[24..32] + c[32..40] + c[40..48];
  }

  lemma PiecesDetermine(s: Bytes, t: Bytes, a: nat, b: nat, c: nat)
    requires a <= b <= c && c + FOOTER_SIZE == |s| == |t|
    requires t[0..a] == s[0..a] && t[a..b] == s[a..b] && t[b..c] == s[b..c]
    requires Tail(t)[..48] == Tail(s)[..48] && Tail(t)[48..64] == Tail(s)[48..64]
    ensures t == s
  {
    assert s == s[0..a] + s[a..b] + s[b..c] + (Tail(s)[..48] + Tail(s)[48..64]);
    assert t == t[0..a] + t[a..b] + t[b..c] + (Tail(t)[..48] + Tail(t)[48..64]);
  }

  /** A file of which the sections between a, b and c are an index block and a sealed filter. */
  lemma SectionsBurst(file: Bytes, damaged: Bytes, at: nat, n: nat, f: Footer, index: seq<IndexEntry>, raw: Bytes)
    requires |file| == f.bloomOffset + f.bloomSize + FOOTER_SIZE < U64 && f.indexOffset + f.indexSize == f.bloomOffset
    requires 16 <= f.indexOffset && SameOffsets(ParseFooter(Tail(file)), f) && Tiles(ParseFooter(Tail(file)), |file|)
    requires file[f.indexOffset..f.bloomOffset] == IndexBlock(index)
    requires file[f.bloomOffset..|file| - FOOTER_SIZE] == Sealed(raw)
    requires Burst(file, damaged, at, n) && f.indexOffset <= at && at + n <= |file| - 16
    ensures LoadTable(damaged) == BadTable
  {
    hide IndexBlock, Sealed, LoadTable, ParseIndex, LoadBloom, Tiles, ParseFooter, Tail, FromLe;
    assert |damaged| == |file| && damaged != file;
    hide Burst;
    var a, b, c := f.indexOffset, f.bloomOffset, |file| - FOOTER_SIZE;
    RefusedFor(damaged, f);
    BurstWithin(file, damaged, at, n, 0, a);
    BurstWithin(file, damaged, at, n, a, b);
    BurstWithin(file, damaged, at, n, b, c);
    FooterBytesKept(file, damaged, at, n, 48, 64);
    if Tiles(ParseFooter(Tail(damaged)), |damaged|) {
      OffsetsSurvive(file, damaged, at, n);
      if x: nat, y: nat :| Burst(file[a..b], damaged[a..b], x, y) {
        DamagedIndex(index, damaged[a..b], x, y);
      } else if x: nat, y: nat :| Burst(file[b..c], damaged[b..c], x, y) {
        DamagedFilter(raw, damaged[b..c], x, y);
      } else {
        OffsetsDetermine(Tail(file), Tail(damaged));
        PiecesDetermine(file, damaged, a, b, c);
      }
    }
  }

  /** Index, filter and the offsets of the footer. */
  lemma SectionBurst(es: seq<Entry>, p: Shape, damaged: Bytes, at: nat, n: nat)
    requires p.interval > 0 && Fits(es, p) && Burst(TableBytes(es, p), damaged, at, n)
    requires DataEndOf(es) <= at && at + n <= |TableBytes(es, p)| - 16
    ensures LoadTable(damaged) == BadTable
  {
    hide TableBytes, Fits, EncodeAll, IndexBlock, Sealed, BloomRaw, FilterBits, SparseOf, LoadTable, Tiles, ParseFooter, Tail,
      FromLe, Le, Burst;
    var index, raw := SparseOf(es, p.interval), BloomRaw(FilterBits(es, p), p.hashes);
    var f := FooterOf(|EncodeAll(es)|, |IndexBlock(index)|, |Sealed(raw)|, |es|);
    WrittenSections(es, p);
    SectionsBurst(TableBytes(es, p), damaged, at, n, f, index, raw);
  }

  /** Header flags, records, and the record count and flags of the footer. */
  lemma Unchecked(es: seq<Entry>, p: Shape, damaged: Bytes, at: nat, n: nat)
    requires p.interval > 0 && Fits(es, p) && Burst(TableBytes(es, p), damaged, at, n)
    requires 12 <= at && at + n <= DataEndOf(es)
    ensures LoadTable(damaged) == LoadTable(TableBytes(es, p))
  {
    hide TableBytes, Fits, EncodeAll, IndexBlock, Sealed, BloomRaw, FilterBits, SparseOf, ParseIndex, LoadBloom,
      Tiles, ParseFooter, FromLe, Le, TableHeader;
    var file := TableBytes(es, p);
    WrittenSections(es, p);
    var a := DataEndOf(es);
    BurstWithin(file, damaged, at, n, 0, 12);
    BurstWithin(file, damaged, at, n, a, |file|);
    assert damaged[0..8] == damaged[0..12][0..8] && damaged[8..12] == damaged[0..12][8..12];
    assert file[0..8] == file[0..12][0..8] && file[8..12] == file[0..12][8..12];
    SameRest(file, damaged, a);
  }

  lemma SameRest(s: Bytes, t: Bytes, a: nat)
    requires |s| == |t| && a <= |s| && t[a..|s|] == s[a..|s|]
    ensures forall i: nat, m: nat :: i >= a ==> Take(t, i, m) == Take(s, i, m)
    ensures |s| - FOOTER_SIZE >= a ==> Tail(t) == Tail(s)
  {
    forall i: nat, e: nat | a <= i <= e <= |s|
      ensures t[i..e] == s[i..e]
    {
      SamePart(s, t, a, i, e);
    }
    forall i: nat, m: nat | i >= a
      ensures Take(t, i, m) == Take(s, i, m)
    {
      assert i < |s| ==> Take(t, i, m) == t[i..if i + m <= |s| then i + m else |s|];
      assert i < |s| ==> Take(s, i, m) == s[i..if i + m <= |s| then i + m else |s|];
    }
    if |s| - FOOTER_SIZE >= a {
      assert Tail(t) == t[|s| - FOOTER_SIZE..|s|] && Tail(s) == s[|s| - FOOTER_SIZE..|s|];
    }
  }

  lemma SamePart(s: Bytes, t: Bytes, a: nat, from: nat, to: nat)
    requires |s| == |t| && a <= from <= to <= |s| && t[a..|s|] == s[a..|s|]
    ensures t[from..to] == s[from..to]
  {
    forall j | 0 <= j < to - from
      ensures t[from..to][j] == s[from..to][j]
    {
      assert t[a..|s|][from - a + j] == s[a..|s|][from - a + j];
    }
  }

  lemma MagicBurst(es: seq<Entry>, p: Shape, damaged: Bytes, at: nat, n: nat)
    requires p.interval > 0 && Fits(es, p) && Burst(TableBytes(es, p), damaged, at, n)
    requires |TableBytes(es, p)| - 8 <= at
    ensures LoadTable(damaged) == BadTable
  {
    hide TableBytes, Fits, EncodeAll, IndexBlock, Sealed, BloomRaw, FilterBits, SparseOf, LoadSections, Tiles, ParseFooter,
      FromLe, Le, TableHeader;
    var file := TableBytes(es, p);
    WrittenSections(es, p);
    BurstWithin(file, damaged, at, n, 0, |file| - 8);
    SameEnd(file, damaged);
    if FromLe(Tail(damaged)[56..64]) == FOOTER_MAGIC {
      FromLeInjective(Tail(damaged)[56..64], Tail(file)[56..64]);
    }
  }

  lemma SameEnd(s: Bytes, t: Bytes)
    requires |s| == |t| >= FOOTER_SIZE && t[0..|s| - 8] == s[0..|s| - 8]
    ensures Tail(t)[56..64] == Tail(s)[56..64] ==> t == s
  {
    assert s == s[0..|s| - 8] + Tail(s)[56..64];
    assert t == t[0..|s| - 8] + Tail(t)[56..64];
  }

  /** Which damage is noticed when a written file is opened: every change inside four consecutive
      bytes of magic numbers, version, index, filter and offsets. Damage in the records, and in
      the flags of the header, makes no difference to opening. */
  lemma DamageOnOpening(es: seq<Entry>, p: Shape, damaged: Bytes, at: nat, n: nat)
    requires p.interval > 0 && Fits(es, p) && Burst(TableBytes(es, p), damaged, at, n)
    ensures var dataEnd, size := 16 + |EncodeAll(es)|, |TableBytes(es, p)|;
            && (at + n <= 12 || (dataEnd <= at && at + n <= size - 16) || size - 8 <= at ==> LoadTable(damaged) == BadTable)
            && (12 <= at && at + n <= dataEnd ==> LoadTable(damaged) == LoadTable(TableBytes(es, p)))
  {
    hide TableBytes, Fits, EncodeAll, LoadTable, Burst;
    var dataEnd, size := DataEndOf(es), |TableBytes(es, p)|;
    if at + n <= 12 {
      WrittenSections(es, p);
      HeaderBurst(TableBytes(es, p), damaged, at, n);
    }
    if dataEnd <= at && at + n <= size - 16 {
      SectionBurst(es, p, damaged, at, n);
    }
    if size - 8 <= at {
      MagicBurst(es, p, damaged, at, n);
    }
    if 12 <= at && at + n <= dataEnd {
      Unchecked(es, p, damaged, at, n);
    }
  }

  // ---------- a damaged record ----------

  /** The table file of es, changed inside at most four consecutive bytes of key, value and
      checksum of record k. */
  ghost predicate DamagedRecord(damaged: Bytes, es: seq<Entry>, p: Shape, k: nat, at: nat, n: nat)
    requires p.interval > 0
  {
    && k < |es| && Burst(TableBytes(es, p), damaged, at, n)
    && Offset(es, k) + HEADER_SIZE <= at && at + n <= Offset(es, k + 1)
  }

  /** Where record k is in a written file. */
  lemma RecordPlace(es: seq<Entry>, p: Shape, k: nat)
    requires p.interval > 0 && Fits(es, p) && k < |es|
    ensures 16 <= Offset(es, k) && Offset(es, k) + RecordSize(es[k]) == Offset(es, k + 1)
    ensures Offset(es, k + 1) <= Offset(es, |es|) == 16 + |EncodeAll(es)| <= |TableBytes(es, p)|
    ensures TableBytes(es, p)[Offset(es, k)..Offset(es, k + 1)] == Encode(es[k])
    ensures Encodable(es[k]) && Canonical(es[k])
  {
    hide TableBytes, EncodeAll, Encode;
    assert es[k] in es;
    var rest := DataTail(es, p, k, k + 1);
    var _ := DataTail(es, p, |es|, |es|);
    assert es[..|es|] == es && es[k..k + 1] == [es[k]];
    EncodeAllOne(es[k]);
    assert es[..k + 1] == es[..k] + [es[k]];
    EncodeAllConcat(es[..k], [es[k]]);
    OffsetBound(es, k + 1);
    var s := TableBytes(es, p)[Offset(es, k)..];
    assert s[..RecordSize(es[k])] == Encode(es[k]);
  }

  /** What a reader finds at the place of the damaged record, and around it. */
  lemma DamagedParts(damaged: Bytes, es: seq<Entry>, p: Shape, k: nat, at: nat, n: nat)
    requires p.interval > 0 && k < |es| && Fits(es, p) && DamagedRecord(damaged, es, p, k, at, n)
    ensures Offset(es, k) < Offset(es, k + 1) <= |damaged| == |TableBytes(es, p)|
    ensures FrontBroken(damaged[Offset(es, k)..], es[k])
    ensures damaged[..Offset(es, k)] == TableBytes(es, p)[..Offset(es, k)]
    ensures damaged[Offset(es, k + 1)..] == TableBytes(es, p)[Offset(es, k + 1)..]
    ensures LoadTable(damaged) == LoadTable(TableBytes(es, p))
  {
    hide TableBytes, Fits, EncodeAll, LoadTable, Encode, Offset, FrontBroken;
    var file, from, to := TableBytes(es, p), Offset(es, k), Offset(es, k + 1);
    RecordPlace(es, p, k);
    DamageOnOpening(es, p, damaged, at, n);
    BurstOutside(file, damaged, at, n, from, to);
    BrokenAt(es[k], file[from..to], damaged[from..to], damaged[to..], at - from, n);
    assert damaged[from..to] + damaged[to..] == damaged[from..];
  }

  /** A burst in a part of a file leaves the rest alone, and is one in that part. */
  lemma BurstOutside(s: Bytes, t: Bytes, at: nat, n: nat, from: nat, to: nat)
    requires Burst(s, t, at, n) && from <= at && at + n <= to <= |s|
    ensures t[..from] == s[..from] && t[to..] == s[to..] && Burst(s[from..to], t[from..to], at - from, n)
  {
    assert t[..from] == t[..at][..from] && s[..from] == s[..at][..from];
    assert t[to..] == t[at + n..][to - (at + n)..] && s[to..] == s[at + n..][to - (at + n)..];
    assert t[from..at] == t[..at][from..] && s[from..at] == s[..at][from..];
    assert t[at + n..to] == t[at + n..][..to - (at + n)] && s[at + n..to] == s[at + n..][..to - (at + n)];
    var x, y := s[from..to], t[from..to];
    assert x[..at - from] == s[from..at] && y[..at - from] == t[from..at];
    assert x[at - from + n..] == s[at + n..to] && y[at - from + n..] == t[at + n..to];
    assert s == s[..from] + x + s[to..] && t == t[..from] + y + t[to..];
  }

  /** A burst behind the header of an encoded record breaks it. */
  lemma BrokenAt(e: Entry, whole: Bytes, damaged: Bytes, rest: Bytes, at: nat, n: nat)
    requires Encodable(e) && whole == Encode(e) && Burst(whole, damaged, at, n) && at >= HEADER_SIZE
    ensures FrontBroken(damaged + rest, e)
  {
    hide Le, Crc32, FrontBroken;
    var header := Header(e.kind, |e.key|, |StoredValue(e)|);
    assert whole == header + Payload(e);
    BurstOutside(whole, damaged, at, n, HEADER_SIZE, |whole|);
    var before, u, v, after := BurstParts(whole[HEADER_SIZE..|whole|], damaged[HEADER_SIZE..|whole|], at - HEADER_SIZE, n);
    assert damaged == damaged[..HEADER_SIZE] + damaged[HEADER_SIZE..|whole|];
    TamperedIsBroken(e, before, u, v, after, rest);
  }

  // ---------- look-ups in a damaged file ----------

  /** The scan ends before it has passed all of the records. */
  predicate StopsIn(es: seq<Entry>, key: Key)
  {
    exists i :: 0 <= i < |es| && !Less(es[i].key, key)
  }

  /** A scan of records in front of something that breaks it. */
  lemma {:induction false} ScanToBroken(es: seq<Entry>, s: Bytes, n: int, key: Key)
    requires forall e :: e in es ==> Encodable(e) && Canonical(e)
    requires n > |EncodeAll(es)| && forall m :: m > 0 ==> ScanBytes(s, m, key) == Broken
    ensures ScanBytes(EncodeAll(es) + s, n, key) == if StopsIn(es, key) then Answered(Scan(es, key)) else Broken
  {
    hide ScanBytes, Encode;
    if es == [] {
      assert EncodeAll(es) + s == s;
    } else {
      var rest := EncodeAll(es[1..]) + s;
      assert EncodeAll(es) + s == Encode(es[0]) + rest;
      ScanFirst(es[0], rest, n, key);
      ScanToBroken(es[1..], s, n - RecordSize(es[0]), key);
      StopsLater(es, key);
    }
  }

  lemma StopsLater(es: seq<Entry>, key: Key)
    requires es != []
    ensures StopsIn(es, key) <==> !Less(es[0].key, key) || StopsIn(es[1..], key)
    ensures es[0].key == key || Less(key, es[0].key) <==> !Less(es[0].key, key)
  {
    LessTotal(key, es[0].key);
    LessIrreflexive(key);
    if Less(key, es[0].key) {
      LessAsymmetric(key, es[0].key);
    }
    if StopsIn(es[1..], key) {
      var i :| 0 <= i < |es[1..]| && !Less(es[1..][i].key, key);
      assert es[i + 1] == es[1..][i];
    }
    if StopsIn(es, key) && Less(es[0].key, key) {
      var i :| 0 <= i < |es| && !Less(es[i].key, key);
      assert es[1..][i - 1] == es[i];
    }
  }

  /** The records on one side of the damage are as they were written. */
  lemma UndamagedRange(damaged: Bytes, es: seq<Entry>, p: Shape, k: nat, at: nat, n: nat, lo: nat, hi: nat)
    requires p.interval > 0 && k < |es| && Fits(es, p) && DamagedRecord(damaged, es, p, k, at, n)
    requires lo <= hi <= |es| && (hi <= k || k < lo)
    ensures Offset(es, lo) <= Offset(es, hi) <= |damaged|
    ensures damaged[Offset(es, lo)..] == EncodeAll(es[lo..hi]) + damaged[Offset(es, hi)..]
    ensures Offset(es, hi) == Offset(es, lo) + |EncodeAll(es[lo..hi])|
  {
    hide TableBytes, Fits, EncodeAll, LoadTable, FrontBroken, DamagedRecord;
    var file := TableBytes(es, p);
    DamagedParts(damaged, es, p, k, at, n);
    var rest := DataTail(es, p, lo, hi);
    OffsetSum(es, lo, hi);
    var a, b := Offset(es, lo), Offset(es, hi);
    assert file[a..b] == file[a..][..b - a] == EncodeAll(es[lo..hi]);
    if hi <= k {
      OffsetSum(es, hi, k);
      assert damaged[a..b] == damaged[..Offset(es, k)][a..b] && file[a..b] == file[..Offset(es, k)][a..b];
    } else {
      var c := Offset(es, k + 1);
      OffsetSum(es, k + 1, lo);
      assert damaged[a..b] == damaged[c..][a - c..b - c] && file[a..b] == file[c..][a - c..b - c];
    }
    assert damaged[a..] == damaged[a..b] + damaged[b..];
  }

  lemma OffsetSum(es: seq<Entry>, lo: nat, hi: nat)
    requires lo <= hi <= |es|
    ensures Offset(es, hi) == Offset(es, lo) + |EncodeAll(es[lo..hi])|
  {
    hide EncodeAll;
    assert es[..hi] == es[..lo] + es[lo..hi];
    EncodeAllConcat(es[..lo], es[lo..hi]);
  }

  lemma BrokenStaysBroken(s: Bytes, e: Entry, key: Key)
    requires FrontBroken(s, e)
    ensures forall m :: m > 0 ==> ScanBytes(s, m, key) == Broken
  {
    hide FrontIntact, FromLe;
  }

  /** The outcome of the look-up of a key in a table with record k damaged: the true answer, or the
      damage is noticed, which it is for the key of that record and is not for the keys up to the
      record before. */
  ghost predicate HonestScan(scanned: Scanned, es: seq<Entry>, k: nat, key: Key)
    requires k < |es|
  {
    && (scanned == Broken || scanned == Answered(Answer(LayerOf(es), key)))
    && (key == es[k].key ==> scanned == Broken)
    && (k > 0 && LessEq(key, es[k - 1].key) ==> scanned != Broken)
  }

  /** A scan of records lo .. hi that does not meet the damage. */
  lemma ScanElsewhere(damaged: Bytes, es: seq<Entry>, p: Shape, k: nat, at: nat, n: nat, key: Key, lo: nat, hi: nat)
    requires p.interval > 0 && k < |es| && Fits(es, p) && Sorted(es) && DamagedRecord(damaged, es, p, k, at, n)
    requires lo <= hi <= |es| && (k < lo || hi <= k) && Scan(es[lo..hi], key) == Scan(es, key)
    ensures Offset(es, lo) <= |damaged|
    ensures HonestScan(ScanBytes(damaged[Offset(es, lo)..], Offset(es, hi) - Offset(es, lo), key), es, k, key)
  {
    hide Fits, DamagedRecord, ScanBytes, Scan, EncodeAll, Offset, TableBytes, LayerOf, Answer, Less;
    ScanFinds(es, key);
    UndamagedRange(damaged, es, p, k, at, n, lo, hi);
    RangeRecords(es, p, lo, hi);
    ScanOfEncoded(es[lo..hi], damaged[Offset(es, hi)..], key);
    NotElsewhere(es, lo, hi, k, key);
  }

  /** A scan of records lo .. hi with the damaged one among them. */
  lemma ScanHere(damaged: Bytes, es: seq<Entry>, p: Shape, k: nat, at: nat, n: nat, key: Key, lo: nat, hi: nat)
    requires p.interval > 0 && k < |es| && Fits(es, p) && Sorted(es) && DamagedRecord(damaged, es, p, k, at, n)
    requires lo <= k < hi <= |es| && Scan(es[lo..hi], key) == Scan(es, key)
    requires 0 < lo < |es| ==> LessEq(es[lo].key, key)
    ensures Offset(es, lo) <= |damaged|
    ensures HonestScan(ScanBytes(damaged[Offset(es, lo)..], Offset(es, hi) - Offset(es, lo), key), es, k, key)
  {
    hide Fits, DamagedRecord, ScanBytes, Scan, EncodeAll, Offset, TableBytes, LayerOf, Answer, FrontBroken, Less, StopsIn;
    ScanFinds(es, key);
    RecordPlace(es, p, k);
    UndamagedRange(damaged, es, p, k, at, n, lo, k);
    RangeRecords(es, p, lo, hi);
    OffsetSum(es, k + 1, hi);
    ScanMeets(damaged, es, p, k, at, n, key, es[lo..k], Offset(es, hi) - Offset(es, lo));
    StopsBefore(es, lo, hi, k, key);
  }

  lemma ScanMeets(damaged: Bytes, es: seq<Entry>, p: Shape, k: nat, at: nat, n: nat, key: Key, before: seq<Entry>, m: int)
    requires p.interval > 0 && k < |es| && Fits(es, p) && DamagedRecord(damaged, es, p, k, at, n)
    requires (forall e :: e in before ==> Encodable(e) && Canonical(e)) && m > |EncodeAll(before)|
    ensures Offset(es, k) <= |damaged|
    ensures ScanBytes(EncodeAll(before) + damaged[Offset(es, k)..], m, key)
         == if StopsIn(before, key) then Answered(Scan(before, key)) else Broken
  {
    hide Fits, DamagedRecord, ScanBytes, Scan, EncodeAll, Offset, TableBytes, FrontBroken, StopsIn, Encodable, Canonical;
    DamagedParts(damaged, es, p, k, at, n);
    BrokenStaysBroken(damaged[Offset(es, k)..], es[k], key);
    ScanToBroken(before, damaged[Offset(es, k)..], m, key);
  }

  lemma DamagedLookup(damaged: Bytes, es: seq<Entry>, p: Shape, k: nat, at: nat, n: nat, key: Key, i: nat)
    requires p.interval > 0 && k < |es| && Fits(es, p) && Sorted(es) && DamagedRecord(damaged, es, p, k, at, n)
    requires i <= |SparseOf(es, p.interval)| && IsUpperBound(SparseOf(es, p.interval), key, i)
    ensures var (start, end) := RangeAt(SparseOf(es, p.interval), i, 16 + |EncodeAll(es)|);
            start <= |damaged| && HonestScan(ScanBytes(damaged[start..], end - start, key), es, k, key)
  {
    hide Fits, DamagedRecord, ScanBytes, Scan, EncodeAll, RangeAt, SparseOf, Offset, TableBytes, HonestScan, Less, IsUpperBound;
    assert es[..|es|] == es;
    var lo, hi := RangeSuffices(es, p.interval, key, i);
    RecordPlace(es, p, k);
    if k < lo || hi <= k {
      ScanElsewhere(damaged, es, p, k, at, n, key, lo, hi);
    } else {
      ScanHere(damaged, es, p, k, at, n, key, lo, hi);
    }
  }

  lemma RangeRecords(es: seq<Entry>, p: Shape, lo: nat, hi: nat)
    requires p.interval > 0 && Fits(es, p) && lo <= hi <= |es|
    ensures forall e :: e in es[lo..hi] ==> Encodable(e) && Canonical(e)
    ensures forall k :: lo <= k <= hi ==> forall e :: e in es[lo..k] ==> Encodable(e) && Canonical(e)
  {
    hide TableBytes, ByteCount, Encodable, Canonical;
  }

  /** A look-up that does not read record k is not for its key. */
  lemma NotElsewhere(es: seq<Entry>, lo: nat, hi: nat, k: nat, key: Key)
    requires Sorted(es) && lo <= hi <= |es| && k < |es| && (k < lo || hi <= k)
    requires Scan(es[lo..hi], key) == Scan(es, key) == Answer(LayerOf(es), key)
    ensures key != es[k].key
  {
    hide LayerOf;
    if key == es[k].key {
      LayerOfKeys(es, key);
      forall i | 0 <= i < hi - lo
        ensures es[lo..hi][i].key != key
      {
        OtherKey(es, lo + i, k);
      }
      ScanAmong(es[lo..hi], key);
    }
  }

  lemma OtherKey(es: seq<Entry>, i: nat, k: nat)
    requires Sorted(es) && i < |es| && k < |es| && i != k
    ensures es[i].key != es[k].key
  {
    LessIrreflexive(es[k].key);
  }

  lemma {:induction false} ScanAmong(es: seq<Entry>, key: Key)
    ensures Scan(es, key) != Absent ==> exists i :: 0 <= i < |es| && es[i].key == key
  {
    if es != [] && es[0].key != key {
      ScanAmong(es[1..], key);
      if Scan(es, key) != Absent {
        var i :| 0 <= i < |es[1..]| && es[1..][i].key == key;
        assert es[i + 1].key == key;
      }
    }
  }

  /** Where the scan of a range stops that holds record k. */
  lemma StopsBefore(es: seq<Entry>, lo: nat, hi: nat, k: nat, key: Key)
    requires Sorted(es) && lo <= k < hi <= |es|
    requires 0 < lo < |es| ==> LessEq(es[lo].key, key)
    ensures StopsIn(es[lo..k], key) ==> Scan(es[lo..k], key) == Scan(es[lo..hi], key) && key != es[k].key
    ensures k > 0 && LessEq(key, es[k - 1].key) ==> StopsIn(es[lo..k], key)
  {
    var part := es[lo..hi];
    assert part[..k - lo] == es[lo..k];
    SortedPrefix(es, hi);
    SortedPrefix(es[..hi], lo);
    assert es[..hi][lo..] == part;
    if StopsIn(es[lo..k], key) {
      var i :| 0 <= i < k - lo && !Less(es[lo..k][i].key, key);
      NotAbove(es[lo + i].key, key, es[k].key);
      ScanStops(part, k - lo, key);
      LessIrreflexive(key);
    }
    if k > 0 && LessEq(key, es[k - 1].key) {
      if k > lo {
        AtMostIsNotLess(key, es[k - 1].key);
        assert es[lo..k][k - 1 - lo] == es[k - 1];
      } else {
        BetweenNothing(es[k - 1].key, key, es[k].key);
      }
    }
  }

  lemma NotAbove(a: Key, key: Key, b: Key)
    requires !Less(a, key) && Less(a, b)
    ensures Less(key, b)
  {
    LessTotal(a, key);
    if Less(key, a) {
      LessTransitive(key, a, b);
    }
  }

  lemma AtMostIsNotLess(key: Key, a: Key)
    requires LessEq(key, a)
    ensures !Less(a, key)
  {
    LessIrreflexive(a);
    if Less(key, a) {
      LessAsymmetric(key, a);
    }
  }

  lemma BetweenNothing(a: Key, key: Key, b: Key)
    requires LessEq(key, a) && Less(a, b)
    ensures !LessEq(b, key)
  {
    LessAsymmetric(a, b);
    if Less(b, key) && Less(key, a) {
      LessTransitive(b, key, a);
    }
  }

  /** A written table, changed inside at most four consecutive bytes of key, value and checksum of
      its record k. */
  ghost predicate DamagedTable(damaged: Bytes, es: seq<Entry>, k: nat)
  {
    k < |es| && Sorted(es) && exists p, at, n :: DamageOf(damaged, es, p, k, at, n)
  }

  ghost predicate DamageOf(damaged: Bytes, es: seq<Entry>, p: Shape, k: nat, at: nat, n: nat)
  {
    p.interval > 0 && Fits(es, p) && DamagedRecord(damaged, es, p, k, at, n)
  }

  lemma DamagePlace(damaged: Bytes, es: seq<Entry>, k: nat) returns (p: Shape, at: nat, n: nat)
    requires DamagedTable(damaged, es, k)
    ensures p.interval > 0 && k < |es| && Fits(es, p) && Sorted(es) && DamagedRecord(damaged, es, p, k, at, n)
    ensures LoadTable(damaged) == LoadTable(TableBytes(es, p)) && IsTable(TableBytes(es, p), es)
  {
    hide Fits, DamagedRecord, TableBytes, LoadTable;
    p, at, n :| DamageOf(damaged, es, p, k, at, n);
    DamagedParts(damaged, es, p, k, at, n);
  }

  /** The records in front of the damaged one are read as they were written. */
  lemma ReadBefore(damaged: Bytes, es: seq<Entry>, k: nat, j: nat)
    requires DamagedTable(damaged, es, k) && j < k
    ensures Offset(es, j) < |damaged|
    ensures var s := damaged[Offset(es, j)..];
            && |s| >= HEADER_SIZE && |s| >= BodySize(s) + CRC_SIZE && FrontIntact(s)
            && s[0] == KindCode(es[j].kind) && FrontKey(s) == es[j].key && FrontValue(s) == es[j].value
            && Offset(es, j) + BodySize(s) + CRC_SIZE == Offset(es, j + 1)
  {
    hide Le, FromLe, Crc32, Encode, EncodeAll, TableBytes, FrontIntact, FrontKey, FrontValue, BodySize, Fits,
      DamagedRecord, LoadTable;
    var p, at, n := DamagePlace(damaged, es, k);
    RecordPlace(es, p, j);
    UndamagedRange(damaged, es, p, k, at, n, j, j + 1);
    var rest := damaged[Offset(es, j + 1)..];
    assert es[j..j + 1] == [es[j]];
    EncodeAllOne(es[j]);
    FrontOfEncoded(es[j], rest);
    FrontSize(es[j], rest);
  }

  /** The damaged record is not. */
  lemma ReadBroken(damaged: Bytes, es: seq<Entry>, k: nat)
    requires DamagedTable(damaged, es, k)
    ensures Offset(es, k) < |damaged| && FrontBroken(damaged[Offset(es, k)..], es[k])
    ensures Offset(es, k) < 16 + |EncodeAll(es)|
  {
    hide TableBytes, Fits, DamagedRecord, LoadTable, FrontBroken, EncodeAll, Offset;
    var p, at, n := DamagePlace(damaged, es, k);
    DamagedParts(damaged, es, p, k, at, n);
    RecordPlace(es, p, k);
  }
}
