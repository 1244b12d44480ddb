/** What a replay of the write-ahead log delivers, and the laws that recovery rests on. */
module Logs {
  import opened Bytes
  import opened Crc
  import opened Entries
  import opened Records

  const MAX_KEY: nat := 16 * 1024 * 1024
  const MAX_VALUE: nat := 64 * 1024 * 1024

  datatype Outcome = Clean | Truncated | Corrupt

  datatype Replay = Replay(records: seq<Entry>, outcome: Outcome)

  datatype Front = Delivered(entry: Entry, size: nat) | Short | Bad

  predicate InLimits(e: Entry)
  {
    |e.key| <= MAX_KEY && |StoredValue(e)| <= MAX_VALUE
  }

  predicate Loggable(e: Entry)
  {
    InLimits(e) && Canonical(e)
  }

  /** The record at the front of what is left of the log. */
  function ReadRecord(s: Bytes): (r: Front)
    ensures r.Delivered? ==> 0 < r.size <= |s|
  {
    if |s| < HEADER_SIZE then Short
    else if s[0] != KindCode(Put) && s[0] != KindCode(Tombstone) then Bad
    else if KeyLength(s) > MAX_KEY || ValueLength(s) > MAX_VALUE then Bad
    else if |s| < BodySize(s) + CRC_SIZE then Short
    else if !FrontIntact(s) then Bad
    else Delivered(Entry(FrontKey(s), FrontValue(s), if s[0] == KindCode(Put) then Put else Tombstone),
                   BodySize(s) + CRC_SIZE)
  }

  /** The bytes of a record with its value as it is, which for a deletion no writer produces. */
  function Raw(e: Entry): (b: Bytes)
    ensures |b| == HEADER_SIZE + |e.key| + |e.value| + CRC_SIZE
  {
    var body := Header(e.kind, |e.key|, |e.value|) + e.key + e.value;
    body + Le(Crc32(body), CRC_SIZE)
  }

  /** What is left of the log starts with the bytes of e. */
  ghost predicate StartsWith(s: Bytes, e: Entry)
  {
    |e.key| <= 0x100_0000 && |e.value| <= 0x400_0000 && Raw(e) <= s
  }

  /** A record is delivered if and only if its bytes are there, within 16 MiB for the key and 64 MiB
      for the value. */
  lemma DeliveredIff(s: Bytes, e: Entry, size: nat)
    ensures ReadRecord(s) == Delivered(e, size) <==> StartsWith(s, e) && size == |Raw(e)|
  {
    hide Le, FromLe, Crc32, FrontIntact, Header, Raw;
    if StartsWith(s, e) {
      RawIsRead(s, e);
    }
    if ReadRecord(s) == Delivered(e, size) {
      ReadIsRaw(s, e);
    }
  }

  lemma RawIsRead(s: Bytes, e: Entry)
    requires StartsWith(s, e)
    ensures ReadRecord(s) == Delivered(e, |Raw(e)|)
  {
    hide Le, FromLe, Crc32;
    var header := Header(e.kind, |e.key|, |e.value|);
    var body := header + e.key + e.value;
    var check, rest := Le(Crc32(body), CRC_SIZE), s[|Raw(e)|..];
    assert s == header + (e.key + e.value + check + rest);
    HeaderFields(e.kind, |e.key|, |e.value|, e.key + e.value + check + rest);
    assert s[..|body|] == body && s[|body|..|body| + CRC_SIZE] == check;
    Crc32Bound(body);
    Le32(Crc32(body));
  }

  lemma ReadIsRaw(s: Bytes, e: Entry)
    requires ReadRecord(s).Delivered? && ReadRecord(s).entry == e
    ensures StartsWith(s, e) && ReadRecord(s).size == |Raw(e)|
  {
    hide Le, FromLe, Crc32;
    var n := BodySize(s);
    Le32(|e.key|);
    Le32(|e.value|);
    FromLeInjective(s[1..5], Le(|e.key|, 4));
    FromLeInjective(s[5..9], Le(|e.value|, 4));
    assert s[..n] == [s[0]] + s[1..5] + s[5..9] + FrontKey(s) + FrontValue(s);
    Crc32Bound(s[..n]);
    Le32(Crc32(s[..n]));
    FromLeInjective(s[n..n + CRC_SIZE], Le(Crc32(s[..n]), CRC_SIZE));
    assert s[..n + CRC_SIZE] == s[..n] + s[n..n + CRC_SIZE];
    assert s == s[..n + CRC_SIZE] + s[n + CRC_SIZE..];
  }

  /** What is left of the log starts like e, but is too short for it. */
  ghost predicate CutShort(s: Bytes, e: Entry)
  {
    |e.key| <= 0x100_0000 && |e.value| <= 0x400_0000 && 9 <= |s| < |Raw(e)| && s[..9] == Raw(e)[..9]
  }

  /** Replay takes bytes for a record cut short if and only if the header is incomplete, or it is the
      header of a record within the limits that is longer than what is left. */
  lemma ShortIff(s: Bytes)
    ensures ReadRecord(s).Short? <==> |s| < 9 || exists e :: CutShort(s, e)
  {
    hide Le, FromLe, Crc32, FrontIntact, Raw;
    if e :| CutShort(s, e) {
      HeaderOfRaw(e);
      assert s[1..5] == s[..9][1..5] && s[5..9] == s[..9][5..9] && s[0] == s[..9][0];
      assert Raw(e)[1..5] == Raw(e)[..9][1..5] && Raw(e)[5..9] == Raw(e)[..9][5..9];
    }
    if |s| >= 9 && ReadRecord(s).Short? {
      var e := Entry(seq(KeyLength(s), _ => 0), seq(ValueLength(s), _ => 0), if s[0] == KindCode(Put) then Put else Tombstone);
      HeaderOfRaw(e);
      FromLeInjective(s[1..5], Raw(e)[1..5]);
      FromLeInjective(s[5..9], Raw(e)[5..9]);
      assert s[..9] == [s[0]] + s[1..5] + s[5..9];
      assert Raw(e)[..9] == [Raw(e)[0]] + Raw(e)[1..5] + Raw(e)[5..9];
      assert CutShort(s, e);
    }
  }

  lemma HeaderOfRaw(e: Entry)
    requires |e.key| <= 0x100_0000 && |e.value| <= 0x400_0000
    ensures Raw(e)[0] == KindCode(e.kind) && FromLe(Raw(e)[1..5]) == |e.key| && FromLe(Raw(e)[5..9]) == |e.value|
  {
    hide Le, FromLe, Crc32;
    var header := Header(e.kind, |e.key|, |e.value|);
    var rest := Raw(e)[9..];
    assert Raw(e) == header + rest;
    HeaderFields(e.kind, |e.key|, |e.value|, rest);
  }

  /** Everything a replay delivers, and how it ends. */
  function Log(s: Bytes): Replay
    decreases |s|
  {
    if s == [] then Replay([], Clean) else
      match ReadRecord(s)
      case Short => Replay([], Truncated)
      case Bad => Replay([], Corrupt)
      case Delivered(e, n) =>
        var rest := Log(s[n..]);
        Replay([e] + rest.records, rest.outcome)
  }

  // ---------- whole records ----------

  lemma ReadEncoded(e: Entry, rest: Bytes)
    requires Encodable(e) && Canonical(e)
    ensures ReadRecord(Encode(e) + rest) == if InLimits(e) then Delivered(e, RecordSize(e)) else Bad
  {
    FrontOfEncoded(e, rest);
  }

  lemma LogOfEncoded(e: Entry, rest: Bytes)
    requires Encodable(e) && Loggable(e)
    ensures Log(Encode(e) + rest) == Replay([e] + Log(rest).records, Log(rest).outcome)
  {
    ReadEncoded(e, rest);
    assert (Encode(e) + rest)[RecordSize(e)..] == rest;
  }

  /** A record that is read off the front is read off the same way when more bytes follow. */
  lemma ReadStable(s: Bytes, t: Bytes)
    requires ReadRecord(s).Delivered?
    ensures ReadRecord(s + t) == ReadRecord(s)
  {
    var st := s + t;
    assert st[1..5] == s[1..5] && st[5..9] == s[5..9];
    var n := BodySize(s);
    assert st[..n] == s[..n];
    assert st[n..n + CRC_SIZE] == s[n..n + CRC_SIZE];
    assert FrontKey(st) == FrontKey(s) && FrontValue(st) == FrontValue(s);
  }

  /** Appending to a log that replays cleanly appends to what it delivers. */
  lemma {:induction false} CleanLogExtends(s: Bytes, t: Bytes)
    requires Log(s).outcome.Clean?
    ensures Log(s + t) == Replay(Log(s).records + Log(t).records, Log(t).outcome)
    decreases |s|
  {
    hide ReadRecord;
    if s == [] {
      assert s + t == t;
      assert [] + Log(t).records == Log(t).records;
    } else {
      var r := ReadRecord(s);
      ReadStable(s, t);
      assert (s + t)[r.size..] == s[r.size..] + t;
      CleanLogExtends(s[r.size..], t);
      assert [r.entry] + (Log(s[r.size..]).records + Log(t).records)
          == ([r.entry] + Log(s[r.size..]).records) + Log(t).records;
    }
  }

  lemma {:induction false} LogOfAll(es: seq<Entry>)
    requires forall e :: e in es ==> Encodable(e) && Loggable(e)
    ensures Log(EncodeAll(es)) == Replay(es, Clean)
  {
    hide Log, Encode, ReadRecord, Encodable, Loggable;
    if es == [] {
      EmptyLog();
    } else {
      LogOfEncoded(es[0], EncodeAll(es[1..]));
      LogOfAll(es[1..]);
      assert es == [es[0]] + es[1..];
    }
  }

  // ---------- torn tails ----------

  /** How many of the records lie wholly within the first `cut` bytes. */
  function WholeRecords(es: seq<Entry>, cut: nat): (n: nat)
    ensures n <= |es|
  {
    if es == [] || cut < RecordSize(es[0]) then 0
    else 1 + WholeRecords(es[1..], cut - RecordSize(es[0]))
  }

  /** A proper, non-empty prefix of a record is seen as truncated, never as corrupt. */
  lemma TornRecord(e: Entry, cut: nat)
    requires Encodable(e) && Loggable(e) && 0 < cut < RecordSize(e)
    ensures ReadRecord(Encode(e)[..cut]) == Short
    ensures Log(Encode(e)[..cut]) == Replay([], Truncated)
  {
    var s, t := Encode(e), Encode(e)[..cut];
    assert s + [] == s;
    FrontOfEncoded(e, []);
    if cut >= HEADER_SIZE {
      assert t[1..5] == s[1..5] && t[5..9] == s[5..9];
    }
  }

  /** Replaying the first `cut` bytes of a log of es delivers exactly the records before the
      cut, in order, and is clean exactly when the cut is a record boundary. */
  ghost predicate CutsExactly(es: seq<Entry>, cut: nat)
    requires cut <= |EncodeAll(es)|
  {
    var n := WholeRecords(es, cut);
    && |EncodeAll(es[..n])| <= cut
    && (n < |es| ==> cut < |EncodeAll(es[..n + 1])|)
    && Log(EncodeAll(es)[..cut])
       == Replay(es[..n], if cut == |EncodeAll(es[..n])| then Clean else Truncated)
  }

  lemma TornFirst(es: seq<Entry>, cut: nat)
    requires es != [] && Encodable(es[0]) && Loggable(es[0]) && cut < RecordSize(es[0])
    ensures cut <= |EncodeAll(es)| && CutsExactly(es, cut)
  {
    hide Log, Encode;
    assert EncodeAll(es)[..cut] == Encode(es[0])[..cut];
    assert es[..1] == [es[0]] && es[..0] == [];
    EncodeAllOne(es[0]);
    if cut > 0 {
      TornRecord(es[0], cut);
    } else {
      EmptyLog();
    }
  }

  lemma EmptyLog()
    ensures Log([]) == Replay([], Clean)
  {
  }

  /** Size of a longer prefix. */
  lemma PrefixSize(es: seq<Entry>, n: nat)
    requires es != [] && n <= |es[1..]|
    ensures es[..n + 1] == [es[0]] + es[1..][..n]
    ensures |EncodeAll(es[..n + 1])| == RecordSize(es[0]) + |EncodeAll(es[1..][..n])|
  {
    hide Encode;
    assert es[..n + 1][1..] == es[1..][..n];
  }

  /** A cut behind the first record, for the log. */
  lemma TornLog(es: seq<Entry>, cut: nat)
    requires es != [] && Encodable(es[0]) && Loggable(es[0]) && cut >= RecordSize(es[0])
    requires cut - RecordSize(es[0]) <= |EncodeAll(es[1..])|
    ensures cut <= |EncodeAll(es)|
    ensures var rest := Log(EncodeAll(es[1..])[..cut - RecordSize(es[0])]);
            Log(EncodeAll(es)[..cut]) == Replay([es[0]] + rest.records, rest.outcome)
  {
    hide Log, Encode;
    var later := EncodeAll(es[1..])[..cut - RecordSize(es[0])];
    assert EncodeAll(es)[..cut] == Encode(es[0]) + later;
    LogOfEncoded(es[0], later);
  }

  lemma TornLater(es: seq<Entry>, cut: nat)
    requires es != [] && Encodable(es[0]) && Loggable(es[0]) && cut >= RecordSize(es[0])
    requires cut - RecordSize(es[0]) <= |EncodeAll(es[1..])| && CutsExactly(es[1..], cut - RecordSize(es[0]))
    ensures cut <= |EncodeAll(es)| && CutsExactly(es, cut)
  {
    hide Log, Encode, EncodeAll;
    var n := WholeRecords(es[1..], cut - RecordSize(es[0]));
    TornLog(es, cut);
    PrefixSize(es, n);
    if n < |es[1..]| {
      PrefixSize(es, n + 1);
    }
  }

  lemma TornNone(cut: nat)
    requires cut <= |EncodeAll([])|
    ensures CutsExactly([], cut)
  {
    assert EncodeAll([])[..cut] == [];
  }

  /** For every log and every byte cut of it. */
  lemma {:induction false} TornTail(es: seq<Entry>, cut: nat)
    requires forall e :: e in es ==> Encodable(e) && Loggable(e)
    requires cut <= |EncodeAll(es)|
    ensures CutsExactly(es, cut)
  {
    hide CutsExactly, Encode;
    if es == [] {
      TornNone(cut);
    } else if cut < RecordSize(es[0]) {
      TornFirst(es, cut);
    } else {
      TornTail(es[1..], cut - RecordSize(es[0]));
      TornLater(es, cut);
    }
  }

  // ---------- size limits ----------

  /** An acknowledged record is delivered by the next replay if and only if it is within the
      limits; otherwise the replay stops there and reports corruption, not truncation. */
  lemma RecoverableIffInLimits(es: seq<Entry>, e: Entry)
    requires forall x :: x in es ==> Encodable(x) && Loggable(x)
    requires Encodable(e) && Canonical(e)
    ensures Log(EncodeAll(es) + Encode(e))
         == if InLimits(e) then Replay(es + [e], Clean) else Replay(es, Corrupt)
  {
    hide ReadRecord;
    LogOfAll(es);
    CleanLogExtends(EncodeAll(es), Encode(e));
    ReadEncoded(e, []);
    assert Encode(e) + [] == Encode(e);
    assert Encode(e)[RecordSize(e)..] == [];
    assert es + [] == es;
  }

  // ---------- burst errors ----------

  lemma TamperedIsBad(e: Entry, before: Bytes, u: Bytes, v: Bytes, after: Bytes, rest: Bytes)
    requires Encodable(e) && Loggable(e) && Payload(e) == before + u + after
    requires |u| == |v| <= 4 && u != v
    ensures ReadRecord(Tampered(e, before + v + after) + rest) == Bad
  {
    hide Tampered, Payload, FrontIntact;
    TamperedIsBroken(e, before, u, v, after, rest);
  }

  /** A change inside at most four consecutive bytes of key, value and checksum of one record
      makes replay deliver exactly the earlier records and report corruption. */
  lemma BurstStopsReplay(es: seq<Entry>, e: Entry, before: Bytes, u: Bytes, v: Bytes, after: Bytes, rest: Bytes)
    requires forall x :: x in es ==> Encodable(x) && Loggable(x)
    requires Encodable(e) && Loggable(e) && Payload(e) == before + u + after
    requires |u| == |v| <= 4 && u != v
    ensures Log(EncodeAll(es) + (Tampered(e, before + v + after) + rest)) == Replay(es, Corrupt)
  {
    LogOfAll(es);
    TamperedIsBad(e, before, u, v, after, rest);
    CleanLogExtends(EncodeAll(es), Tampered(e, before + v + after) + rest);
    assert es + [] == es;
  }

  // ---------- writing behind a torn tail ----------

  /** A record that is read back as r starts with the header of r. */
  lemma FrontDetermines(s: Bytes, r: Entry)
    requires s != [] && Log(s).records == [r] && Encodable(r) && Canonical(r)
    ensures |s| >= HEADER_SIZE && s[0] == KindCode(r.kind)
    ensures s[1..5] == Le(|r.key|, 4) && s[5..9] == Le(|r.value|, 4)
  {
    hide Le, Crc32;
    Le32(|r.key|);
    Le32(|r.value|);
    FromLeInjective(s[1..5], Le(|r.key|, 4));
    FromLeInjective(s[5..9], Le(|r.value|, 4));
  }

  /** A record whose replay behind the tail t fails. */
  function Witness(t: Bytes): Entry
  {
    if |t| >= HEADER_SIZE && t[5..9] == Le(3, 4)
      then Entry([0, 0, 0], [0, 0], Put)
      else Entry([0, 0, 0], [0, 0, 0], Put)
  }

  /** If the tail holds a complete header, that header wins. */
  lemma LostBehindLongTail(t: Bytes)
    requires |t| >= HEADER_SIZE
    ensures Log(t + Encode(Witness(t))).records != [Witness(t)]
  {
    hide Log, Encode, Le;
    var s := t + Encode(Witness(t));
    if Log(s).records == [Witness(t)] {
      FrontDetermines(s, Witness(t));
      assert s[5..9] == t[5..9];
      Le32(3);
      Le32(2);
    }
  }

  lemma NotOne(s: Bytes, i: nat)
    requires |s| >= HEADER_SIZE && s[1..5] == Le(3, 4) && s[5..9] == Le(3, 4) && 0 < i < HEADER_SIZE
    ensures s[i] != 1
  {
    LeOf4(3);
    assert s[i] == if i < 5 then s[1..5][i - 1] else s[5..9][i - 5];
  }

  /** If it does not, the first bytes of the new record complete it to something else. */
  lemma LostBehindShortTail(t: Bytes)
    requires 0 < |t| < HEADER_SIZE
    ensures Log(t + Encode(Witness(t))).records != [Witness(t)]
  {
    hide Log, Encode, Le;
    var w := Witness(t);
    var s := t + Encode(w);
    FrontOfEncoded(w, []);
    assert Encode(w) + [] == Encode(w);
    assert s[|t|] == Encode(w)[0] == 1;
    if Log(s).records == [w] {
      FrontDetermines(s, w);
      NotOne(s, |t|);
    }
  }

  /** Records acknowledged after a recovery are delivered by the next one, whatever they are,
      if and only if no bytes t were left behind the last whole record: recovery never cuts
      a torn tail off. */
  lemma DurableIffNoTail(t: Bytes)
    ensures (forall es :: (forall e :: e in es ==> Encodable(e) && Loggable(e))
                ==> Log(t + EncodeAll(es)).records == es)
        <==> t == []
  {
    hide Log, Encode;
    if t == [] {
      forall es | forall e :: e in es ==> Encodable(e) && Loggable(e)
        ensures Log(t + EncodeAll(es)).records == es
      {
        assert t + EncodeAll(es) == EncodeAll(es);
        LogOfAll(es);
      }
    } else {
      var w := Witness(t);
      if |t| >= HEADER_SIZE {
        LostBehindLongTail(t);
      } else {
        LostBehindShortTail(t);
      }
      EncodeAllOne(w);
      assert forall e :: e in [w] ==> Encodable(e) && Loggable(e);
      assert Log(t + EncodeAll([w])).records != [w];
    }
  }
}
