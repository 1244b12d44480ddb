/** The record format that the log and the tables share:
    type (1 byte), key length (4), value length (4), key, value, checksum (4). */
module Records {
  import opened Bytes
  import opened Crc
  import opened Entries

  const HEADER_SIZE: nat := 9
  const CRC_SIZE: nat := 4

  /** A tombstone is stored without its value. */
  function StoredValue(e: Entry): Value
  {
    if e.kind.Tombstone? then [] else e.value
  }

  /** A record as a reader hands it back. */
  predicate Canonical(e: Entry)
  {
    e.kind.Tombstone? ==> e.value == []
  }

  /** Both lengths fit their 32-bit fields. */
  predicate Encodable(e: Entry)
  {
    |e.key| < U32 && |e.value| < U32
  }

  function Header(kind: Kind, keyLength: nat, valueLength: nat): (h: Bytes)
    ensures |h| == HEADER_SIZE
  {
    [KindCode(kind)] + Le(keyLength, 4) + Le(valueLength, 4)
  }

  function Body(e: Entry): (b: Bytes)
    ensures |b| == HEADER_SIZE + |e.key| + |StoredValue(e)|
  {
    Header(e.kind, |e.key|, |StoredValue(e)|) + e.key + StoredValue(e)
  }

  function Encode(e: Entry): (b: Bytes)
    ensures |b| == RecordSize(e)
  {
    Body(e) + Le(Crc32(Body(e)), CRC_SIZE)
  }

  function RecordSize(e: Entry): nat
  {
    HEADER_SIZE + |e.key| + |StoredValue(e)| + CRC_SIZE
  }

  function EncodeAll(es: seq<Entry>): Bytes
  {
    if es == [] then [] else Encode(es[0]) + EncodeAll(es[1..])
  }

  // ---------- reading a record off the front of a byte string ----------

  function KeyLength(s: Bytes): nat
    requires |s| >= HEADER_SIZE
  {
    FromLe(s[1..5])
  }

  function ValueLength(s: Bytes): nat
    requires |s| >= HEADER_SIZE
  {
    FromLe(s[5..9])
  }

  /** Size of header, key and value of the record that s starts with. */
  function BodySize(s: Bytes): nat
    requires |s| >= HEADER_SIZE
  {
    HEADER_SIZE + KeyLength(s) + ValueLength(s)
  }

  function FrontKey(s: Bytes): Key
    requires |s| >= HEADER_SIZE && |s| >= BodySize(s)
  {
    s[HEADER_SIZE..HEADER_SIZE + KeyLength(s)]
  }

  function FrontValue(s: Bytes): Value
    requires |s| >= HEADER_SIZE && |s| >= BodySize(s)
  {
    s[HEADER_SIZE + KeyLength(s)..BodySize(s)]
  }

  /** The stored checksum matches the body. */
  predicate FrontIntact(s: Bytes)
    requires |s| >= HEADER_SIZE && |s| >= BodySize(s) + CRC_SIZE
  {
    Crc32(s[..BodySize(s)]) == FromLe(s[BodySize(s)..BodySize(s) + CRC_SIZE])
  }

  lemma HeaderFields(kind: Kind, keyLength: nat, valueLength: nat, rest: Bytes)
    requires keyLength < U32 && valueLength < U32
    ensures var s := Header(kind, keyLength, valueLength) + rest;
            s[0] == KindCode(kind) && KeyLength(s) == keyLength && ValueLength(s) == valueLength
  {
    var s := Header(kind, keyLength, valueLength) + rest;
    assert s[1..5] == Le(keyLength, 4);
    assert s[5..9] == Le(valueLength, 4);
    Le32(keyLength);
    Le32(valueLength);
  }

  lemma FrontOfBody(e: Entry, rest: Bytes)
    requires Encodable(e)
    ensures var s := Body(e) + rest;
            && s[0] == KindCode(e.kind)
            && KeyLength(s) == |e.key| && ValueLength(s) == |StoredValue(e)|
            && FrontKey(s) == e.key && FrontValue(s) == StoredValue(e)
  {
    var s := Body(e) + rest;
    var header := Header(e.kind, |e.key|, |StoredValue(e)|);
    assert s == header + (e.key + StoredValue(e) + rest);
    HeaderFields(e.kind, |e.key|, |StoredValue(e)|, e.key + StoredValue(e) + rest);
  }

  /** Whatever follows, the front of an encoded record is read back as that record. */
  lemma FrontOfEncoded(e: Entry, rest: Bytes)
    requires Encodable(e)
    ensures var s := Encode(e) + rest;
            && s[0] == KindCode(e.kind)
            && KeyLength(s) == |e.key| && ValueLength(s) == |StoredValue(e)|
            && FrontKey(s) == e.key && FrontValue(s) == StoredValue(e)
            && s[..BodySize(s)] == Body(e)
            && FrontIntact(s)
            && s[BodySize(s) + CRC_SIZE..] == rest
  {
    var s := Encode(e) + rest;
    var body, check := Body(e), Le(Crc32(Body(e)), CRC_SIZE);
    var k, v := |e.key|, |StoredValue(e)|;
    assert s == body + (check + rest);
    FrontOfBody(e, check + rest);
    assert s[..|body|] == body;
    assert s[|body|..|body| + CRC_SIZE] == check;
    Crc32Bound(body);
    Le32(Crc32(body));
  }

  /** The bytes of a record: 1 for a value or 2 for a deletion, the two lengths with the lowest byte
      first, key, value, and the checksum of all that. A deletion has no value. */
  lemma RecordLayout(e: Entry)
    requires Encodable(e)
    ensures var b := Encode(e);
            var k, v := |e.key|, if e.kind.Put? then |e.value| else 0;
            && |b| == 13 + k + v
            && b[0] == (if e.kind.Put? then 1 else 2)
            && b[1] as nat + 0x100 * b[2] as nat + 0x1_0000 * b[3] as nat + 0x100_0000 * b[4] as nat == k
            && b[5] as nat + 0x100 * b[6] as nat + 0x1_0000 * b[7] as nat + 0x100_0000 * b[8] as nat == v
            && b[9..9 + k] == e.key && (e.kind.Put? ==> b[9 + k..9 + k + v] == e.value)
            && var n := 9 + k + v;
               b[n] as nat + 0x100 * b[n + 1] as nat + 0x1_0000 * b[n + 2] as nat + 0x100_0000 * b[n + 3] as nat == Crc32(b[..n])
  {
    hide FromLe, Crc32, Le, Encode;
    var b, k, v := Encode(e), |e.key|, |StoredValue(e)|;
    assert b + [] == b;
    FrontOfEncoded(e, []);
    FromLe4(b[1..5]);
    FromLe4(b[5..9]);
    FromLe4(b[9 + k + v..13 + k + v]);
  }

  // ---------- damaged records ----------

  /** All that follows the header of a record: key, value and checksum. */
  function Payload(e: Entry): (p: Bytes)
    ensures |p| == RecordSize(e) - HEADER_SIZE
  {
    e.key + StoredValue(e) + Le(Crc32(Body(e)), CRC_SIZE)
  }

  /** The record e with `payload` behind its header. */
  function Tampered(e: Entry, payload: Bytes): Bytes
  {
    Header(e.kind, |e.key|, |StoredValue(e)|) + payload
  }

  /** A whole record of the size of e whose checksum does not match. */
  predicate FrontBroken(s: Bytes, e: Entry)
  {
    && |s| >= RecordSize(e) && s[0] == KindCode(e.kind)
    && KeyLength(s) == |e.key| && ValueLength(s) == |StoredValue(e)| && !FrontIntact(s)
  }

  /** A change inside at most four consecutive bytes of key, value and checksum is noticed. */
  lemma TamperedIsBroken(e: Entry, before: Bytes, u: Bytes, v: Bytes, after: Bytes, rest: Bytes)
    requires Encodable(e) && Payload(e) == before + u + after
    requires |u| == |v| <= 4 && u != v
    ensures FrontBroken(Tampered(e, before + v + after) + rest, e)
  {
    hide Crc32, Le, FromLe;
    var header, payload := Header(e.kind, |e.key|, |StoredValue(e)|), before + v + after;
    var s := Tampered(e, payload) + rest;
    assert s == header + (payload + rest);
    HeaderFields(e.kind, |e.key|, |StoredValue(e)|, payload + rest);
    var n := BodySize(s);
    assert s[..n] + s[n..n + CRC_SIZE] == header + payload == (header + before) + v + after;
    assert Body(e) + Le(Crc32(Body(e)), CRC_SIZE) == header + Payload(e) == (header + before) + u + after;
    SealedBurstDetected(s[..n], s[n..n + CRC_SIZE], header + before, u, v, after);
  }

  /** The parts of a whole record at a stream position. */
  lemma TakeRecord(content: Bytes, at: nat)
    requires at <= |content|
    requires var s := content[at..]; |s| >= HEADER_SIZE && |s| >= BodySize(s) + CRC_SIZE
    ensures var s := content[at..];
            var header, key, value := Take(content, at, HEADER_SIZE), Take(content, at + HEADER_SIZE, KeyLength(s)),
                                      Take(content, at + HEADER_SIZE + KeyLength(s), ValueLength(s));
            var crc := Take(content, at + BodySize(s), CRC_SIZE);
            && |header| == HEADER_SIZE && header[0] == s[0] && header[1..5] == s[1..5] && header[5..9] == s[5..9]
            && key == FrontKey(s) && value == FrontValue(s)
            && header + key + value == s[..BodySize(s)]
            && crc == s[BodySize(s)..BodySize(s) + CRC_SIZE]
  {
    hide FromLe;
    var s := content[at..];
    var n := BodySize(s);
    assert content[at..at + HEADER_SIZE] == s[..HEADER_SIZE];
    assert content[at + HEADER_SIZE..at + HEADER_SIZE + KeyLength(s)] == s[HEADER_SIZE..HEADER_SIZE + KeyLength(s)];
    assert content[at + HEADER_SIZE + KeyLength(s)..at + n] == s[HEADER_SIZE + KeyLength(s)..n];
    assert content[at + n..at + n + CRC_SIZE] == s[n..n + CRC_SIZE];
    assert s[..n] == s[..HEADER_SIZE] + s[HEADER_SIZE..HEADER_SIZE + KeyLength(s)] + s[HEADER_SIZE + KeyLength(s)..n];
  }

  lemma {:induction false} EncodeAllConcat(a: seq<Entry>, b: seq<Entry>)
    ensures EncodeAll(a + b) == EncodeAll(a) + EncodeAll(b)
  {
    if a == [] {
      assert a + b == b;
    } else {
      assert (a + b)[1..] == a[1..] + b;
      EncodeAllConcat(a[1..], b);
      assert Encode(a[0]) + (EncodeAll(a[1..]) + EncodeAll(b)) == (Encode(a[0]) + EncodeAll(a[1..])) + EncodeAll(b);
    }
  }

  lemma EncodeAllOne(e: Entry)
    ensures EncodeAll([e]) == Encode(e)
  {
    assert [e][1..] == [];
    assert Encode(e) + [] == Encode(e);
  }

  // ---------- writing a record ----------

  method EncodeUint32LE(value: nat, buffer: array<byte>, at: nat)
    requires at + 4 <= buffer.Length && value < U32
    modifies buffer
    ensures buffer[..] == old(buffer[..at]) + Le(value, 4) + old(buffer[at + 4..])
  {
    LeOf4(value);
    buffer[at] := value % 256;
    buffer[at + 1] := value / 256 % 256;
    buffer[at + 2] := value / 0x1_0000 % 256;
    buffer[at + 3] := value / 0x100_0000 % 256;
  }

  lemma LeOf4(v: nat)
    ensures Le(v, 4) == [v % 256, v / 256 % 256, v / 0x1_0000 % 256, v / 0x100_0000 % 256]
  {
    assert v / 256 / 256 == v / 0x1_0000;
    assert v / 0x1_0000 / 256 == v / 0x100_0000;
    assert Le(v, 4) == [v % 256] + Le(v / 256, 3);
    assert Le(v / 256, 3) == [v / 256 % 256] + Le(v / 0x1_0000, 2);
    assert Le(v / 0x1_0000, 2) == [v / 0x1_0000 % 256] + Le(v / 0x100_0000, 1);
    assert Le(v / 0x100_0000, 1) == [v / 0x100_0000 % 256] + Le(v / 0x100_0000 / 256, 0);
  }

  method EncodeUint64LE(value: nat, buffer: array<byte>, at: nat)
    requires at + 8 <= buffer.Length && value < U64
    modifies buffer
    ensures buffer[..] == old(buffer[..at]) + Le(value, 8) + old(buffer[at + 8..])
  {
    hide Le;
    var shifted := value;
    ghost var done: Bytes := [];
    ghost var before, behind := buffer[..at], buffer[at..];
    for i := 0 to 8
      invariant |done| == i && Le(value, 8) == done + Le(shifted, 8 - i)
      invariant buffer[..] == before + done + behind[i..]
    {
      LeStep(shifted, 8 - i);
      assert done + ([shifted % 256] + Le(shifted / 256, 7 - i)) == (done + [shifted % 256]) + Le(shifted / 256, 7 - i);
      buffer[at + i] := shifted % 256;
      done := done + [shifted % 256];
      shifted := shifted / 256;
    }
    assert done + Le(shifted, 0) == done;
    assert behind[8..] == old(buffer[at + 8..]);
  }

  lemma LeStep(v: nat, n: nat)
    requires n > 0
    ensures Le(v, n) == [v % 256] + Le(v / 256, n - 1)
  {
  }

  method CopyBytes(source: Bytes, buffer: array<byte>, at: nat)
    requires at + |source| <= buffer.Length
    modifies buffer
    ensures buffer[..] == old(buffer[..at]) + source + old(buffer[at + |source|..])
  {
    forall i | 0 <= i < |source| {
      buffer[at + i] := source[i];
    }
  }

  method WriteHeader(kind: Kind, keyLength: nat, valueLength: nat, buffer: array<byte>)
    requires HEADER_SIZE <= buffer.Length && keyLength < U32 && valueLength < U32
    modifies buffer
    ensures buffer[..] == Header(kind, keyLength, valueLength) + old(buffer[HEADER_SIZE..])
  {
    ghost var start := buffer[..];
    buffer[0] := KindCode(kind);
    EncodeUint32LE(keyLength, buffer, 1);
    assert buffer[..5] == [KindCode(kind)] + Le(keyLength, 4);
    assert buffer[5..] == start[5..];
    EncodeUint32LE(valueLength, buffer, 5);
  }

  /** The length field of the value. */
  function ValueField(value: Value, kind: Kind): nat
  {
    if kind.Tombstone? then 0 else |value| % U32
  }

  /** The size of a record without its checksum, added up without wrapping. */
  function BodySizeOf(key: Key, value: Value, kind: Kind): (size: nat)
    requires |key| < U32 && |value| < U32
    ensures size == |Body(Entry(key, value, kind))|
  {
    hide Body;
    HEADER_SIZE + |key| % U32 + ValueField(value, kind)
  }

  /** Fills a buffer of the given size, which must be that of the record without its checksum. */
  method BuildRecord(key: Key, value: Value, kind: Kind, size: nat) returns (record: Bytes)
    requires |key| < U32 && |value| < U32 && size == |Body(Entry(key, value, kind))|
    ensures record == Encode(Entry(key, value, kind))
  {
    hide Le, Crc32, Header, Body, Encode;
    var keyLength := |key| % U32;
    var valueLength := ValueField(value, kind);
    var stored := value[..valueLength];
    BodyParts(key, value, kind, keyLength, stored);
    var buffer := new byte[size];
    WriteHeader(kind, keyLength, valueLength, buffer);
    ghost var header := Header(kind, keyLength, valueLength);
    assert buffer[..HEADER_SIZE] == header;
    CopyBytes(key, buffer, HEADER_SIZE);
    assert buffer[..HEADER_SIZE + keyLength] == header + key;
    CopyBytes(stored, buffer, HEADER_SIZE + keyLength);
    assert buffer[..] == header + key + stored + [];
    record := Seal(buffer[..]);
    assert buffer[..] == Body(Entry(key, value, kind));
  }

  lemma BodyParts(key: Key, value: Value, kind: Kind, keyLength: nat, stored: Value)
    requires |key| < U32 && |value| < U32 && keyLength == |key| % U32 && stored == value[..ValueField(value, kind)]
    ensures keyLength == |key| && |stored| == ValueField(value, kind)
    ensures var e := Entry(key, value, kind);
            && Body(e) == Header(kind, |key|, |stored|) + key + stored
            && Encode(e) == Body(e) + Le(Crc32(Body(e)), CRC_SIZE)
  {
    hide Le, Crc32, Header;
    assert StoredValue(Entry(key, value, kind)) == stored;
  }

  /** A block followed by its checksum. */
  method Seal(block: Bytes) returns (sealed: Bytes)
    ensures sealed == block + Le(Crc32(block), CRC_SIZE)
  {
    var checksum := Checksum(block);
    Crc32Bound(block);
    var crc := new byte[CRC_SIZE];
    EncodeUint32LE(checksum, crc, 0);
    assert crc[..] == Le(checksum, 4);
    sealed := block + crc[..];
  }
}
