/** The write-ahead log: appending records, clearing the file, and replaying it. */
module Wals {
  import opened Bytes
  import opened Crc
  import opened Entries
  import opened Records
  import opened Logs
  import opened Storage
  import opened MemTables

  /** Reads the record at a stream position, with the checks in the order of the engine. */
  method NextRecord(content: Bytes, at: nat) returns (front: Front)
    requires at < |content|
    ensures front == ReadRecord(content[at..])
  {
    hide FromLe, Crc32;
    ghost var s := content[at..];
    var header := Take(content, at, HEADER_SIZE);
    if |header| < HEADER_SIZE {
      return Short;
    }
    assert header == s[..HEADER_SIZE];
    assert header[1..5] == s[1..5] && header[5..9] == s[5..9];
    if header[0] != KindCode(Put) && header[0] != KindCode(Tombstone) {
      return Bad;
    }
    var keyLength := FromLe(header[1..5]);
    var valueLength := FromLe(header[5..9]);
    if keyLength > MAX_KEY || valueLength > MAX_VALUE {
      return Bad;
    }
    front := ReadBody(content, at, header, keyLength, valueLength);
  }

  /** The rest of a record whose header has been accepted. */
  method ReadBody(content: Bytes, at: nat, header: Bytes, keyLength: nat, valueLength: nat) returns (front: Front)
    requires at < |content| && |content[at..]| >= HEADER_SIZE && header == content[at..][..HEADER_SIZE]
    requires header[0] == KindCode(Put) || header[0] == KindCode(Tombstone)
    requires keyLength == KeyLength(content[at..]) <= MAX_KEY && valueLength == ValueLength(content[at..]) <= MAX_VALUE
    ensures front == ReadRecord(content[at..])
  {
    hide FromLe, Crc32, KeyLength, ValueLength;
    ghost var s := content[at..];
    var key := Take(content, at + HEADER_SIZE, keyLength);
    if |key| < keyLength {
      return Short;
    }
    var value := Take(content, at + HEADER_SIZE + keyLength, valueLength);
    if |value| < valueLength {
      return Short;
    }
    var crc := Take(content, at + HEADER_SIZE + keyLength + valueLength, CRC_SIZE);
    if |crc| < CRC_SIZE {
      return Short;
    }
    TakeRecord(content, at);
    assert header == Take(content, at, HEADER_SIZE);
    var expected := FromLe(crc);
    var actual := Checksum(header + key + value);
    if actual != expected {
      return Bad;
    }
    return Delivered(Entry(key, value, if header[0] == KindCode(Put) then Put else Tombstone),
                     HEADER_SIZE + keyLength + valueLength + CRC_SIZE);
  }

  function StatusOf(outcome: Outcome): Status
  {
    if outcome.Clean? then OK else Corruption
  }

  /** The log that a replay of the file sees: a missing file is an empty log. */
  function LogFile(disk: Disk, path: Name): Replay
  {
    if path in disk then Log(disk[path]) else Replay([], Clean)
  }

  /** done has been delivered and at is where the next record starts. */
  ghost predicate Reached(content: Bytes, done: seq<Entry>, at: nat)
  {
    && at <= |content|
    && Log(content) == Replay(done + Log(content[at..]).records, Log(content[at..]).outcome)
  }

  lemma ReachedStart(content: Bytes)
    ensures Reached(content, [], 0)
  {
    assert content[0..] == content;
    assert [] + Log(content).records == Log(content).records;
  }

  lemma ReachedNext(content: Bytes, done: seq<Entry>, at: nat)
    requires at < |content| && Reached(content, done, at)
    ensures var front := ReadRecord(content[at..]);
            match front
            case Short => Log(content) == Replay(done, Truncated)
            case Bad => Log(content) == Replay(done, Corrupt)
            case Delivered(e, size) => Reached(content, done + [e], at + size)
  {
    hide ReadRecord;
    var s := content[at..];
    match ReadRecord(s)
    case Short =>
      assert done + [] == done;
    case Bad =>
      assert done + [] == done;
    case Delivered(e, size) =>
      assert s[size..] == content[at + size..];
      assert done + ([e] + Log(s[size..]).records) == (done + [e]) + Log(s[size..]).records;
  }

  lemma ReachedEnd(content: Bytes, done: seq<Entry>)
    requires Reached(content, done, |content|)
    ensures Log(content) == Replay(done, Clean)
  {
    assert content[|content|..] == [] && done + [] == done;
  }

  /** Replays the log into a table: the records before the first unreadable one, in order. */
  method ReplayInto(content: Bytes, memtable: MemTable) returns (status: Status, hadTruncation: bool)
    requires memtable.Valid() && memtable.table == map[]
    modifies memtable
    ensures memtable.Valid() && memtable.table == LogLayer(Log(content).records)
    ensures status == StatusOf(Log(content).outcome)
    ensures hadTruncation == Log(content).outcome.Truncated?
  {
    hide ReadRecord, Log, Reached, EncodeAll, Listing, TotalSize;
    hadTruncation := false;
    var at := 0;
    ghost var done: seq<Entry> := [];
    ReachedStart(content);
    while at < |content|
      invariant at <= |content| && Reached(content, done, at)
      invariant memtable.Valid() && memtable.table == LogLayer(done)
      decreases |content| - at
    {
      var front := NextRecord(content, at);
      ReachedNext(content, done, at);
      match front
      case Short =>
        return Corruption, true;
      case Bad =>
        return Corruption, false;
      case Delivered(e, size) =>
        LogLayerSnoc(done, e);
        if e.kind.Put? {
          memtable.Put(e.key, e.value);
        } else {
          memtable.Remove(e.key);
        }
        done := done + [e];
        at := at + size;
    }
    ReachedEnd(content, done);
    status := OK;
  }

  // ---------- appending ----------

  /** The log adds up the two lengths in 32 bits to size its buffer. */
  function BufferSize(key: Key, value: Value, kind: Kind): nat
  {
    HEADER_SIZE + (|key| % U32 + ValueField(value, kind)) % U32
  }

  predicate FitsBuffer(e: Entry)
  {
    Encodable(e) && |e.key| + |StoredValue(e)| < U32
  }

  /** The buffer has the size of the record exactly if the lengths add up to less than 2^32;
      otherwise it is too small. */
  lemma BufferFitsIff(e: Entry)
    requires Encodable(e)
    ensures BufferSize(e.key, e.value, e.kind) == |Body(e)| <==> |e.key| + |StoredValue(e)| < U32
    ensures BufferSize(e.key, e.value, e.kind) < |Body(e)| <==> |e.key| + |StoredValue(e)| >= U32
  {
    hide Body;
  }

  /** A key and a value of 2 GiB each leave room for the header only. */
  lemma BufferTooSmall()
    ensures exists e :: Encodable(e) && BufferSize(e.key, e.value, e.kind) == HEADER_SIZE < |Body(e)|
  {
    var half: Bytes := seq(0x8000_0000, _ => 0);
    var e := Entry(half, half, Put);
    assert Encodable(e) && BufferSize(e.key, e.value, e.kind) == HEADER_SIZE;
    BufferFitsIff(e);
  }

  /** Some part of the data has been appended to the file, all of it exactly if complete; and a
      crash on the way can have left any shorter part. */
  ghost predicate Appended(disk0: Disk, crashes0: iset<Disk>, disk1: Disk, crashes1: iset<Disk>,
                           name: Name, data: Bytes, complete: bool)
  {
    && name in disk0
    && (exists k :: 0 <= k <= |data| && (complete <==> k == |data|) && disk1 == disk0[name := disk0[name] + data[..k]])
    && (forall d :: d in crashes0 ==> d in crashes1)
    && (forall d :: d in crashes1 ==> d in crashes0 || d in TornAppends(disk0, name, data))
  }

  lemma AppendedInPart(disk0: Disk, crashes0: iset<Disk>, disk1: Disk, crashes1: iset<Disk>, name: Name, data: Bytes, reached: nat)
    requires name in disk0 && reached < |data|
    requires disk1 == disk0[name := disk0[name] + data[..reached]]
    requires crashes1 == crashes0 + TornAppends(disk0, name, data[..reached])
    ensures Appended(disk0, crashes0, disk1, crashes1, name, data, false)
  {
    forall d | d in crashes1 && d !in crashes0
      ensures d in TornAppends(disk0, name, data)
    {
      TornInTwo(disk0, name, data, reached, d);
    }
  }

  lemma AppendedInTwo(disk0: Disk, crashes0: iset<Disk>, between: Disk, disk1: Disk, crashes1: iset<Disk>, name: Name,
                      data: Bytes, reached: nat, flushed: nat)
    requires name in disk0 && reached <= |data| && flushed <= |data| - reached
    requires between == disk0[name := disk0[name] + data[..reached]]
    requires disk1 == between[name := between[name] + data[reached..][..flushed]]
    requires crashes1 == crashes0 + TornAppends(disk0, name, data[..reached]) + TornAppends(between, name, data[reached..])
    ensures Appended(disk0, crashes0, disk1, crashes1, name, data, reached + flushed == |data|)
  {
    assert data[..reached] + data[reached..][..flushed] == data[..reached + flushed];
    assert between[name] + data[reached..][..flushed] == disk0[name] + data[..reached + flushed];
    assert disk1 == disk0[name := disk0[name] + data[..reached + flushed]];
    forall d | d in crashes1 && d !in crashes0
      ensures d in TornAppends(disk0, name, data)
    {
      TornInTwo(disk0, name, data, reached, d);
    }
  }

  class Wal {
    const fs: FileSystem
    var path: Name
    var isOpen: bool
    /** The stream has not failed: a failed stream stays failed until it is opened again. */
    var good: bool

    ghost predicate Valid()
      reads this, fs
    {
      isOpen ==> path in fs.files
    }

    constructor (fs: FileSystem)
      ensures this.fs == fs && !isOpen && Valid()
    {
      good := true;
      this.fs := fs;
      path := "";
      isOpen := false;
    }

    method Open(path: Name) returns (status: Status)
      modifies this, fs`files, fs`crashes, fs`failures
      ensures Valid() && this.path == path && isOpen == status.OK? && (status.OK? ==> good)
      ensures status.OK? || status.IOError?
      ensures fs.files == if status.OK? && path !in old(fs.files) then old(fs.files)[path := []] else old(fs.files)
      ensures fs.crashes == old(fs.crashes) + iset{fs.files}
      ensures fs.failures == if status.OK? then old(fs.failures) else old(fs.failures) + 1
    {
      isOpen := false;
      this.path := path;
      var ok := fs.OpenAppend(path);
      if !ok {
        return IOError;
      }
      isOpen, good := true, true;
      return OK;
    }

    method Close()
      modifies this`isOpen
      ensures !isOpen && Valid()
    {
      isOpen := false;
    }

    /** Appends a record in two steps: it is written to the stream, which is checked, and then
        the stream is flushed, which is not. So a record is acknowledged even if the flush was
        refused; the stream is broken then, and refuses everything after it. The whole record is
        in the file exactly if neither step was refused. */
    method AppendRecord(key: Key, value: Value, kind: Kind) returns (status: Status)
      requires Valid() && FitsBuffer(Entry(key, value, kind))
      modifies fs, this`good
      ensures Valid()
      ensures status.OK? || status.IOError?
      ensures status.OK? ==> isOpen && old(good)
      ensures !isOpen || !old(good) ==>
        && status.IOError? && good == old(good) && fs.files == old(fs.files) && fs.crashes == old(fs.crashes)
        && fs.failures == old(fs.failures) && fs.ignored == old(fs.ignored)
      ensures isOpen && old(good) ==>
        Appended(old(fs.files), old(fs.crashes), fs.files, fs.crashes, path, Encode(Entry(key, value, kind)), good)
      ensures isOpen && old(good) ==>
        && fs.failures == (if status.OK? then old(fs.failures) else old(fs.failures) + 1)
        && fs.ignored == (if status.OK? && !good then old(fs.ignored) + 1 else old(fs.ignored))
        && (good <==> fs.failures == old(fs.failures) && fs.ignored == old(fs.ignored))
    {
      if !isOpen {
        return IOError;
      }
      BufferFitsIff(Entry(key, value, kind));
      var record := BuildRecord(key, value, kind, BufferSize(key, value, kind));
      if !good {
        return IOError;
      }
      ghost var disk, crashes := fs.files, fs.crashes;
      var reached;
      good, reached := fs.WriteChecked(path, record);
      ghost var between := fs.files;
      if !good {
        AppendedInPart(disk, crashes, fs.files, fs.crashes, path, record, reached);
        return IOError;
      }
      var flushed;
      good, flushed := fs.WriteUnchecked(path, record[reached..]);
      AppendedInTwo(disk, crashes, between, fs.files, fs.crashes, path, record, reached, flushed);
      status := OK;
    }

    /** Truncates the log; on failure the log is closed and keeps its records. */
    method Clear() returns (status: Status)
      requires Valid()
      modifies this, fs`files, fs`crashes, fs`failures
      ensures Valid() && path == old(path) && isOpen == status.OK? && (status.OK? ==> good)
      ensures status.OK? || status.IOError?
      ensures fs.files == if status.OK? then old(fs.files)[path := []] else old(fs.files)
      ensures fs.crashes == old(fs.crashes) + iset{fs.files}
      ensures fs.failures == if status.OK? then old(fs.failures) else old(fs.failures) + 1
    {
      Close();
      var ok := fs.Create(path);
      if !ok {
        return IOError;
      }
      isOpen, good := true, true;
      return OK;
    }
  }
}
