/** The store: memtable, log and tables behind one map from keys to values. */
module KVStores {
  import opened Bytes
  import opened Entries
  import opened Records
  import opened Logs
  import opened TableFormat
  import opened Storage
  import opened MemTables
  import opened Wals
  import opened Config
  import opened TableWriters
  import opened TableReaders
  import opened Compactions
  import opened Names
  import opened Stacks
  import opened Recovery
  import opened Steps

  // ---------- the readers of a store ----------

  ghost predicate PathsMatch(readers: seq<SSTableReader>, names: seq<Name>)
    reads readers
  {
    |names| == |readers| && forall i :: 0 <= i < |readers| ==> readers[i].path == names[i]
  }

  /** The readers hold what opening the named files loads. */
  ghost predicate AllHold(fs: FileSystem, readers: seq<SSTableReader>, names: seq<Name>, disk: Disk)
    reads readers
  {
    && PathsMatch(readers, names)
    && forall i :: 0 <= i < |readers| ==> readers[i].fs == fs && readers[i].Holds(disk)
  }

  lemma AllHoldUntouched(fs: FileSystem, readers: seq<SSTableReader>, names: seq<Name>, d0: Disk, d1: Disk, touched: set<Name>)
    requires AllHold(fs, readers, names, d0) && OnlyTouches(d0, d1, touched) && forall n :: n in touched ==> n !in names
    ensures AllHold(fs, readers, names, d1)
  {
    hide LoadTable;
    assert forall i :: 0 <= i < |readers| ==> readers[i].path in names;
  }

  lemma AllHoldMore(fs: FileSystem, readers: seq<SSTableReader>, names: seq<Name>, disk: Disk, reader: SSTableReader, name: Name)
    requires AllHold(fs, readers, names, disk) && reader.fs == fs && reader.Holds(disk) && reader.path == name
    ensures AllHold(fs, readers + [reader], names + [name], disk)
  {
    hide LoadTable;
  }

  lemma AllHoldPaths(fs: FileSystem, readers: seq<SSTableReader>, names: seq<Name>, disk: Disk)
    requires AllHold(fs, readers, names, disk)
    ensures PathsMatch(readers, names)
  {
  }

  /** A flush on top of so many tables triggers a compaction. */
  predicate FlushCompacts(options: Options, tables: nat)
  {
    tables + 1 >= options.compactionThreshold && tables + 1 >= 2
  }

  /** A flush adds a table, unless there are enough for a compaction then: at least two, and as many
      as the threshold says. That leaves one. */
  ghost predicate FlushLeaves(options: Options, before: nat, after: nat, compactions: int)
  {
    if before + 1 < 2 || before + 1 < options.compactionThreshold
      then after == before + 1 && compactions == 0
      else after == 1 && compactions == 1
  }

  /** What a successful flush leaves: nothing happens to an empty memtable. */
  ghost predicate Flushed(options: Options, s: State, t: State)
  {
    && t.unflushed == map[]
    && (if s.unflushed == map[] then t.names == s.names && t.compactions == s.compactions
        else FlushLeaves(options, |s.names|, |t.names|, t.compactions - s.compactions))
  }

  /** The memtable is flushed when a write finds it full. */
  predicate FlushesFirst(options: Options, s: State)
  {
    s.unflushed != map[] && TotalSize(s.unflushed) >= options.memtableThreshold
  }

  /** What making room for a write leaves. */
  ghost predicate RoomMade(options: Options, s: State, t: State)
  {
    if FlushesFirst(options, s)
      then t.unflushed == map[] && FlushLeaves(options, |s.names|, |t.names|, t.compactions - s.compactions)
      else t.unflushed == s.unflushed && t.names == s.names && t.compactions == s.compactions
  }

  /** The record is in the memtable, and the tables are as they were. */
  ghost predicate Recorded(s: State, t: State, e: Entry)
  {
    t.unflushed == s.unflushed[e.key := CellOf(e)] && t.names == s.names && t.compactions == s.compactions
  }

  /** What a successful write leaves: the record on top of the memtable, which has been flushed before
      if it was full. */
  ghost predicate WriteLeaves(options: Options, s: State, t: State, e: Entry)
  {
    if FlushesFirst(options, s) then
      && t.unflushed == map[e.key := CellOf(e)]
      && FlushLeaves(options, |s.names|, |t.names|, t.compactions - s.compactions)
    else
      && t.unflushed == s.unflushed[e.key := CellOf(e)]
      && t.names == s.names && t.compactions == s.compactions
  }

  /** The directory holds the tables being read, the manifest and the log, and nothing else. */
  ghost predicate Tidy(s: State)
  {
    forall n :: n in s.disk ==> n in s.names || n == MANIFEST || n == WAL
  }

  /** Moreover the manifest lists the tables being read. */
  ghost predicate Settled(s: State)
  {
    Listed(s.disk) == s.names && Tidy(s)
  }

  ghost predicate StaysSettled(s: State, t: State)
  {
    Settled(s) && t.ignored == s.ignored ==> Settled(t)
  }

  ghost predicate StaysTidy(s: State, t: State)
  {
    Tidy(s) && t.ignored == s.ignored ==> Tidy(t)
  }

  /** The most tables that are left after a successful operation. */
  function MaxTables(options: Options): nat
  {
    if options.compactionThreshold <= 2 then 1 else options.compactionThreshold - 1
  }

  /** Ghost bookkeeping: the files that the readers read, what has gone wrong, how many
      compactions have replaced their inputs, and how many manifests are incomplete. */
  datatype Book = Book(names: seq<Name>, lost: bool, exposed: bool, compactions: nat, shorts: nat)

  predicate SameCounts(a: Book, b: Book)
  {
    b.compactions == a.compactions && b.shorts == a.shorts
  }

  class KVStore {
    const fs: FileSystem
    const options: Options
    const memtable: MemTable
    const wal: Wal
    /** Oldest first. */
    var sstables: seq<SSTableReader>
    var isOpen: bool
    var nextSeq: nat
    ghost var book: Book

    ghost function Now(): State
      reads this, fs, memtable, wal
    {
      State(fs.files, fs.crashes, fs.failures, fs.ignored, book.names, nextSeq, memtable.table, wal.isOpen, wal.good,
            book.lost, book.exposed, book.compactions, book.shorts)
    }

    /** The parts fit together, open or not. */
    ghost predicate Sound()
      reads this, fs, memtable, wal
    {
      && memtable.Valid() && memtable.sizeThreshold == options.memtableThreshold
      && wal.fs == fs && wal.Valid()
    }

    ghost predicate Valid()
      reads this, fs, memtable, wal, sstables
    {
      && Sound()
      && (isOpen ==> wal.path == WAL && Standing(Now()) && AllHold(fs, sstables, book.names, fs.files))
    }

    ghost function View(): map<Key, Value>
      requires Valid() && isOpen
      reads this, fs, memtable, wal, sstables
    {
      ViewOf(Now())
    }

    constructor (fs: FileSystem, options: Options)
      ensures this.fs == fs && this.options == options
      ensures Valid() && !isOpen && fresh(memtable) && fresh(wal) && sstables == [] && book == Book([], false, false, 0, 0)
    {
      this.fs := fs;
      this.options := options;
      memtable := new MemTable(options.memtableThreshold);
      wal := new Wal(fs);
      sstables := [];
      isOpen := false;
      nextSeq := 1;
      book := Book([], false, false, 0, 0);
    }

    // ---------- opening and closing ----------

    /** Recovers the state from the disk: the listed tables that exist, and the log on top. A
        manifest or a log that is there and cannot be read counts as empty. */
    method Open(path: string) returns (status: Status)
      requires Valid()
      modifies `sstables, `book, `nextSeq, `isOpen, fs, memtable, wal
      ensures isOpen == status.OK?
      ensures if path == "" then status.InvalidArgument? else status.OK? || status.Corruption? || status.IOError?
      ensures status.IOError? ==> fs.failures > old(fs.failures)
      ensures fs.files == if status.OK? && WAL !in old(fs.files) then old(fs.files)[WAL := []] else old(fs.files)
      ensures forall d :: d in old(fs.crashes) ==> d in fs.crashes
      ensures forall d :: d in fs.crashes ==> d in old(fs.crashes) || d == old(fs.files) || d == fs.files
      ensures fs.failures >= old(fs.failures) && fs.ignored == old(fs.ignored) && SameCounts(old(book), book)
      ensures forall i :: 0 <= i < |sstables| ==> sstables[i] in old(sstables) || fresh(sstables[i])
      ensures Recovers(old(fs.files)) ==> Valid()
      ensures Recovers(old(fs.files)) && status.OK? ==>
        OpenedFrom(old(fs.files), Now(), fs.failures - old(fs.failures))
      ensures Recovers(old(fs.files)) && fs.failures == old(fs.failures) && path != "" ==>
        status.OK? && View() == RecoveredView(old(fs.files)) && Taken(Now())
      ensures fs.failures == old(fs.failures) && path != "" ==>
        (status.Corruption? <==> LogOf(old(fs.files)).outcome.Corrupt? || SomeBad(old(fs.files)))
    {
      hide Recovers, Standing, AllHold, Listed, LogOf, LoggedLayer, TotalSize, EmptyTombstones, RecoveredView,
        Present, Taken, TakenPast, WellFormed, NumberOf, ViewOf, SomeBad, OpenedFrom;
      if isOpen {
        Close();
      }
      if path == "" {
        return InvalidArgument;
      }
      ghost var d0, f0 := fs.files, fs.failures;
      if Recovers(d0) {
        NothingBad(d0);
      }
      ghost var manifestRead, logRead;
      status, manifestRead, logRead := LoadState();
      if status.OK? {
        status := StartLogging(manifestRead, logRead);
      }
    }

    /** Opens the log for writing, after which the store is open. */
    method StartLogging(ghost manifestRead: bool, ghost logRead: bool) returns (status: Status)
      requires Sound() && !isOpen && AllHold(fs, sstables, book.names, fs.files) && !book.lost && !book.exposed
      requires WellFormed(memtable.table) && forall n :: n in book.names ==> NumberOf(n) < nextSeq
      requires book.names == (if manifestRead then Present(fs.files, Listed(fs.files)) else [])
      requires memtable.table == (if logRead then LoggedLayer(fs.files) else map[])
      modifies `isOpen, fs`files, fs`crashes, fs`failures, wal
      ensures status.OK? || status.IOError?
      ensures isOpen == status.OK?
      ensures fs.files == if status.OK? && WAL !in old(fs.files) then old(fs.files)[WAL := []] else old(fs.files)
      ensures fs.crashes == old(fs.crashes) + iset{fs.files}
      ensures fs.failures == if status.OK? then old(fs.failures) else old(fs.failures) + 1
      ensures Sound() && (Recovers(old(fs.files)) ==> Valid())
      ensures status.OK? && Recovers(old(fs.files)) ==> OpenedFrom(old(fs.files), Now(), Refusals(manifestRead, logRead))
      ensures status.OK? && Recovers(old(fs.files)) && manifestRead && logRead ==>
        ViewOf(Now()) == RecoveredView(old(fs.files)) && Taken(Now())
    {
      hide Recovers, Standing, AllHold, Listed, LogOf, LoggedLayer, TotalSize, EmptyTombstones, RecoveredView,
        Present, Taken, TakenPast, WellFormed, NumberOf, ViewOf, OpenedFrom;
      ghost var d0, loaded := fs.files, Now();
      status := wal.Open(WAL);
      if !status.OK? {
        return;
      }
      isOpen := true;
      if Recovers(d0) {
        LoadedIsTaken(d0, loaded, Now(), manifestRead, logRead);
        OpenedState(d0, Now(), manifestRead, logRead);
        LogMade(d0, fs.files);
        AllHoldUntouched(fs, sstables, book.names, d0, fs.files, {WAL});
      }
    }

    /** Everything but opening the log for writing. */
    method LoadState() returns (status: Status, ghost manifestRead: bool, ghost logRead: bool)
      requires memtable.Valid()
      modifies `sstables, `book, `nextSeq, fs`failures, memtable
      ensures status.OK? || status.Corruption?
      ensures fs.failures >= old(fs.failures) && SameCounts(old(book), book)
      ensures memtable.Valid() && (status.OK? ==> WellFormed(memtable.table))
      ensures forall i :: 0 <= i < |sstables| ==> fresh(sstables[i])
      ensures AllHold(fs, sstables, book.names, fs.files) && !book.lost && !book.exposed
      ensures forall n :: n in book.names ==> NumberOf(n) < nextSeq
      ensures status.OK? ==>
        && fs.failures == old(fs.failures) + Refusals(manifestRead, logRead)
        && book.names == (if manifestRead then Present(fs.files, Listed(fs.files)) else [])
        && memtable.table == (if logRead then LoggedLayer(fs.files) else map[])
      ensures status.OK? && fs.failures == old(fs.failures) ==> !LogOf(fs.files).outcome.Corrupt? && !SomeBad(fs.files)
      ensures !status.OK? ==> fs.failures > old(fs.failures) || LogOf(fs.files).outcome.Corrupt? || SomeBad(fs.files)
    {
      hide AllHold, Listed, LogOf, LoggedLayer, TotalSize, EmptyTombstones, BadFile, WellFormed, NumberOf;
      logRead := true;
      NothingPresent(fs.files);
      var listed;
      listed, manifestRead := ReadManifest();
      status := OpenTables(listed);
      if status.OK? {
        status, logRead := ReplayLog();
      }
    }

    method Close()
      requires Valid()
      modifies `sstables, `book, `isOpen, memtable, wal`isOpen
      ensures Valid() && !isOpen && sstables == [] && memtable.table == map[] && !wal.isOpen
      ensures SameCounts(old(book), book)
    {
      hide Standing, AllHold, TotalSize;
      wal.Close();
      sstables, book := [], book.(names := []);
      memtable.Clear();
      isOpen := false;
    }

    /** The lines of the manifest; an unreadable manifest counts as an empty one. */
    method ReadManifest() returns (listed: seq<Name>, ghost read: bool)
      modifies fs`failures
      ensures fs.failures == if read then old(fs.failures) else old(fs.failures) + 1
      ensures !read ==> MANIFEST in fs.files
      ensures listed == if read then Listed(fs.files) else []
    {
      hide Lines;
      listed, read := [], true;
      var there := fs.Exists(MANIFEST);
      if there {
        var ok, content := fs.Read(MANIFEST);
        if ok {
          listed := SplitLines(content);
        }
        read := ok;
      }
    }

    /** Opens the listed tables that exist, and finds the next file number. */
    method OpenTables(listed: seq<Name>) returns (status: Status)
      modifies `sstables, `book, `nextSeq, fs`failures
      ensures status.OK? || status.Corruption?
      ensures fs.failures >= old(fs.failures) && (status.OK? ==> fs.failures == old(fs.failures))
      ensures forall i :: 0 <= i < |sstables| ==> fresh(sstables[i])
      ensures AllHold(fs, sstables, book.names, fs.files) && !book.lost && !book.exposed
      ensures SameCounts(old(book), book)
      ensures status.OK? ==> book.names == Present(fs.files, listed)
      ensures nextSeq == MaxNumber(book.names) + 1 && forall n :: n in book.names ==> NumberOf(n) < nextSeq
      ensures nextSeq == 1 || exists n :: n in book.names && NumberOf(n) == nextSeq - 1
      ensures !status.OK? ==> fs.failures > old(fs.failures) || exists n :: n in listed && BadFile(fs.files, n)
      ensures status.OK? ==> forall n :: n in listed ==> !BadFile(fs.files, n)
    {
      hide LoadTable, AllHold, ParseNumber, Present, BadFile, MaxNumber, NoneBad;
      sstables, book := [], book.(names := [], lost := false, exposed := false);
      var maxSeq := 0;
      nextSeq := 1;
      AllHoldNone(fs, fs.files);
      NothingPresent(fs.files);
      NothingToOpen(fs.files);
      for i := 0 to |listed|
        invariant fs.failures == old(fs.failures) && nextSeq == maxSeq + 1
        invariant AllHold(fs, sstables, book.names, fs.files) && (forall i :: 0 <= i < |sstables| ==> fresh(sstables[i]))
        invariant !book.lost && !book.exposed && SameCounts(old(book), book)
        invariant book.names == Present(fs.files, listed[..i])
        invariant maxSeq == MaxNumber(book.names) && NoneBad(fs.files, listed[..i])
      {
        PresentNext(fs.files, listed, i);
        var there := fs.Exists(listed[i]);
        if there {
          var reader := new SSTableReader(fs);
          status := reader.Open(listed[i], options.enableBloom);
          if !status.OK? {
            assert fs.failures > old(fs.failures) || BadFile(fs.files, listed[i]);
            OpenedAll(fs.files, listed[..i], book.names);
            return Corruption;
          }
          GoodFile(reader, fs.files);
          AllHoldMore(fs, sstables, book.names, fs.files, reader, listed[i]);
          NumbersMore(book.names, listed[i]);
          sstables, book := sstables + [reader], book.(names := book.names + [listed[i]]);
          match ParseNumber(listed[i])
          case None =>
          case Some(seqNumber) =>
            if seqNumber > maxSeq {
              maxSeq := seqNumber;
            }
          nextSeq := maxSeq + 1;
        }
        NoneBadMore(fs.files, listed, i);
      }
      assert listed[..|listed|] == listed;
      OpenedAll(fs.files, listed, book.names);
      status := OK;
    }

    /** Replays the log into an empty memtable; a torn tail is accepted. An unreadable log counts
        as an empty one. */
    method ReplayLog() returns (status: Status, ghost read: bool)
      requires memtable.Valid()
      modifies fs`failures, memtable
      ensures memtable.Valid() && WellFormed(memtable.table)
      ensures fs.failures == if read then old(fs.failures) else old(fs.failures) + 1
      ensures !read ==> WAL in fs.files
      ensures status.OK? || status.Corruption?
      ensures memtable.table == if read then LoggedLayer(fs.files) else map[]
      ensures status.OK? <==> (read ==> !LogOf(fs.files).outcome.Corrupt?)
    {
      hide Log, TotalSize, EmptyTombstones, LogLayer;
      memtable.Clear();
      status, read := OK, true;
      NothingReplayed();
      var there := fs.Exists(WAL);
      if there {
        var ok, content := fs.Read(WAL);
        if ok {
          LoggedWellFormed(content);
          var replayed, hadTruncation := ReplayInto(content, memtable);
          if !replayed.OK? && !hadTruncation {
            status := Corruption;
          }
        }
        read := ok;
      }
    }

    // ---------- reading ----------

    /** Memtable first, then the tables from the newest to the oldest, stopping at the first
        value or deletion. A table that cannot be read is passed over: then the answer is that
        of the stack of tables without it. */
    method Get(key: Key) returns (status: Status, value: Value)
      requires Valid()
      modifies fs`failures
      ensures Valid() && fs.failures >= old(fs.failures)
      ensures !isOpen ==> status.IOError?
      ensures isOpen && key == [] ==> status.InvalidArgument?
      ensures isOpen && key != [] ==> status.OK? || status.NotFound?
      ensures isOpen && key != [] && (key in memtable.table || fs.failures == old(fs.failures)) ==>
        if key in View() then status.OK? && value == View()[key] else status.NotFound?
      ensures isOpen && key != [] && key !in memtable.table ==>
        AnswersPast(TableList(Now()), key, fs.failures - old(fs.failures), ShownAs(status, value))
    {
      hide Standing, AllHold, TotalSize, Visible, Merge, Answer, AnswersPast, TableList, SearchTables;
      if !isOpen {
        return IOError, [];
      }
      if key == [] {
        return InvalidArgument, [];
      }
      var answer := memtable.Get(key);
      MemtableAnswers(Now(), key);
      if answer.Found? {
        return OK, answer.value;
      }
      if answer.Deleted? {
        return NotFound, [];
      }
      status, value := SearchNewestFirst(key);
      StandingAnyway(old(Now()), Now());
      if fs.failures == old(fs.failures) {
        AnswersAll(TableList(Now()), key, ShownAs(status, value));
        SearchIsMerge(TableList(Now()), key);
      }
    }

    /** The search reads past so many tables as the file system refuses to read. */
    method SearchNewestFirst(key: Key) returns (status: Status, value: Value)
      requires Valid() && isOpen
      modifies fs`failures
      ensures fs.failures >= old(fs.failures)
      ensures status.OK? || status.NotFound?
      ensures Standing(Now()) && AnswersPast(TableList(Now()), key, fs.failures - old(fs.failures), ShownAs(status, value))
    {
      hide Merge, LoadTable, Intact, Numbered, LayerOf, SearchTables, IsTable, WellFormed, Answer, TotalSize, AnswersPast,
        NotYet, Kept, HonestAbout, Excluded;
      ghost var tables := TableList(Now());
      var i := |sstables|;
      NotYetStart(key);
      assert tables[|tables|..] == [];
      while i > 0
        invariant 0 <= i <= |sstables|
        invariant fs.failures >= old(fs.failures)
        invariant NotYet(tables[i..], key, fs.failures - old(fs.failures))
      {
        i := i - 1;
        ghost var before := fs.failures;
        var found, answer := sstables[i].Get(key);
        assert tables[..i] + [tables[i]] + tables[i + 1..] == tables;
        assert [tables[i]] + tables[i + 1..] == tables[i..];
        if found.OK? || answer.Deleted? {
          AnsweredAt(tables[..i], tables[i], tables[i + 1..], key, fs.failures - old(fs.failures));
          StillAnswers(tables, key, fs.failures - old(fs.failures), answer);
        }
        if found.OK? {
          return OK, answer.value;
        }
        if answer.Deleted? {
          return NotFound, [];
        }
        NotYetMore(tables[i + 1..], key, before - old(fs.failures), tables[i], !found.IOError?);
      }
      assert tables[0..] == tables;
      NotAnswered(tables, key, fs.failures - old(fs.failures));
      return NotFound, [];
    }

    method SstableCount() returns (count: nat)
      requires Valid() && isOpen
      ensures count == |book.names|
    {
      hide Standing;
      count := |sstables|;
    }

    method MemtableSize() returns (size: nat)
      requires Valid()
      ensures size == TotalSize(memtable.table)
    {
      size := memtable.approximateSize;
    }

    // ---------- writing ----------

    /** A full memtable is flushed first; then the record goes to the log, and only then to the
        memtable. */
    method Put(key: Key, value: Value) returns (status: Status)
      requires Valid() && |key| + |value| < U32
      requires isOpen ==> Room(options, Now())
      modifies `sstables, `book, `nextSeq, fs, memtable, wal, sstables
      ensures Valid()
      ensures !isOpen ==> status.IOError? && Now() == old(Now())
      ensures isOpen ==> (status.InvalidArgument? <==> key == []) && (key == [] ==> Now() == old(Now()))
      ensures !status.InvalidArgument? ==> status.OK? || status.IOError? || status.Corruption?
      ensures isOpen && key != [] ==> Writes(old(Now()), Now(), Entry(key, value, Kind.Put), status.OK?)
      ensures isOpen && !status.OK? ==> ServesPart(old(Now()), Now())
      ensures !FlushCompacts(options, |old(book.names)|) ==> book.compactions == old(book.compactions)
      ensures forall i :: 0 <= i < |sstables| ==> sstables[i] in old(sstables) || fresh(sstables[i])
      ensures old(TotalSize(memtable.table)) < options.memtableThreshold ==> book == old(book) && nextSeq == old(nextSeq)
      ensures status.OK? ==> TotalSize(memtable.table) < Larger(options.memtableThreshold, 1) + |key| + |value| + ENTRY_OVERHEAD
      ensures status.OK? ==>
        WriteLeaves(options, old(Now()), Now(), Entry(key, value, Kind.Put)) && StaysSettled(old(Now()), Now())
      ensures old(TotalSize(memtable.table)) < options.memtableThreshold && key != [] ==> status.OK? || status.IOError?
    {
      hide AllHold, KeepsView, Standing, Writes, LogStep, Room, Now, TotalSize, ServesPart, ViewOf;
      if !isOpen {
        return IOError;
      }
      if key == [] {
        ServesAll(Now(), Now());
        return InvalidArgument;
      }
      ghost var s, e := Now(), Entry(key, value, Kind.Put);
      status := MakeRoom();
      if !status.OK? {
        FlushRefused(s, Now(), e);
        return;
      }
      ghost var t := Now();
      status := LogPut(key, value);
      WritesAfterFlush(s, t, Now(), e, status.OK?);
      if status.OK? {
        LeftByWrite(options, s, t, Now(), e);
      }
      if !status.OK? {
        KeepsItsView(s, t);
        ServesAll(s, Now());
      }
    }

    method Remove(key: Key) returns (status: Status)
      requires Valid() && |key| < U32
      requires isOpen ==> Room(options, Now())
      modifies `sstables, `book, `nextSeq, fs, memtable, wal, sstables
      ensures Valid()
      ensures !isOpen ==> status.IOError? && Now() == old(Now())
      ensures isOpen ==> (status.InvalidArgument? <==> key == []) && (key == [] ==> Now() == old(Now()))
      ensures !status.InvalidArgument? ==> status.OK? || status.IOError? || status.Corruption?
      ensures isOpen && key != [] ==> Writes(old(Now()), Now(), Entry(key, [], Tombstone), status.OK?)
      ensures isOpen && !status.OK? ==> ServesPart(old(Now()), Now())
      ensures !FlushCompacts(options, |old(book.names)|) ==> book.compactions == old(book.compactions)
      ensures forall i :: 0 <= i < |sstables| ==> sstables[i] in old(sstables) || fresh(sstables[i])
      ensures old(TotalSize(memtable.table)) < options.memtableThreshold ==> book == old(book) && nextSeq == old(nextSeq)
      ensures status.OK? ==> TotalSize(memtable.table) < Larger(options.memtableThreshold, 1) + |key| + ENTRY_OVERHEAD
      ensures status.OK? ==>
        WriteLeaves(options, old(Now()), Now(), Entry(key, [], Tombstone)) && StaysSettled(old(Now()), Now())
      ensures old(TotalSize(memtable.table)) < options.memtableThreshold && key != [] ==> status.OK? || status.IOError?
    {
      hide AllHold, KeepsView, Standing, Writes, LogStep, Room, Now, TotalSize, ServesPart, ViewOf;
      if !isOpen {
        return IOError;
      }
      if key == [] {
        ServesAll(Now(), Now());
        return InvalidArgument;
      }
      ghost var s, e := Now(), Entry(key, [], Tombstone);
      status := MakeRoom();
      if !status.OK? {
        FlushRefused(s, Now(), e);
        return;
      }
      ghost var t := Now();
      status := LogRemove(key);
      WritesAfterFlush(s, t, Now(), e, status.OK?);
      if status.OK? {
        LeftByWrite(options, s, t, Now(), e);
      }
      if !status.OK? {
        KeepsItsView(s, t);
        ServesAll(s, Now());
      }
    }

    method Flush() returns (status: Status)
      requires Valid() && (isOpen ==> Room(options, Now()))
      modifies `sstables, `book, `nextSeq, fs, memtable, wal, sstables
      ensures status.OK? || status.IOError? || status.Corruption?
      ensures Valid()
      ensures !isOpen ==> status.IOError? && Now() == old(Now())
      ensures isOpen ==> KeepsView(old(Now()), Now(), status.OK?) && ServesPart(old(Now()), Now())
      ensures !FlushCompacts(options, |old(book.names)|) ==> book.compactions == old(book.compactions)
      ensures forall i :: 0 <= i < |sstables| ==> sstables[i] in old(sstables) || fresh(sstables[i])
      ensures status.OK? && old(memtable.table) != map[] ==>
        CleanLog(Now()) && Working(Now()) && (!Now().lost && Now().shorts == old(Now()).shorts ==> Safe(Now()))
      ensures status.OK? ==> Flushed(options, old(Now()), Now()) && StaysSettled(old(Now()), Now())
    {
      hide AllHold, KeepsView, Standing, Room, Now, Safe, CleanLog, Working, ServesPart;
      if !isOpen {
        return IOError;
      }
      status := FlushInternal();
    }

    method Compact() returns (status: Status)
      requires Valid() && (isOpen ==> Room(options, Now()))
      modifies `sstables, `book, `nextSeq, fs, sstables
      ensures status.OK? || status.IOError? || status.Corruption?
      ensures Valid()
      ensures !isOpen ==> status.IOError? && Now() == old(Now())
      ensures isOpen ==> KeepsView(old(Now()), Now(), status.OK?) && ServesPart(old(Now()), Now())
      ensures forall i :: 0 <= i < |sstables| ==> sstables[i] in old(sstables) || fresh(sstables[i])
      ensures status.OK? ==> |book.names| <= 1
      ensures status.OK? && |old(book.names)| >= 2 ==> |book.names| == 1 && book.compactions == old(book.compactions) + 1
      ensures |old(book.names)| < 2 ==> book == old(book)
      ensures status.OK? ==> StaysSettled(old(Now()), Now())
    {
      hide AllHold, KeepsView, Standing, Room, Now, ServesPart;
      if !isOpen {
        return IOError;
      }
      status := CompactInternal();
    }

    /** Flushes the memtable if it has reached its threshold. */
    method MakeRoom() returns (status: Status)
      requires Valid() && isOpen && Room(options, Now())
      modifies `sstables, `book, `nextSeq, fs, memtable, wal, sstables
      ensures status.OK? || status.IOError? || status.Corruption?
      ensures Valid() && KeepsView(old(Now()), Now(), status.OK?) && ServesPart(old(Now()), Now())
      ensures !FlushCompacts(options, |old(book.names)|) ==> book.compactions == old(book.compactions)
      ensures forall i :: 0 <= i < |sstables| ==> sstables[i] in old(sstables) || fresh(sstables[i])
      ensures old(TotalSize(memtable.table)) < options.memtableThreshold ==> book == old(book) && nextSeq == old(nextSeq)
      ensures status.OK? ==> TotalSize(memtable.table) < Larger(options.memtableThreshold, 1)
      ensures status.OK? ==> RoomMade(options, old(Now()), Now()) && StaysSettled(old(Now()), Now())
      ensures old(TotalSize(memtable.table)) < options.memtableThreshold ==> status.OK?
    {
      hide AllHold, KeepsView, Standing, Room, TotalSize, ServesPart, ViewOf, Settled;
      KeepsNothing(Now());
      ServesAll(Now(), Now());
      status := OK;
      var full := memtable.IsFull();
      if full {
        status := FlushInternal();
        NothingWeighsNothing();
      }
    }

    method LogPut(key: Key, value: Value) returns (status: Status)
      requires Valid() && isOpen && |key| + |value| < U32
      modifies fs, memtable, wal
      ensures status.OK? || status.IOError?
      ensures Valid() && Writes(old(Now()), Now(), Entry(key, value, Kind.Put), status.OK?)
      ensures Standing(old(Now())) && Standing(Now()) && (!status.OK? ==> ViewOf(Now()) == ViewOf(old(Now())))
      ensures book == old(book)
      ensures TotalSize(memtable.table) <= old(TotalSize(memtable.table)) + |key| + |value| + ENTRY_OVERHEAD
      ensures status.OK? ==> Recorded(old(Now()), Now(), Entry(key, value, Kind.Put))
      ensures Now().ignored >= old(Now()).ignored && StaysSettled(old(Now()), Now())
    {
      hide AllHold, Standing, Writes, TotalSize, Encode, EncodeAll, Listing, Listed, LogStep, EmptyTombstones, ViewOf, Appended;
      ghost var s, e := Now(), Entry(key, value, Kind.Put);
      StandingParts(s);
      status := wal.AppendRecord(key, value, Kind.Put);
      if status.OK? {
        memtable.Put(key, value);
      }
      LogAppended(s, Now(), e, status.OK?);
      RecordLogged(s, Now(), e, status.OK?);
      AllHoldUntouched(fs, sstables, book.names, s.disk, fs.files, {WAL});
      ListedBesides(s.disk, fs.files);
      TidyWithLog(s, Now());
    }

    method LogRemove(key: Key) returns (status: Status)
      requires Valid() && isOpen && |key| < U32
      modifies fs, memtable, wal
      ensures status.OK? || status.IOError?
      ensures Valid() && Writes(old(Now()), Now(), Entry(key, [], Tombstone), status.OK?)
      ensures Standing(old(Now())) && Standing(Now()) && (!status.OK? ==> ViewOf(Now()) == ViewOf(old(Now())))
      ensures book == old(book)
      ensures TotalSize(memtable.table) <= old(TotalSize(memtable.table)) + |key| + ENTRY_OVERHEAD
      ensures status.OK? ==> Recorded(old(Now()), Now(), Entry(key, [], Tombstone))
      ensures Now().ignored >= old(Now()).ignored && StaysSettled(old(Now()), Now())
    {
      hide AllHold, Standing, Writes, TotalSize, Encode, EncodeAll, Listing, Listed, LogStep, EmptyTombstones, ViewOf, Appended;
      ghost var s, e := Now(), Entry(key, [], Tombstone);
      StandingParts(s);
      status := wal.AppendRecord(key, [], Tombstone);
      if status.OK? {
        memtable.Remove(key);
      }
      LogAppended(s, Now(), e, status.OK?);
      RecordLogged(s, Now(), e, status.OK?);
      AllHoldUntouched(fs, sstables, book.names, s.disk, fs.files, {WAL});
      ListedBesides(s.disk, fs.files);
      TidyWithLog(s, Now());
    }

    // ---------- steps of a flush ----------

    /** "sst_", the next number in at least six digits, ".sst". */
    method GenerateFilename() returns (name: Name)
      modifies this`nextSeq
      ensures name == FileName(old(nextSeq)) && nextSeq == old(nextSeq) + 1
    {
      name := FileName(nextSeq);
      nextSeq := nextSeq + 1;
    }

    /** Writes the names of the tables to a temporary file and renames it over the manifest,
        without asking whether the file is complete. */
    method UpdateManifest() returns (status: Status)
      requires PathsMatch(sstables, book.names) && Numbered(book.names, nextSeq)
      modifies `book, fs
      ensures status.OK? || status.IOError?
      ensures ManifestStep(old(Now()), Now(), status.OK?) && book == old(book).(shorts := book.shorts)
      ensures status.OK? ==> book.shorts == if fs.ignored == old(fs.ignored) then old(book.shorts) else old(book.shorts) + 1
    {
      hide Confined, Numbered, Lines, Text, ManifestText, ManifestStep, CutAt;
      ghost var s := Now();
      var ok := fs.Create(MANIFEST_TEMP);
      if !ok {
        ManifestNotCreated(s, Now());
        return IOError;
      }
      ghost var disk, crashes := fs.files, fs.crashes;
      ghost var k := WriteNames();
      ghost var written, cuts := fs.files, fs.crashes;
      ConfinedChain(s.disk, s.crashes, disk, crashes, written, cuts, MANIFEST_TEMP);
      ok := fs.Rename(MANIFEST_TEMP, MANIFEST);
      if !ok {
        var _ := fs.Remove(MANIFEST_TEMP);
        ManifestRefused(s, Now(), written, cuts);
        return IOError;
      }
      book := book.(shorts := if fs.ignored == s.ignored then book.shorts else book.shorts + 1);
      ManifestRenamed(s, Now(), written, cuts, k);
      status := OK;
    }

    /** One line for each reader, as long as the stream takes them. */
    method WriteNames() returns (ghost k: nat)
      requires PathsMatch(sstables, book.names)
      requires MANIFEST_TEMP in fs.files && fs.files[MANIFEST_TEMP] == []
      modifies fs`files, fs`crashes, fs`ignored
      ensures fs.ignored >= old(fs.ignored)
      ensures MANIFEST_TEMP in fs.files && CutAt(ManifestText(book.names), fs.files[MANIFEST_TEMP], k)
      ensures fs.ignored == old(fs.ignored) <==> k == |ManifestText(book.names)|
      ensures Confined(old(fs.files), old(fs.crashes), fs.files, fs.crashes, MANIFEST_TEMP)
    {
      hide Confined, Text, CutAt, ManifestText;
      k := 0;
      var good := true;
      ConfinedNothing(fs.files, fs.crashes, MANIFEST_TEMP);
      NothingListed();
      assert book.names[..0] == [];
      for i := 0 to |sstables|
        invariant fs.ignored >= old(fs.ignored) && (good <==> fs.ignored == old(fs.ignored))
        invariant MANIFEST_TEMP in fs.files && CutAt(ManifestText(book.names[..i]), fs.files[MANIFEST_TEMP], k)
        invariant good <==> k == |ManifestText(book.names[..i])|
        invariant Confined(old(fs.files), old(fs.crashes), fs.files, fs.crashes, MANIFEST_TEMP)
      {
        ghost var disk, crashes, part := fs.files, fs.crashes, fs.files[MANIFEST_TEMP];
        var line := Text(sstables[i].path) + [NEWLINE];
        if good {
          var reached;
          good, reached := fs.WriteUnchecked(MANIFEST_TEMP, line);
          ConfinedChain(old(fs.files), old(fs.crashes), disk, crashes, fs.files, fs.crashes, MANIFEST_TEMP);
          LineAdded(book.names, i, part, k, reached);
          k := k + reached;
        } else {
          LineSkipped(book.names, i, part, k);
        }
      }
      assert book.names[..|book.names|] == book.names;
    }

    /** Writes the memtable to a new file and opens it. */
    method BuildTable() returns (status: Status, reader: SSTableReader)
      requires memtable.Valid() && WellFormed(memtable.table) && Roomy(options, |memtable.table|)
      requires AllHold(fs, sstables, book.names, fs.files) && FileName(nextSeq) !in book.names
      modifies `nextSeq, fs`files, fs`crashes, fs`failures
      ensures (status.OK? || status.IOError? || status.Corruption?) && nextSeq == old(nextSeq) + 1
      ensures AllHold(fs, sstables, book.names, fs.files) && fresh(reader)
      ensures var name := FileName(old(nextSeq));
        && Confined(old(fs.files), old(fs.crashes), fs.files, fs.crashes, name)
        && fs.failures == (if status.OK? then old(fs.failures) else old(fs.failures) + 1)
        && (status.OK? ==>
              && reader.Holds(fs.files) && reader.path == name && reader.fs == fs
              && HoldsLayer(fs.files, name, memtable.table)
              && fs.files[name] == TableBytes(Listing(memtable.table), ShapeFor(options, |Listing(memtable.table)|)))
    {
      hide Confined, LoadTable, Intact, TableBytes, Listing, Roomy, WellFormed, LayerOf, Fits, TotalSize, IsTable,
        AllHold, OnlyTouches, FileName;
      var name := GenerateFilename();
      reader := new SSTableReader(fs);
      var listed := Listing(memtable.table);
      TableWritable(options, memtable.table);
      status := WriteEntries(fs, name, listed, options);
      ConfinedMeans(old(fs.files), old(fs.crashes), fs.files, fs.crashes, name);
      AllHoldUntouched(fs, sstables, book.names, old(fs.files), fs.files, {name});
      if !status.OK? {
        return;
      }
      status := reader.Open(name, options.enableBloom);
      IntactFileLoads(fs.files[name]);
    }

    /** Writes the memtable to a new table and starts to read it. */
    method WriteTable() returns (status: Status)
      requires Valid() && isOpen && memtable.table != map[] && Room(options, Now())
      modifies `sstables, `book, `nextSeq, fs
      ensures status.OK? || status.IOError? || status.Corruption?
      ensures Valid() && KeepsView(old(Now()), Now(), status.OK?) && ViewOf(Now()) == ViewOf(old(Now()))
      ensures forall i :: 0 <= i < |sstables| ==> sstables[i] in old(sstables) || fresh(sstables[i])
      ensures |book.names| == if status.OK? then |old(book.names)| + 1 else |old(book.names)|
      ensures SameCounts(old(book), book) && Now().shorts == old(Now()).shorts
      ensures status.OK? ==> FlushedFrom(old(Now()), Now()) && memtable.table == old(Now()).unflushed
      ensures status.OK? ==> StaysTidy(old(Now()), Now())
    {
      hide FlushedFrom, ViewOf, HoldsLayer, Confined, LoadTable, Intact, FileName, LayerOf, TotalSize, KeepsView, AllHold, Room,
        TablesIn, Standing, Numbered, WellFormed, IsTable, Encodable, Canonical, EmptyTombstones, TableBytes, Listing, EncodeAll,
        ShapeFor, StaysTidy, Roomy, LogOf, Listed;
      ghost var s := Now();
      ReadyToWrite(options, s);
      var reader;
      status, reader := BuildTable();
      if status.OK? {
        AllHoldMore(fs, sstables, book.names, fs.files, reader, reader.path);
        sstables, book := sstables + [reader], book.(names := book.names + [reader.path]);
      }
      TableWritten(s, Now(), status.OK?);
      if status.OK? {
        TidyWithTable(s, Now());
      }
    }

    /** Rewrites the manifest; if that succeeds it lists no deleted table any more. */
    method RewriteManifest() returns (status: Status)
      requires AllHold(fs, sstables, book.names, fs.files) && Numbered(book.names, nextSeq)
      modifies `book, fs
      ensures status.OK? || status.IOError?
      ensures ManifestStep(old(Now()), Now(), status.OK?) && Otherwise(old(Now()), Now())
      ensures book == old(book).(exposed := !(status.OK? && book.shorts == old(book.shorts)) && old(book.exposed),
                                 shorts := book.shorts)
      ensures AllHold(fs, sstables, book.names, fs.files)
      ensures WAL in old(fs.files) ==> WAL in fs.files
      ensures status.OK? && book.shorts == old(book.shorts) ==> Listed(fs.files) == book.names
    {
      hide AllHold, ManifestStep, Listed, PathsMatch, OnlyTouches, Numbered;
      ghost var s := Now();
      NumberedApart(book.names, nextSeq, nextSeq);
      AllHoldPaths(fs, sstables, book.names, fs.files);
      status := UpdateManifest();
      ghost var m := Now();
      ManifestTouches(s, m, status.OK?);
      AllHoldUntouched(fs, sstables, book.names, s.disk, fs.files, {MANIFEST, MANIFEST_TEMP});
      book := book.(exposed := !(status.OK? && book.shorts == s.shorts) && book.exposed);
      ManifestStepOnDisk(s, m, Now(), status.OK?);
    }

    /** Lists the tables being read, the newest of which is made of the memtable of s0. */
    method ListTables(ghost s0: State) returns (status: Status)
      requires Valid() && isOpen && FlushedFrom(s0, Now())
      modifies `book, fs
      ensures status.OK? || status.IOError?
      ensures Valid() && KeepsView(old(Now()), Now(), status.OK?) && ViewOf(Now()) == ViewOf(old(Now()))
      ensures book.names == old(book.names) && book.compactions == old(book.compactions) && FlushedFrom(s0, Now())
      ensures status.OK? && book.shorts == old(book.shorts) ==> !book.exposed && Listed(fs.files) == book.names
      ensures status.OK? ==> StaysTidy(old(Now()), Now())
    {
      hide AllHold, TotalSize, KeepsView, TableList, Standing, ManifestStep, Listed, Numbered, FlushedFrom, EmptyTombstones,
        ViewOf;
      ghost var s := Now();
      StandingParts(s);
      status := RewriteManifest();
      ManifestReplaced(s, Now(), status.OK?);
      FlushedStill(s0, s, Now());
      if status.OK? {
        TidyWithManifest(s, Now());
      }
    }

    /** Drops the memtable, of which a table has been made, and truncates the log: safe if the
        table is listed. */
    method DropMemtable(ghost s0: State) returns (status: Status)
      requires Valid() && isOpen && memtable.table == s0.unflushed != map[] && FlushedFrom(s0, Now())
      modifies fs, memtable, wal
      ensures status.OK? || status.IOError?
      ensures Valid() && KeepsServed(old(Now()), Now(), status.OK?) && ViewOf(Now()) == ViewOf(old(Now()))
      ensures FlushedFrom(s0, Now()) && memtable.table == Now().unflushed == map[]
      ensures status.OK? ==> Working(Now()) && CleanLog(Now())
      ensures old(Listed(fs.files) == book.names && !book.exposed) ==>
        KeepsView(old(Now()), Now(), status.OK?) && (status.OK? && !Now().lost ==> Safe(Now()))
      ensures Listed(fs.files) == old(Listed(fs.files))
      ensures StaysTidy(old(Now()), Now())
    {
      hide AllHold, TotalSize, KeepsView, KeepsServed, TableList, Standing, Listed, FlushedFrom, EmptyTombstones, Safe,
        CleanLog, ViewOf;
      ghost var s := Now();
      StandingParts(s);
      memtable.Clear();
      status := wal.Clear();
      LogTouched(s.disk, fs.files, status.OK?);
      ListedBesides(s.disk, fs.files);
      TidyWithLog(s, Now());
      AllHoldUntouched(fs, sstables, book.names, s.disk, fs.files, {WAL});
      LogCleared(s0, s, Now(), status.OK?);
    }

    /** Moves the memtable to a new table. */
    method MoveMemtable() returns (status: Status)
      requires Valid() && isOpen && memtable.table != map[] && Room(options, Now())
      modifies `sstables, `book, `nextSeq, fs, memtable, wal
      ensures status.OK? || status.IOError? || status.Corruption?
      ensures Valid() && KeepsView(old(Now()), Now(), status.OK?) && ViewOf(Now()) == ViewOf(old(Now()))
      ensures forall i :: 0 <= i < |sstables| ==> sstables[i] in old(sstables) || fresh(sstables[i])
      ensures status.OK? ==> |sstables| == |book.names| == |old(book.names)| + 1
      ensures status.OK? ==> FlushedFrom(old(Now()), Now()) && memtable.table == Now().unflushed == map[]
      ensures status.OK? ==> Working(Now()) && CleanLog(Now())
      ensures status.OK? && !Now().lost && Now().shorts == old(Now()).shorts ==> Safe(Now())
      ensures book.compactions == old(book.compactions)
      ensures status.OK? && Tidy(old(Now())) && Now().ignored == old(Now()).ignored ==> Settled(Now())
    {
      hide AllHold, KeepsView, Standing, Listed, FlushedFrom, Safe, CleanLog, Working, Room, Sound, Now, ViewOf;
      ghost var s := Now();
      status := WriteTable();
      if !status.OK? {
        return;
      }
      ghost var written := Now();
      status := SettleTable(s);
      KeepsViewChain(s, written, Now(), status.OK?);
      KeepsTold(s, written, true);
      KeepsTold(written, Now(), status.OK?);
    }

    /** Lists the table that was made of the memtable of s0, and drops the memtable. */
    method SettleTable(ghost s0: State) returns (status: Status)
      requires Valid() && isOpen && memtable.table == s0.unflushed != map[] && FlushedFrom(s0, Now())
      modifies `book, fs, memtable, wal
      ensures status.OK? || status.IOError? || status.Corruption?
      ensures Valid() && KeepsView(old(Now()), Now(), status.OK?) && ViewOf(Now()) == ViewOf(old(Now()))
      ensures book.names == old(book.names) && book.compactions == old(book.compactions)
      ensures status.OK? ==> |sstables| == |book.names|
      ensures status.OK? ==> FlushedFrom(s0, Now()) && memtable.table == Now().unflushed == map[]
      ensures status.OK? ==> Working(Now()) && CleanLog(Now())
      ensures status.OK? && !Now().lost && Now().shorts == old(Now()).shorts ==> Safe(Now())
      ensures status.OK? && Tidy(old(Now())) && Now().ignored == old(Now()).ignored ==> Settled(Now())
    {
      hide AllHold, KeepsView, KeepsServed, Standing, Listed, FlushedFrom, Safe, CleanLog, Working, Sound, ViewOf;
      ghost var s := Now();
      status := ListTables(s0);
      if !status.OK? {
        return;
      }
      ghost var listed := Now();
      AllHoldPaths(fs, sstables, book.names, fs.files);
      status := DropMemtable(s0);
      SettledSafely(s, listed, Now(), status.OK?, listed.shorts == s.shorts);
      KeepsTold(s, listed, true);
      KeepsCounts(listed, Now(), status.OK?);
    }

    /** Moves the memtable to a new table, and compacts if there are enough tables. */
    method FlushInternal() returns (status: Status)
      requires Valid() && isOpen && Room(options, Now())
      modifies `sstables, `book, `nextSeq, fs, memtable, wal, sstables
      ensures status.OK? || status.IOError? || status.Corruption?
      ensures Valid() && KeepsView(old(Now()), Now(), status.OK?) && ServesPart(old(Now()), Now())
      ensures forall i :: 0 <= i < |sstables| ==> sstables[i] in old(sstables) || fresh(sstables[i])
      ensures status.OK? && old(memtable.table) != map[] ==>
        CleanLog(Now()) && Working(Now()) && (!Now().lost && Now().shorts == old(Now()).shorts ==> Safe(Now()))
      ensures status.OK? ==> Flushed(options, old(Now()), Now()) && StaysSettled(old(Now()), Now())
      ensures !FlushCompacts(options, |old(book.names)|) ==> book.compactions == old(book.compactions)
    {
      hide AllHold, KeepsView, Standing, Listed, FlushedFrom, Safe, CleanLog, Working, Room, Sound, ServesPart, ViewOf;
      ghost var s := Now();
      KeepsNothing(s);
      ServesAll(s, s);
      if memtable.table == map[] {
        return OK;
      }
      status := MoveMemtable();
      ServesAll(s, Now());
      KeepsTold(s, Now(), status.OK?);
      if !status.OK? {
        return;
      }
      if |sstables| >= options.compactionThreshold {
        ghost var moved := Now();
        StillRoom(options, s, moved);
        status := CompactInternal();
        KeepsViewChain(s, moved, Now(), status.OK?);
        KeepsTold(moved, Now(), status.OK?);
        ServesPartOfFlushed(s, moved, Now());
        if status.OK? {
          KeepsSafety(s, moved);
          KeepsSafety(moved, Now());
        }
      }
    }

    // ---------- steps of a compaction ----------

    /** Closes the readers before their files are deleted. */
    method Detach() returns (inputs: seq<Name>)
      requires PathsMatch(sstables, book.names)
      modifies `sstables, `book, sstables
      ensures inputs == old(book.names) && sstables == [] && book == old(book).(names := [])
    {
      inputs := [];
      var readers := sstables;
      for i := 0 to |readers|
        invariant inputs == book.names[..i]
      {
        inputs := inputs + [readers[i].path];
      }
      for i := 0 to |readers|
        invariant book == old(book)
      {
        readers[i].Close();
      }
      sstables, book := [], book.(names := []);
    }

    /** Opens the inputs of a failed compaction again, as far as possible. */
    method ReopenInputs(inputs: seq<Name>, ghost next: nat)
      requires sstables == [] && book.names == [] && Numbered(inputs, next)
      requires AllPresent(fs.files, inputs) && IntactIfPresent(fs.files, inputs)
      modifies `sstables, `book, fs`failures
      ensures fs.failures >= old(fs.failures)
      ensures AllHold(fs, sstables, book.names, fs.files) && (forall i :: 0 <= i < |sstables| ==> fresh(sstables[i]))
      ensures Numbered(book.names, next) && Subsequence(book.names, inputs)
      ensures (old(book.lost) ==> book.lost) && (!book.lost ==> book.names == inputs)
      ensures book.exposed == old(book.exposed) && SameCounts(old(book), book)
      ensures book.lost && !old(book.lost) ==> fs.failures > old(fs.failures)
    {
      hide LoadTable, AllHold, Numbered, Intact, IsTable, Subsequence;
      AllHoldNone(fs, fs.files);
      NoneNumbered(next);
      NoneOfNone();
      for i := 0 to |inputs|
        invariant fs.failures >= old(fs.failures)
        invariant AllHold(fs, sstables, book.names, fs.files) && (forall i :: 0 <= i < |sstables| ==> fresh(sstables[i]))
        invariant Numbered(book.names, next) && Subsequence(book.names, inputs[..i])
        invariant (old(book.lost) ==> book.lost) && (!book.lost ==> book.names == inputs[..i])
        invariant book.exposed == old(book.exposed) && SameCounts(old(book), book)
        invariant book.lost && !old(book.lost) ==> fs.failures > old(fs.failures)
      {
        IntactLoads(fs.files, inputs, i);
        OneMoreOf(book.names, inputs, i);
        var there := fs.Exists(inputs[i]);
        if there {
          var reader := new SSTableReader(fs);
          var status := reader.Open(inputs[i], options.enableBloom);
          if status.OK? {
            AllHoldMore(fs, sstables, book.names, fs.files, reader, inputs[i]);
            MoreNumbered(inputs, next, book.names, i);
            sstables, book := sstables + [reader], book.(names := book.names + [inputs[i]]);
          } else {
            book := book.(lost := true);
          }
        }
      }
      assert inputs[..|inputs|] == inputs;
    }

    /** Runs the compaction on the files. */
    method RunCompaction(inputs: seq<Name>, out: Name, ghost s: State) returns (status: Status)
      requires Standing(s) && Room(options, s) && s.disk == fs.files && s.crashes == fs.crashes
      requires s.failures == fs.failures && s.ignored == fs.ignored
      requires inputs == s.names != [] && out == FileName(s.next)
      modifies fs
      ensures (status.OK? || status.IOError? || status.Corruption?) && fs.ignored >= s.ignored
      ensures status.OK? ==>
        (fs.files, fs.crashes) in CompactionOutcomes(s, fs.ignored == s.ignored, options) && fs.failures == s.failures
      ensures !status.OK? ==> Confined(s.disk, s.crashes, fs.files, fs.crashes, out + TEMP_SUFFIX) && fs.failures > s.failures
      ensures status.OK? && fs.ignored == s.ignored ==> Cleared(s, fs.files, out)
    {
      hide Confined, TableBytes, Intact, IsTable, FileName, Merge, Installed, WithoutInputs, CompactedFile,
        CompactionCrash, Roomy, Numbered, WellFormed;
      NumberedApart(s.names, s.next, s.next);
      RoomForLayers(options, s);
      ghost var gone;
      status, gone := Compactions.Compact(fs, inputs, out, options, true);
      assert status.OK? ==> Deleting(InstalledIn(s, options), fs.files, s.names, out, fs.ignored == s.ignored);
      if status.OK? && fs.ignored == s.ignored {
        InputsCleared(s, fs.files, options);
      }
      assert status.OK? ==> CompactionStep(s, fs.files, fs.crashes, fs.ignored == s.ignored, options);
    }

    /** Takes the reader of the output as the only one, and lists it. */
    method ListOutput(out: Name, reader: SSTableReader, ghost s: State) returns (status: Status)
      requires reader.fs == fs && reader.Holds(fs.files) && reader.path == out
      requires (fs.files, fs.crashes) in CompactionOutcomes(s, fs.ignored == s.ignored, options)
      requires fs.failures == s.failures && fs.ignored >= s.ignored
      requires out == FileName(s.next) && nextSeq == s.next + 1 && memtable.table == s.unflushed
      requires wal.isOpen == s.logging && wal.good == s.good && book.lost == s.lost
      requires book.compactions == s.compactions && book.shorts == s.shorts
      requires fs.ignored == s.ignored ==> Cleared(s, fs.files, out)
      modifies `sstables, `book, fs
      ensures status.OK? || status.IOError? || status.Corruption?
      ensures Standing(Now()) && AllHold(fs, sstables, book.names, fs.files)
      ensures KeepsView(s, Now(), status.OK?) && Standing(s) && ServesPart(s, Now())
      ensures sstables == [reader] && |book.names| == 1
      ensures status.OK? && Tidy(s) && fs.ignored == s.ignored ==> Settled(Now())
      ensures book.compactions == s.compactions + 1
    {
      hide LoadTable, AllHold, Standing, CompactionOutcomes, KeepsView, ManifestStep, FileName, Numbered, ViewOf,
        HeldKeys, StoredKeys, TablesIn, LogOf, LoggedLayer, Listed, PathsMatch, ServesPart;
      ghost var d, crashes := fs.files, fs.crashes;
      AllHoldNone(fs, d);
      AllHoldMore(fs, [], [], d, reader, out);
      assert [] + [reader] == [reader] && [] + [out] == [out];
      sstables, book := [reader], Book([out], book.lost, true, book.compactions + 1, book.shorts);
      ghost var m := Now();
      OutputRead(s, d, crashes, options, m);
      StandingParts(m);
      status := RewriteManifest();
      OutputListed(s, d, crashes, options, m, Now(), status.OK?);
      if status.OK? {
        TidyWithOutput(s, m, Now(), out);
      }
      ServesAll(s, Now());
    }

    /** Reads the output instead of its inputs, and lists it. */
    method AdoptOutput(out: Name, ghost s: State) returns (status: Status)
      requires sstables == []
      requires (fs.files, fs.crashes) in CompactionOutcomes(s, fs.ignored == s.ignored, options)
      requires fs.failures == s.failures && fs.ignored >= s.ignored
      requires out == FileName(s.next) && nextSeq == s.next + 1 && memtable.table == s.unflushed
      requires wal.isOpen == s.logging && wal.good == s.good && book.lost == s.lost
      requires book.compactions == s.compactions && book.shorts == s.shorts
      requires fs.ignored == s.ignored ==> Cleared(s, fs.files, out)
      modifies `sstables, `book, fs
      ensures status.OK? || status.IOError? || status.Corruption?
      ensures Standing(Now()) && AllHold(fs, sstables, book.names, fs.files)
      ensures KeepsView(s, Now(), status.OK?) && Standing(s) && ServesPart(s, Now())
      ensures forall i :: 0 <= i < |sstables| ==> fresh(sstables[i])
      ensures status.OK? ==> |book.names| == 1
      ensures status.OK? && Tidy(s) && fs.ignored == s.ignored ==> Settled(Now())
      ensures book.compactions == s.compactions + 1
    {
      hide LoadTable, AllHold, Standing, CompactionOutcomes, KeepsView, ManifestStep, FileName, Numbered, ViewOf,
        HeldKeys, StoredKeys, TablesIn, LogOf, LoggedLayer, Listed, ServesPart;
      ghost var d, crashes := fs.files, fs.crashes;
      OutputThere(s, d, crashes, fs.ignored == s.ignored, options);
      var reader := new SSTableReader(fs);
      status := reader.Open(out, options.enableBloom);
      if !status.OK? {
        AllHoldNone(fs, d);
        book := Book([], true, true, book.compactions + 1, book.shorts);
        OutputLost(s, d, crashes, options, Now());
        return;
      }
      status := ListOutput(out, reader, s);
    }

    /** Merges all tables into one. */
    method CompactInternal() returns (status: Status)
      requires Valid() && isOpen && Room(options, Now())
      modifies `sstables, `book, `nextSeq, fs, sstables
      ensures status.OK? || status.IOError? || status.Corruption?
      ensures Valid() && KeepsView(old(Now()), Now(), status.OK?) && ServesPart(old(Now()), Now())
      ensures forall i :: 0 <= i < |sstables| ==> sstables[i] in old(sstables) || fresh(sstables[i])
      ensures status.OK? ==> |book.names| == if |old(book.names)| < 2 then |old(book.names)| else 1
      ensures status.OK? && |old(book.names)| >= 2 ==> book.compactions == old(book.compactions) + 1
      ensures status.OK? ==> StaysSettled(old(Now()), Now()) && memtable.table == old(Now()).unflushed
      ensures |old(book.names)| < 2 ==> book == old(book)
    {
      hide AllHold, KeepsView, Standing, CompactionOutcomes, Room, TotalSize, EmptyTombstones, FileName, Confined,
        Numbered, AllPresent, IntactIfPresent, PathsMatch, ServesPart, ViewOf, Subsequence, Tidy, Listed, Cleared;
      ghost var s := Now();
      AllHoldPaths(fs, sstables, book.names, fs.files);
      KeepsNothing(s);
      ServesAll(s, s);
      if |sstables| < 2 {
        return OK;
      }
      var inputs := Detach();
      var out := GenerateFilename();
      status := RunCompaction(inputs, out, s);
      if !status.OK? {
        InputsThere(s, fs.files, fs.crashes);
        ReopenInputs(inputs, s.next);
        CompactionFailed(s, Now());
      } else {
        status := AdoptOutput(out, s);
      }
      StandingParts(Now());
    }
  }

  lemma AllHoldNone(fs: FileSystem, disk: Disk)
    ensures AllHold(fs, [], [], disk)
  {
  }

  lemma NoneNumbered(next: nat)
    ensures Numbered([], next)
  {
  }

  lemma NoneOfNone()
    ensures Subsequence([], [])
  {
    var kept: seq<bool> := [];
    assert Kept<Name>([], kept) == [];
  }

  /** The next input is opened again or not. */
  lemma OneMoreOf(names: seq<Name>, inputs: seq<Name>, i: nat)
    requires i < |inputs| && Subsequence(names, inputs[..i])
    ensures Subsequence(names, inputs[..i + 1]) && Subsequence(names + [inputs[i]], inputs[..i + 1])
    ensures inputs[..i + 1] == inputs[..i] + [inputs[i]]
    ensures forall n :: n in names ==> n in inputs[..i]
  {
    var kept :| |kept| == i && names == Kept(inputs[..i], kept);
    KeptAmong(inputs[..i], kept);
    assert inputs[..i + 1] == inputs[..i] + [inputs[i]];
    KeptSnoc(inputs[..i], inputs[i], kept, true);
    KeptSnoc(inputs[..i], inputs[i], kept, false);
    assert |kept + [true]| == |kept + [false]| == i + 1;
    assert names + [] == names;
  }

  lemma MoreNumbered(inputs: seq<Name>, next: nat, names: seq<Name>, i: nat)
    requires Numbered(inputs, next) && Numbered(names, next) && i < |inputs|
    requires forall n :: n in names ==> n in inputs[..i]
    ensures Numbered(names + [inputs[i]], next)
  {
    hide FileName, ParseNumber, NumberOf;
    forall a | 0 <= a < |names|
      ensures NumberOf(names[a]) < NumberOf(inputs[i])
    {
      assert names[a] in inputs[..i];
    }
    assert IsTableName(inputs[i], next);
    NumberedSnoc(names, inputs[i], next);
  }

  lemma SettledSafely(s: State, listed: State, t: State, ok: bool, complete: bool)
    requires KeepsView(s, listed, true) && KeepsServed(listed, t, ok) && (complete ==> KeepsView(listed, t, ok))
    requires complete == (listed.shorts == s.shorts)
    ensures KeepsView(s, t, ok)
  {
    hide KeepsServed;
    if complete {
      KeepsViewChain(s, listed, t, ok);
    } else {
      ShortsGrow(s, listed);
      KeepsViewAnyway(s, listed, t, ok);
    }
  }

  lemma ShortsGrow(s: State, t: State)
    requires KeepsServed(s, t, true)
    ensures s.shorts <= t.shorts
  {
    hide Standing, ViewOf, HeldKeys, StoredKeys;
  }

  lemma NothingListed()
    ensures CutAt(ManifestText([]), [], 0) && |ManifestText([])| == 0
  {
  }

  /** A line is appended to the list, in full or in part. */
  lemma LineAdded(names: seq<Name>, i: nat, part: Bytes, k: nat, reached: nat)
    requires i < |names| && CutAt(ManifestText(names[..i]), part, k) && k == |ManifestText(names[..i])|
    requires reached <= |names[i]| + 1
    ensures var line := Text(names[i]) + [NEWLINE];
            && CutAt(ManifestText(names[..i + 1]), part + line[..reached], k + reached)
            && (reached == |line| <==> k + reached == |ManifestText(names[..i + 1])|)
  {
    hide Text;
    var text, line := ManifestText(names[..i]), Text(names[i]) + [NEWLINE];
    MoreText(names, i);
    assert part == text;
    assert (text + line)[..k + reached] == text + line[..reached];
  }

  lemma MoreText(names: seq<Name>, i: nat)
    requires i < |names|
    ensures ManifestText(names[..i + 1]) == ManifestText(names[..i]) + (Text(names[i]) + [NEWLINE])
  {
    hide Text;
    assert names[..i + 1][..i] == names[..i];
    assert ManifestText(names[..i]) + Text(names[i]) + [NEWLINE] == ManifestText(names[..i]) + (Text(names[i]) + [NEWLINE]);
  }

  lemma LineSkipped(names: seq<Name>, i: nat, part: Bytes, k: nat)
    requires i < |names| && CutAt(ManifestText(names[..i]), part, k)
    ensures CutAt(ManifestText(names[..i + 1]), part, k)
    ensures k != |ManifestText(names[..i])| ==> k != |ManifestText(names[..i + 1])|
  {
    hide Text;
    var text, line := ManifestText(names[..i]), Text(names[i]) + [NEWLINE];
    MoreText(names, i);
    assert (text + line)[..k] == text[..k];
  }

  lemma KeepsItsView(s: State, t: State)
    requires KeepsView(s, t, true)
    ensures Standing(s) && Standing(t) && ViewOf(t) == ViewOf(s)
  {
    hide Standing, ViewOf, StoredKeys, HeldKeys, Safe, CleanLog, CrashesSafe;
  }

  lemma StillRoom(options: Options, s: State, t: State)
    requires KeepsView(s, t, true) && Standing(s) && Standing(t) && Room(options, s)
    ensures Room(options, t)
  {
    hide Roomy, Standing, HeldKeys, StoredKeys, ViewOf, Safe, CleanLog, CrashesSafe;
    FewerKeys(options, HeldKeys(t), HeldKeys(s));
  }

  /** What a successful step that keeps the view does for the disk. */
  lemma KeepsSafety(s: State, t: State)
    requires KeepsView(s, t, true)
    ensures CleanLog(s) ==> CleanLog(t)
    ensures Working(s) ==> Working(t)
    ensures Safe(s) && t.shorts == s.shorts ==> Safe(t)
    ensures (s.lost ==> t.lost) && s.shorts <= t.shorts
  {
    hide Standing, HeldKeys, StoredKeys, ViewOf, CleanLog, Agrees, CrashesSafe;
  }

  lemma NothingBad(disk: Disk)
    requires Recovers(disk)
    ensures !LogOf(disk).outcome.Corrupt? && !SomeBad(disk)
  {
    hide SomeBad, LogOf, Readable, Ordered;
    GoodOnes(disk);
  }

  lemma LogMade(d0: Disk, d1: Disk)
    requires d1 == if WAL in d0 then d0 else d0[WAL := []]
    ensures OnlyTouches(d0, d1, {WAL})
  {
  }

  lemma PresentNext(disk: Disk, names: seq<Name>, i: nat)
    requires i < |names|
    ensures Present(disk, names[..i + 1])
         == if names[i] in disk then Present(disk, names[..i]) + [names[i]] else Present(disk, names[..i])
    ensures names[i] !in disk ==> !BadFile(disk, names[i])
    ensures names[..i + 1] == names[..i] + [names[i]]
    ensures names[i] in disk && LoadTable(disk[names[i]]).BadTable? ==> BadFile(disk, names[i])
  {
    hide LoadTable;
    assert names[..i + 1][..i] == names[..i];
  }

  ghost predicate NoneBad(disk: Disk, names: seq<Name>)
  {
    forall n :: n in names ==> !BadFile(disk, n)
  }

  lemma NothingToOpen(disk: Disk)
    ensures MaxNumber([]) == 0 && NoneBad(disk, [])
  {
  }

  lemma NumbersMore(names: seq<Name>, name: Name)
    ensures var n := ParseNumber(name);
            MaxNumber(names + [name]) == if n.Some? && n.value > MaxNumber(names) then n.value else MaxNumber(names)
  {
    hide ParseNumber;
    assert (names + [name])[..|names|] == names;
  }

  lemma NoneBadMore(disk: Disk, names: seq<Name>, i: nat)
    requires i < |names| && NoneBad(disk, names[..i]) && !BadFile(disk, names[i])
    ensures NoneBad(disk, names[..i + 1])
  {
    hide BadFile;
    assert names[..i + 1] == names[..i] + [names[i]];
  }

  lemma OpenedAll(disk: Disk, listed: seq<Name>, names: seq<Name>)
    requires NoneBad(disk, listed)
    ensures (forall n :: n in names ==> NumberOf(n) < MaxNumber(names) + 1) && forall n :: n in listed ==> !BadFile(disk, n)
    ensures MaxNumber(names) == 0 || exists n :: n in names && NumberOf(n) == MaxNumber(names)
  {
    hide BadFile, NumberOf, MaxNumber;
    MaxNumberBounds(names);
  }

  lemma NothingPresent(disk: Disk)
    ensures Present(disk, []) == []
  {
  }

  lemma GoodFile(reader: SSTableReader, disk: Disk)
    requires reader.Holds(disk)
    ensures !BadFile(disk, reader.path)
  {
    hide LoadTable;
  }

  lemma NothingReplayed()
    ensures LogLayer([]) == map[] && WellFormed(map[])
  {
  }

  /** Reads a text line by line, skipping empty lines. */
  method SplitLines(content: Bytes) returns (lines: seq<Name>)
    ensures lines == Lines(content)
  {
    hide LineLength, Untext, Lines;
    lines := [];
    var at := 0;
    assert content[0..] == content;
    NoLines(content);
    while at < |content|
      invariant 0 <= at <= |content|
      invariant Lines(content) == lines + Lines(content[at..])
      decreases |content| - at
    {
      var n := LineLength(content[at..]);
      var line := content[at..][..n];
      NextLine(content[at..], lines);
      if n != 0 {
        lines := lines + [Untext(line)];
      }
      if at + n < |content| {
        assert content[at..][n + 1..] == content[at + n + 1..];
        at := at + n + 1;
      } else {
        at := |content|;
        assert content[at..] == [];
      }
    }
    assert content[at..] == [];
    NoLines(content);
  }

  lemma NoLines(content: Bytes)
    ensures Lines([]) == [] && [] + Lines(content) == Lines(content)
  {
  }

  lemma NextLine(s: Bytes, lines: seq<Name>)
    requires s != []
    ensures var n := LineLength(s);
            lines + Lines(s) == (if n == 0 then lines else lines + [Untext(s[..n])]) + Lines(if n < |s| then s[n + 1..] else [])
  {
    hide Lines, LineLength, Untext;
    LinesUnfold(s);
  }

  function Larger(a: nat, b: nat): nat
  {
    if a < b then b else a
  }

  lemma NothingWeighsNothing()
    ensures TotalSize(map[]) == 0
  {
  }

  /** What the log and the memtable did to the state. */
  lemma LogAppended(s: State, t: State, e: Entry, ok: bool)
    requires Standing(s)
    requires t.names == s.names && t.next == s.next && SameMarks(s, t) && t.logging == s.logging
    requires t.unflushed == if ok then s.unflushed[e.key := CellOf(e)] else s.unflushed
    requires !Working(s) ==>
      && !ok && t.good == s.good && t.disk == s.disk && t.crashes == s.crashes
      && t.failures == s.failures && t.ignored == s.ignored
    requires Working(s) ==>
      && Appended(s.disk, s.crashes, t.disk, t.crashes, WAL, Encode(e), t.good) && (t.good ==> ok)
      && t.failures == (if ok then s.failures else s.failures + 1)
      && t.ignored == (if ok && !t.good then s.ignored + 1 else s.ignored)
    ensures LogStep(s, t, e, ok) && OnlyTouches(s.disk, t.disk, {WAL}) && (WAL in s.disk ==> WAL in t.disk)
  {
    hide Encode, Standing;
  }

  /** Of the tables read before, a compaction leaves nothing but its output. */
  ghost predicate Cleared(s: State, disk: Disk, out: Name)
  {
    forall n :: n in disk ==> n == out || (n in s.disk && n !in s.names)
  }

  lemma InputsCleared(s: State, d: Disk, options: Options)
    requires Standing(s) && options.sparseInterval > 0
    requires d == WithoutInputs(InstalledIn(s, options), s.names, FileName(s.next))
    ensures Cleared(s, d, FileName(s.next))
  {
    hide Standing, OutputFile, FileName;
  }

  lemma TidyWithTable(s: State, t: State)
    requires Confined(s.disk, s.crashes, t.disk, t.crashes, FileName(s.next)) && t.names == s.names + [FileName(s.next)]
    ensures StaysTidy(s, t)
  {
    hide FileName;
  }

  lemma TidyWithManifest(s: State, t: State)
    requires ManifestStep(s, t, true) && t.names == s.names
    ensures StaysTidy(s, t)
  {
    hide ManifestCut;
  }

  lemma TidyWithLog(s: State, t: State)
    requires OnlyTouches(s.disk, t.disk, {WAL}) && t.names == s.names
    ensures StaysTidy(s, t)
  {
  }

  lemma TidyWithOutput(s: State, m: State, t: State, out: Name)
    requires m.ignored == s.ignored ==> Cleared(s, m.disk, out)
    requires m.ignored >= s.ignored && m.names == t.names == [out] && ManifestStep(m, t, true)
    ensures Tidy(s) && t.ignored == s.ignored ==> Tidy(t) && t.shorts == m.shorts
  {
    hide ManifestCut;
  }

  lemma KeepsTold(s: State, t: State, ok: bool)
    requires KeepsView(s, t, ok)
    ensures s.ignored <= t.ignored && s.shorts <= t.shorts && (t.ignored == s.ignored ==> t.shorts == s.shorts)
  {
    hide KeepsServed;
    KeepsCounts(s, t, ok);
  }

  /** Incomplete manifests are refusals that nobody looks for. */
  lemma KeepsCounts(s: State, t: State, ok: bool)
    requires KeepsServed(s, t, ok)
    ensures s.ignored <= t.ignored && s.shorts <= t.shorts && (t.ignored == s.ignored ==> t.shorts == s.shorts)
  {
    hide Standing, ViewOf, HeldKeys, StoredKeys, CleanLog;
  }

  lemma LeftByWrite(options: Options, s: State, t: State, u: State, e: Entry)
    requires KeepsView(s, t, true) && RoomMade(options, s, t) && StaysSettled(s, t)
    requires Recorded(t, u, e) && StaysSettled(t, u) && t.ignored <= u.ignored
    ensures WriteLeaves(options, s, u, e) && StaysSettled(s, u)
  {
    hide Standing, ViewOf, HeldKeys, StoredKeys, Safe, CleanLog, CrashesSafe, TotalSize, Settled;
  }

  lemma ListedBesides(d0: Disk, d1: Disk)
    requires OnlyTouches(d0, d1, {WAL})
    ensures Listed(d1) == Listed(d0)
  {
    hide Lines;
  }

  lemma LogTouched(d0: Disk, d1: Disk, ok: bool)
    requires d1 == if ok then d0[WAL := []] else d0
    ensures OnlyTouches(d0, d1, {WAL})
  {
  }

  /** Only the disk, the tables and the memtable matter. */
  lemma StandingAnyway(s: State, t: State)
    requires Standing(s) && t == s.(failures := t.failures)
    ensures Standing(t) && ViewOf(t) == ViewOf(s)
  {
  }

  lemma ManifestTouches(s: State, t: State, ok: bool)
    requires ManifestStep(s, t, ok)
    ensures OnlyTouches(s.disk, t.disk, {MANIFEST, MANIFEST_TEMP}) && (WAL in s.disk ==> WAL in t.disk)
    ensures t.failures == s.failures || !ok
    ensures ok && t.shorts == s.shorts ==> Listed(t.disk) == s.names
  {
  }

  /** A layer can be written to a table, and read back from it. */
  lemma TableWritable(options: Options, layer: Layer)
    requires WellFormed(layer) && Roomy(options, |layer|)
    ensures var listed := Listing(layer);
            && options.sparseInterval > 0
            && Sorted(listed) && (forall e :: e in listed ==> Encodable(e)) && Stored(listed) == listed
            && Fits(listed, ShapeFor(options, |listed|))
            && Intact(TableBytes(listed, ShapeFor(options, |listed|)))
            && LayerOf(Contents(TableBytes(listed, ShapeFor(options, |listed|)))) == layer
  {
    RoomyParts(options, |layer|);
    hide Listing, Fits, Roomy, WellFormed, TableBytes, LayerOf, Intact;
    ListingWritable(layer, options);
    ListingTable(layer, options);
    StoredCanonical(Listing(layer));
  }

  lemma OverlayAnswer(below: Layer, above: Layer, key: Key)
    ensures Answer(below + above, key) == if Answer(above, key).Absent? then Answer(below, key) else Answer(above, key)
  {
  }

  /** An outcome as the user sees it. */
  function ShownAs(status: Status, value: Value): Lookup
  {
    if status.OK? then Found(value) else Absent
  }

  /** A deletion shows like an absence. */
  lemma StillAnswers(tables: seq<seq<Entry>>, key: Key, unread: int, answer: Lookup)
    requires AnswersPast(tables, key, unread, answer)
    ensures !answer.Found? ==> AnswersPast(tables, key, unread, Absent)
  {
    hide Kept, SearchTables;
  }

  lemma MemtableAnswers(s: State, key: Key)
    requires Standing(s)
    ensures var below := Answer(TablesIn(s), key);
            var here := Answer(s.unflushed, key);
            var shown := if here.Absent? then below else here;
            && (here.Absent? <==> key !in s.unflushed)
            && (shown.Found? <==> key in ViewOf(s)) && (key in ViewOf(s) ==> shown == Found(ViewOf(s)[key]))
  {
    hide Standing, Merge, Visible;
    OverlayAnswer(TablesIn(s), s.unflushed, key);
    AnswerVisible(TablesIn(s) + s.unflushed, key);
  }

  /** What was loaded is what the open store has taken. */
  lemma LoadedIsTaken(d0: Disk, loaded: State, t: State, manifestRead: bool, logRead: bool)
    requires loaded.disk == d0 && !loaded.lost && !loaded.exposed
    requires loaded.names == (if manifestRead then Present(d0, Listed(d0)) else [])
    requires loaded.unflushed == (if logRead then LoggedLayer(d0) else map[])
    requires t.names == loaded.names && t.unflushed == loaded.unflushed && t.logging && t.good && !t.lost && !t.exposed
    ensures TakenPast(d0, t, manifestRead, logRead)
  {
    hide Listed, Present, LoggedLayer;
  }
}
