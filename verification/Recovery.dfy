/** What opening a disk recovers, and which steps of the engine leave that alone. */
module Recovery {
  import opened Bytes
  import opened Entries
  import opened Records
  import opened Logs
  import opened TableFormat
  import opened Storage
  import opened MemTables
  import opened Wals
  import opened Config
  import opened Compactions
  import opened Names
  import opened Stacks

  // ---------- what a disk holds ----------

  /** The table files that the manifest lists. */
  function Listed(disk: Disk): seq<Name>
  {
    if MANIFEST in disk then Lines(disk[MANIFEST]) else []
  }

  /** Those of the names that exist: missing files are skipped without a word. */
  function Present(disk: Disk, names: seq<Name>): (present: seq<Name>)
    ensures AllPresent(disk, present)
    ensures forall n :: n in present ==> n in names
  {
    if names == [] then [] else
      var before := Present(disk, names[..|names| - 1]);
      if names[|names| - 1] in disk then before + [names[|names| - 1]] else before
  }

  function LogOf(disk: Disk): Replay
  {
    LogFile(disk, WAL)
  }

  function LoggedLayer(disk: Disk): Layer
  {
    LogLayer(LogOf(disk).records)
  }

  /** No listed file is missing. */
  predicate Whole(disk: Disk)
  {
    AllPresent(disk, Listed(disk))
  }

  ghost predicate Readable(disk: Disk)
  {
    IntactIfPresent(disk, Listed(disk))
  }

  lemma {:induction false} PresentIntact(disk: Disk, names: seq<Name>)
    requires IntactIfPresent(disk, names)
    ensures IntactIfPresent(disk, Present(disk, names))
  {
    if names != [] {
      PresentIntact(disk, names[..|names| - 1]);
    }
  }

  ghost function DiskTables(disk: Disk): seq<seq<Entry>>
    requires Readable(disk)
  {
    PresentIntact(disk, Listed(disk));
    TablesOf(disk, Present(disk, Listed(disk)))
  }

  /** Opening the disk succeeds unless the file system refuses something. */
  ghost predicate Recovers(disk: Disk)
  {
    Readable(disk) && Ordered(Listed(disk)) && !LogOf(disk).outcome.Corrupt?
  }

  /** Tables oldest first, then the log on top. */
  ghost function RecoveredLayer(disk: Disk): Layer
    requires Readable(disk)
  {
    Merge(DiskTables(disk)) + LoggedLayer(disk)
  }

  ghost function RecoveredView(disk: Disk): map<Key, Value>
    requires Readable(disk)
  {
    Visible(RecoveredLayer(disk))
  }

  lemma {:induction false} AllThere(disk: Disk, names: seq<Name>)
    requires AllPresent(disk, names)
    ensures Present(disk, names) == names
  {
    if names != [] {
      AllThere(disk, names[..|names| - 1]);
      assert names == names[..|names| - 1] + [names[|names| - 1]];
    }
  }

  // ---------- steps that recovery does not see ----------

  lemma {:induction false} PresentSame(d0: Disk, d1: Disk, names: seq<Name>)
    requires forall i :: 0 <= i < |names| ==> (names[i] in d0 <==> names[i] in d1)
    ensures Present(d0, names) == Present(d1, names)
  {
    if names != [] {
      PresentSame(d0, d1, names[..|names| - 1]);
    }
  }

  /** Files that are neither the manifest nor listed do not matter for the tables. */
  lemma SameTables(d0: Disk, d1: Disk, touched: set<Name>)
    requires OnlyTouches(d0, d1, touched) && Readable(d0)
    requires MANIFEST !in touched && forall i :: 0 <= i < |Listed(d0)| ==> Listed(d0)[i] !in touched
    ensures Listed(d1) == Listed(d0) && Readable(d1) && (Whole(d1) <==> Whole(d0))
    ensures DiskTables(d1) == DiskTables(d0)
  {
    hide Lines, Intact;
    var names := Listed(d0);
    PresentSame(d0, d1, names);
    PresentIntact(d0, names);
    StillIntact(d0, d1, names, touched);
    PresentIntact(d1, names);
    var present := Present(d0, names);
    forall i | 0 <= i < |present|
      ensures present[i] !in touched
    {
      assert present[i] in names;
    }
    SameContents(d0, d1, present, touched);
  }

  lemma StillIntact(d0: Disk, d1: Disk, names: seq<Name>, touched: set<Name>)
    requires OnlyTouches(d0, d1, touched) && IntactIfPresent(d0, names)
    requires forall i :: 0 <= i < |names| ==> names[i] !in touched
    ensures IntactIfPresent(d1, names)
  {
    hide Intact;
  }

  lemma SameContents(d0: Disk, d1: Disk, names: seq<Name>, touched: set<Name>)
    requires OnlyTouches(d0, d1, touched) && AllPresent(d0, names) && IntactIfPresent(d0, names)
    requires forall i :: 0 <= i < |names| ==> names[i] !in touched
    ensures AllPresent(d1, names) && IntactIfPresent(d1, names) && TablesOf(d1, names) == TablesOf(d0, names)
  {
    hide Intact;
  }

  /** Nor does anything but the log matter for the log. */
  lemma Unseen(d0: Disk, d1: Disk, touched: set<Name>)
    requires OnlyTouches(d0, d1, touched) && Readable(d0)
    requires MANIFEST !in touched && WAL !in touched && forall i :: 0 <= i < |Listed(d0)| ==> Listed(d0)[i] !in touched
    ensures Readable(d1) && Listed(d1) == Listed(d0) && LogOf(d1) == LogOf(d0)
    ensures RecoveredLayer(d1) == RecoveredLayer(d0)
  {
    hide Lines, Log, Readable, DiskTables;
    SameTables(d0, d1, touched);
  }

  // ---------- a running store and its disk ----------

  /** The disk agrees with a store that reads the tables `names` and holds the unflushed layer
      `unflushed`: recovery would see the same map, also after listing all of `names`. */
  ghost predicate Agrees(disk: Disk, names: seq<Name>, unflushed: Layer, logging: bool)
  {
    && AllPresent(disk, names) && IntactIfPresent(disk, names)
    && Ordered(names) && Listed(disk) <= names && Readable(disk)
    && !LogOf(disk).outcome.Corrupt?
    && (if logging then LoggedLayer(disk) == unflushed else unflushed == map[])
    && RecoveredView(disk) == Visible(Merge(TablesOf(disk, names)) + unflushed)
    && Visible(Merge(TablesOf(disk, names)) + LoggedLayer(disk)) == Visible(Merge(TablesOf(disk, names)) + unflushed)
  }

  lemma AgreesRecovers(disk: Disk, names: seq<Name>, unflushed: Layer, logging: bool)
    requires Agrees(disk, names, unflushed, logging)
    ensures Recovers(disk) && Whole(disk)
    ensures RecoveredView(disk) == Visible(Merge(TablesOf(disk, names)) + unflushed)
  {
    hide Lines, Merge, LogOf, Intact, Numbered;
    forall i | 0 <= i < |Listed(disk)|
      ensures Listed(disk)[i] in disk
    {
      assert Listed(disk)[i] == names[i];
    }
    PrefixOrdered(Listed(disk), names);
  }

  lemma PrefixOrdered(some: seq<Name>, names: seq<Name>)
    requires Ordered(names) && some <= names
    ensures Ordered(some)
  {
    hide FileName, ParseNumber;
    var next :| Numbered(names, next);
    assert Numbered(some, next);
  }

  /** Touching unlisted files that the store does not read. */
  lemma AgreesUnseen(d0: Disk, d1: Disk, names: seq<Name>, unflushed: Layer, logging: bool, touched: set<Name>)
    requires Agrees(d0, names, unflushed, logging) && OnlyTouches(d0, d1, touched)
    requires MANIFEST !in touched && WAL !in touched && forall i :: 0 <= i < |names| ==> names[i] !in touched
    ensures Agrees(d1, names, unflushed, logging)
    ensures TablesOf(d1, names) == TablesOf(d0, names) && Recovers(d1) && RecoveredView(d1) == RecoveredView(d0)
  {
    hide Lines, Merge, LogOf, LogLayer, Intact, DiskTables, Numbered;
    forall i | 0 <= i < |Listed(d0)|
      ensures Listed(d0)[i] !in touched
    {
      assert Listed(d0)[i] == names[i];
    }
    SameContents(d0, d1, names, touched);
    Unseen(d0, d1, touched);
    assert LogOf(d0) == LogOf(d1);
    PrefixOrdered(Listed(d0), names);
  }

  /** Overlaying a log on the table just flushed from the same records changes nothing. */
  lemma FlushedTwice(below: Layer, flushed: Layer)
    ensures (below + flushed) + flushed == below + flushed
  {
  }

  /** The store starts to read a table of just the layer that is still unflushed. */
  lemma AgreesWithNewTable(disk: Disk, names: seq<Name>, unflushed: Layer, name: Name)
    requires Agrees(disk, names, unflushed, true) && Ordered(names + [name])
    requires name in disk && Intact(disk[name]) && LayerOf(Contents(disk[name])) == unflushed
    ensures Agrees(disk, names + [name], unflushed, true)
    ensures Merge(TablesOf(disk, names + [name])) == Merge(TablesOf(disk, names)) + unflushed
  {
    hide Lines, Merge, LogOf, LogLayer, Intact, DiskTables, LayerOf, Numbered;
    var more := names + [name];
    TableAdded(disk, names, name);
    FlushedTwice(Merge(TablesOf(disk, names)), unflushed);
    assert Listed(disk) <= more;
  }

  lemma TableAdded(disk: Disk, names: seq<Name>, name: Name)
    requires AllPresent(disk, names) && IntactIfPresent(disk, names)
    requires name in disk && Intact(disk[name])
    ensures var more := names + [name];
            && AllPresent(disk, more) && IntactIfPresent(disk, more)
            && TablesOf(disk, more) == TablesOf(disk, names) + [Contents(disk[name])]
            && Merge(TablesOf(disk, more)) == Merge(TablesOf(disk, names)) + LayerOf(Contents(disk[name]))
  {
    hide Intact, LayerOf;
    var more := names + [name];
    assert TablesOf(disk, more) == TablesOf(disk, names) + [Contents(disk[name])];
    MergeConcat(TablesOf(disk, names), [Contents(disk[name])]);
    MergeOne(Contents(disk[name]));
  }

  /** A disk whose manifest lists exactly the tables that the store reads. */
  lemma ListedIsRead(disk: Disk, names: seq<Name>)
    requires Listed(disk) == names && AllPresent(disk, names) && IntactIfPresent(disk, names)
    ensures Readable(disk) && Whole(disk) && DiskTables(disk) == TablesOf(disk, names)
    ensures RecoveredLayer(disk) == Merge(TablesOf(disk, names)) + LoggedLayer(disk)
  {
    hide Lines, Merge, LogOf, LogLayer, Intact;
    AllThere(disk, names);
  }

  /** The manifest is replaced by one that lists what the store reads. */
  lemma AgreesWithManifest(d0: Disk, d1: Disk, names: seq<Name>, unflushed: Layer, logging: bool)
    requires AllPresent(d0, names) && IntactIfPresent(d0, names) && !LogOf(d0).outcome.Corrupt?
    requires if logging then LoggedLayer(d0) == unflushed else unflushed == map[]
    requires Visible(Merge(TablesOf(d0, names)) + LoggedLayer(d0)) == Visible(Merge(TablesOf(d0, names)) + unflushed)
    requires OnlyTouches(d0, d1, {MANIFEST, MANIFEST_TEMP}) && Listed(d1) == names
    requires MANIFEST !in names && MANIFEST_TEMP !in names && Ordered(names)
    ensures Agrees(d1, names, unflushed, logging) && TablesOf(d1, names) == TablesOf(d0, names)
  {
    hide Lines, Merge, LogOf, LogLayer, Intact, Listed, DiskTables, Numbered;
    SameContents(d0, d1, names, {MANIFEST, MANIFEST_TEMP});
    SameLog(d0, d1, {MANIFEST, MANIFEST_TEMP});
    ListedIsRead(d1, names);
  }

  lemma SameLog(d0: Disk, d1: Disk, touched: set<Name>)
    requires OnlyTouches(d0, d1, touched) && WAL !in touched
    ensures LogOf(d1) == LogOf(d0) && LoggedLayer(d1) == LoggedLayer(d0)
  {
    hide Log;
  }

  /** The unflushed layer is dropped after its table has been listed; the log still holds it. */
  lemma AgreesAfterFlush(disk: Disk, names: seq<Name>, below: Layer, flushed: Layer)
    requires Agrees(disk, names, flushed, true) && Merge(TablesOf(disk, names)) == below + flushed
    requires Listed(disk) == names
    ensures Agrees(disk, names, map[], false)
    ensures Visible(Merge(TablesOf(disk, names)) + map[]) == Visible(below + flushed)
  {
    hide Lines, Merge, LogOf, LogLayer, Intact, DiskTables, Numbered;
    FlushedTwice(below, flushed);
    assert (below + flushed) + map[] == below + flushed;
  }

  /** An empty log and a manifest of exactly the tables read. */
  lemma AgreesEmpty(d0: Disk, d1: Disk, names: seq<Name>)
    requires AllPresent(d0, names) && IntactIfPresent(d0, names) && Listed(d0) == names && WAL !in names
    requires d1 == d0[WAL := []] && Ordered(names)
    ensures Agrees(d1, names, map[], true) && TablesOf(d1, names) == TablesOf(d0, names)
    ensures LogOf(d1).outcome.Clean?
  {
    hide Lines, Merge, Intact, DiskTables, Numbered;
    SameContents(d0, d1, names, {WAL});
    ListedIsRead(d1, names);
    assert LogOf(d1) == Replay([], Clean);
  }

  // ---------- acknowledging one record ----------

  lemma VisibleUpdate(layer: Layer, key: Key, cell: Cell)
    ensures Visible(layer[key := cell]) == if cell.kind.Put? then Visible(layer)[key := cell.value] else Visible(layer) - {key}
  {
  }

  /** What a torn or complete append to a clean log leaves. */
  lemma LogAfterAppend(log: Bytes, e: Entry, k: nat)
    requires Log(log).outcome.Clean? && Encodable(e) && Loggable(e) && k <= RecordSize(e)
    ensures var torn := Log(log + Encode(e)[..k]);
            && !torn.outcome.Corrupt?
            && torn.records == (if k == RecordSize(e) then Log(log).records + [e] else Log(log).records)
            && (k == RecordSize(e) ==> torn.outcome.Clean?)
  {
    hide Log, Encode;
    var part := Encode(e)[..k];
    CleanLogExtends(log, part);
    if k == 0 {
      EmptyLog();
      assert part == [];
    } else if k < RecordSize(e) {
      TornRecord(e, k);
    } else {
      assert part == Encode(e) == EncodeAll([]) + Encode(e);
      RecoverableIffInLimits([], e);
    }
  }

  /** Any torn append leaves recovery at the old map, a complete one takes it to the new one. */
  lemma AgreesAfterAppend(d0: Disk, d1: Disk, names: seq<Name>, unflushed: Layer, e: Entry, k: nat)
    requires Agrees(d0, names, unflushed, true) && LogOf(d0).outcome.Clean? && WAL !in names && WAL in d0
    requires Encodable(e) && Loggable(e) && k <= RecordSize(e)
    requires d1 == d0[WAL := d0[WAL] + Encode(e)[..k]]
    ensures AllPresent(d1, names) && IntactIfPresent(d1, names) && TablesOf(d1, names) == TablesOf(d0, names)
    ensures k < RecordSize(e) ==> Agrees(d1, names, unflushed, true)
    ensures k == RecordSize(e) ==> Agrees(d1, names, unflushed[e.key := CellOf(e)], true) && LogOf(d1).outcome.Clean?
  {
    hide Lines, Merge, Intact, DiskTables, Log, Encode, LogLayer, Numbered;
    LogAfterAppend(d0[WAL], e, k);
    LogLayerSnoc(LogOf(d0).records, e);
    SameContents(d0, d1, names, {WAL});
    forall i | 0 <= i < |Listed(d0)|
      ensures Listed(d0)[i] != WAL
    {
      assert Listed(d0)[i] == names[i];
    }
    SameTables(d0, d1, {WAL});
    if k == RecordSize(e) {
      var m := Merge(TablesOf(d0, names));
      var r := Merge(DiskTables(d0));
      var cell := CellOf(e);
      assert r + unflushed[e.key := cell] == (r + unflushed)[e.key := cell];
      assert m + unflushed[e.key := cell] == (m + unflushed)[e.key := cell];
      VisibleUpdate(r + unflushed, e.key, cell);
      VisibleUpdate(m + unflushed, e.key, cell);
    }
  }

  // ---------- the window in which inputs are deleted ----------

  predicate Distinct(names: seq<Name>)
  {
    forall i, j :: 0 <= i < j < |names| ==> names[i] != names[j]
  }

  lemma {:induction false} PresentAfterDeletion(disk: Disk, d: Disk, names: seq<Name>, j: nat, n: nat)
    requires j <= n <= |names| && Distinct(names)
    requires AllPresent(disk, names)
    requires forall i :: 0 <= i < |names| ==> (names[i] in d <==> j <= i)
    ensures Present(d, names[..n]) == names[j..n]
    decreases n
  {
    if n > j {
      PresentAfterDeletion(disk, d, names, j, n - 1);
      assert names[..n][..n - 1] == names[..n - 1];
      assert names[j..n] == names[j..n - 1] + [names[n - 1]];
    } else {
      NonePresent(d, names[..n]);
    }
  }

  lemma {:induction false} NonePresent(d: Disk, names: seq<Name>)
    requires forall i :: 0 <= i < |names| ==> names[i] !in d
    ensures Present(d, names) == []
  {
    if names != [] {
      NonePresent(d, names[..|names| - 1]);
    }
  }

  /** The disk d is the other one with some listed tables deleted. */
  ghost predicate SomeDeleted(disk: Disk, d: Disk)
  {
    && Whole(disk) && Listed(d) == Listed(disk) && LogOf(d) == LogOf(disk)
    && (forall i :: 0 <= i < |Listed(disk)| && Listed(disk)[i] in d ==> d[Listed(disk)[i]] == disk[Listed(disk)[i]])
  }

  /** The disk d is the other one with the oldest j listed tables deleted. */
  ghost predicate OldestDeleted(disk: Disk, d: Disk, j: nat)
  {
    && SomeDeleted(disk, d) && j <= |Listed(disk)|
    && (forall i :: 0 <= i < |Listed(disk)| ==> (Listed(disk)[i] in d <==> j <= i))
  }

  /** Which of the named files are there. */
  function Flags(disk: Disk, names: seq<Name>): (flags: seq<bool>)
    ensures |flags| == |names|
  {
    seq(|names|, i requires 0 <= i < |names| => names[i] in disk)
  }

  lemma {:induction false} KeptTables(disk: Disk, d: Disk, names: seq<Name>)
    requires AllPresent(disk, names) && IntactIfPresent(disk, names)
    requires forall i :: 0 <= i < |names| && names[i] in d ==> d[names[i]] == disk[names[i]]
    ensures IntactIfPresent(d, names)
    ensures Present(d, names) == Kept(names, Flags(d, names)) && IntactIfPresent(d, Present(d, names))
    ensures TablesOf(d, Present(d, names)) == Kept(TablesOf(disk, names), Flags(d, names))
  {
    hide Intact, IsTable;
    if names != [] {
      var n := |names| - 1;
      KeptTables(disk, d, names[..n]);
      assert TablesOf(disk, names)[..n] == TablesOf(disk, names[..n]);
      assert Flags(d, names)[..n] == Flags(d, names[..n]);
    }
  }

  /** The recovered layers, oldest first: the tables, and the log as one more. */
  ghost function StackOf(disk: Disk): seq<seq<Entry>>
    requires Readable(disk)
  {
    DiskTables(disk) + [Listing(LoggedLayer(disk))]
  }

  lemma OneMoreLayer(tables: seq<seq<Entry>>, layer: Layer)
    ensures Merge(tables + [Listing(layer)]) == Merge(tables) + layer
  {
    hide Merge, LayerOf, Listing;
    MergeConcat(tables, [Listing(layer)]);
    MergeOne(Listing(layer));
    ListingLayer(layer);
  }

  /** What is left of the stack when some listed tables have been deleted. */
  lemma TablesLeft(disk: Disk, d: Disk)
    requires Readable(disk) && SomeDeleted(disk, d)
    ensures Readable(d) && |DiskTables(disk)| == |Listed(disk)|
    ensures DiskTables(d) == Kept(DiskTables(disk), Flags(d, Listed(disk)))
  {
    hide Lines, Intact, LogOf, Listed, IsTable, Kept;
    AllThere(disk, Listed(disk));
    KeptTables(disk, d, Listed(disk));
  }

  /** Whichever listed tables are deleted, recovery sees the others and the log. That is a part of
      the true map exactly when nothing stale is uncovered, and all of it exactly when for every
      key the deciding table is left or the older ones that are left show the same. */
  lemma DeletedSome(disk: Disk, d: Disk)
    requires Readable(disk) && SomeDeleted(disk, d)
    ensures Readable(d) && |DiskTables(disk)| == |Listed(disk)|
    ensures var kept := Flags(d, Listed(disk)) + [true];
            && (Submap(RecoveredView(d), RecoveredView(disk)) <==> forall key :: NothingStale(StackOf(disk), kept, key))
            && (RecoveredView(d) == RecoveredView(disk) <==> forall key :: Unharmed(StackOf(disk), kept, key))
  {
    hide Lines, Intact, LogOf, Listed, Merge, DiskTables, Readable, LogLayer, Submap, Visible, Kept, Unharmed,
      NothingStale, Listing, Flags;
    TablesLeft(disk, d);
    LogLeft(disk, d);
    var flags, logged := Flags(d, Listed(disk)), Listing(LoggedLayer(disk));
    ViewPastIff(StackOf(disk), flags + [true]);
    KeptConcat(DiskTables(disk), [logged], flags, [true]);
    KeptOne(logged, true);
    OneMoreLayer(DiskTables(disk), LoggedLayer(disk));
    OneMoreLayer(DiskTables(d), LoggedLayer(disk));
  }

  lemma LogLeft(disk: Disk, d: Disk)
    requires SomeDeleted(disk, d)
    ensures LoggedLayer(d) == LoggedLayer(disk)
  {
  }

  /** Nothing is lost as long as every listed file is still there. */
  lemma NothingDeleted(disk: Disk, d: Disk)
    requires Readable(disk) && SomeDeleted(disk, d) && Whole(d)
    ensures Readable(d) && RecoveredView(d) == RecoveredView(disk)
  {
    hide Lines, Intact, LogOf, Listed, IsTable, Merge, LogLayer, Visible;
    var names := Listed(disk);
    AllThere(disk, names);
    AllThere(d, names);
    KeptTables(disk, d, names);
    LogLeft(disk, d);
    SameContentsThere(disk, d, names);
  }

  lemma SameContentsThere(disk: Disk, d: Disk, names: seq<Name>)
    requires AllPresent(disk, names) && AllPresent(d, names) && IntactIfPresent(disk, names)
    requires forall i :: 0 <= i < |names| ==> d[names[i]] == disk[names[i]]
    ensures IntactIfPresent(d, names) && TablesOf(d, names) == TablesOf(disk, names)
  {
    hide Intact, IsTable;
  }

  lemma NewerTablesLeft(disk: Disk, d: Disk, j: nat)
    requires Readable(disk) && Distinct(Listed(disk)) && OldestDeleted(disk, d, j)
    ensures Readable(d) && j <= |Listed(disk)|
    ensures |DiskTables(disk)| == |Listed(disk)| && DiskTables(d) == DiskTables(disk)[j..]
  {
    hide Lines, Intact, LogOf, Listed, IsTable;
    var names := Listed(disk);
    AllThere(disk, names);
    PresentAfterDeletion(disk, d, names, j, |names|);
    assert names[..|names|] == names;
    NewerContents(disk, d, names, j);
  }

  lemma NewerContents(disk: Disk, d: Disk, names: seq<Name>, j: nat)
    requires AllPresent(disk, names) && IntactIfPresent(disk, names) && j <= |names|
    requires forall i :: 0 <= i < |names| ==> (names[i] in d <==> j <= i) && (j <= i ==> d[names[i]] == disk[names[i]])
    ensures AllPresent(d, names[j..]) && IntactIfPresent(d, names[j..]) && IntactIfPresent(d, names)
    ensures TablesOf(d, names[j..]) == TablesOf(disk, names)[j..]
  {
    hide Intact, IsTable;
    assert forall i :: 0 <= i < |names[j..]| ==> names[j..][i] == names[j + i];
  }

  /** After the oldest j listed tables have been deleted, recovery sees the newer tables and the
      log: a part of the true map, and all of it exactly when every key that the deleted tables
      show is bound, as a value or as a deletion, by something that is left. */
  lemma DeletedOldest(disk: Disk, d: Disk, j: nat)
    requires Readable(disk) && Distinct(Listed(disk)) && OldestDeleted(disk, d, j)
    ensures Readable(d)
    ensures Submap(RecoveredView(d), RecoveredView(disk))
    ensures j <= |DiskTables(disk)| == |Listed(disk)|
    ensures RecoveredView(d) == RecoveredView(disk)
      <==> forall k :: k in Visible(Merge(DiskTables(disk)[..j])) ==> k in RecoveredLayer(d)
  {
    hide Lines, Intact, LogOf, Listed, Merge, DiskTables, Readable, Distinct, OldestDeleted, LogLayer, Submap,
      Visible;
    NewerTablesLeft(disk, d, j);
    assert LoggedLayer(d) == LoggedLayer(disk) by {
      SameLogLayer(disk, d, j);
    }
    var tables := DiskTables(disk);
    SplitLayer(tables, j, LoggedLayer(disk));
    DropOldest(Merge(tables[..j]), Merge(tables[j..]) + LoggedLayer(disk));
    WindowLosesNothingIff(Merge(tables[..j]), Merge(tables[j..]) + LoggedLayer(disk));
  }

  lemma SameLogLayer(disk: Disk, d: Disk, j: nat)
    requires OldestDeleted(disk, d, j)
    ensures LoggedLayer(d) == LoggedLayer(disk)
  {
  }

  lemma SplitLayer(tables: seq<seq<Entry>>, j: nat, log: Layer)
    requires j <= |tables|
    ensures Merge(tables) + log == Merge(tables[..j]) + (Merge(tables[j..]) + log)
  {
    hide Merge;
    assert tables == tables[..j] + tables[j..];
    MergeConcat(tables[..j], tables[j..]);
    OverlayAssociates(Merge(tables[..j]), Merge(tables[j..]), log);
  }

  /** Nothing is lost in the window exactly when every key that the deleted tables show is also
      bound, as a value or as a deletion, by a table or log record that is still there. */
  lemma WindowLosesNothingIff(deleted: Layer, left: Layer)
    ensures Visible(left) == Visible(deleted + left)
        <==> forall k :: k in Visible(deleted) ==> k in left
  {
    if Visible(left) == Visible(deleted + left) {
      forall k | k in Visible(deleted)
        ensures k in left
      {
        assert k in left || k in Visible(deleted + left);
      }
    }
    if forall k :: k in Visible(deleted) ==> k in left {
      assert Visible(left) == Visible(deleted + left);
    }
  }

  lemma NumberedDistinct(names: seq<Name>, next: nat)
    requires Numbered(names, next)
    ensures Distinct(names)
  {
    forall i, j | 0 <= i < j < |names|
      ensures names[i] != names[j]
    {
      assert NumberOf(names[i]) < NumberOf(names[j]);
    }
  }

  /** Table names are none of the engine's other files. */
  lemma NumberedApart(names: seq<Name>, next: nat, out: nat)
    requires Numbered(names, next)
    ensures MANIFEST !in names && WAL !in names && MANIFEST_TEMP !in names && FileName(out) + TEMP_SUFFIX !in names
    ensures next <= out ==> FileName(out) !in names
  {
    hide FileName, ParseNumber;
    forall i | 0 <= i < |names|
      ensures names[i] != MANIFEST && names[i] != WAL && names[i] != MANIFEST_TEMP && names[i] != FileName(out) + TEMP_SUFFIX
      ensures next <= out ==> names[i] != FileName(out)
    {
      assert IsTableName(names[i], next);
      var n := NumberOf(names[i]);
      assert FileName(n) + "" == FileName(n);
      TableNamesApart(n, "");
      SuffixedNamesApart(out, n);
      if next <= out {
        FileNamesDiffer(n, out);
      }
    }
  }

  // ---------- compaction ----------

  /** A table written from the listing of a layer stands for that layer. */
  lemma ListingTable(layer: Layer, options: Options)
    requires WellFormed(layer) && Roomy(options, |layer|)
    ensures var file := TableBytes(Listing(layer), ShapeFor(options, |Listing(layer)|));
            Intact(file) && LayerOf(Contents(file)) == layer
  {
    RoomyParts(options, |layer|);
    hide Listing, TableBytes, Fits, LayerOf, Roomy, WellFormed;
    ListingWritable(layer, options);
    TableRoundTrip(Listing(layer), ShapeFor(options, |Listing(layer)|));
    ListingLayer(layer);
  }

  /** The compacted table stands for the purged merge of its inputs. */
  lemma CompactedTable(merged: Layer, options: Options)
    requires WellFormed(merged) && Roomy(options, |merged|)
    ensures Intact(CompactedFile(merged, options))
    ensures LayerOf(Contents(CompactedFile(merged, options))) == Purge(merged)
  {
    RoomyParts(options, |merged|);
    hide Listing, TableBytes, LayerOf, Roomy;
    var purged := Purge(merged);
    SubsetSize(purged.Keys, merged.Keys);
    assert |purged| == |purged.Keys| && |merged| == |merged.Keys|;
    RoomyFewer(options, |purged|, |merged|);
    ListingTable(purged, options);
  }

  /** The output has been installed and inputs deleted, but the manifest is still the old one: a
      store that reads only the output sees the same map, and so does the log on top. */
  lemma CompactedStore(d0: Disk, d1: Disk, names: seq<Name>, gone: seq<Name>, next: nat, unflushed: Layer, options: Options)
    requires AllPresent(d0, names) && IntactIfPresent(d0, names) && Numbered(names, next) && Picked(gone, names, false)
    requires var merged := Merge(TablesOf(d0, names));
             && Roomy(options, |merged|)
             && d1 == WithoutInputs(Installed(d0, FileName(next), CompactedFile(merged, options)), gone, FileName(next))
    ensures var out := [FileName(next)];
            && AllPresent(d1, out) && IntactIfPresent(d1, out)
            && Merge(TablesOf(d1, out)) == Purge(Merge(TablesOf(d0, names)))
            && LogOf(d1) == LogOf(d0)
            && Visible(Merge(TablesOf(d1, out)) + unflushed) == Visible(Merge(TablesOf(d0, names)) + unflushed)
            && Visible(Merge(TablesOf(d1, out)) + LoggedLayer(d1)) == Visible(Merge(TablesOf(d0, names)) + LoggedLayer(d0))
  {
    hide CompactedFile, FileName, Intact, Merge, Purge, Visible, LayerOf, WellFormed, Roomy, LogLayer, Log, IsTable,
      ParseNumber;
    var merged := Merge(TablesOf(d0, names));
    var name := FileName(next);
    RoomyParts(options, |merged|);
    TablesWellFormed(d0, names);
    CompactedTable(merged, options);
    InstalledFile(d0, d1, names, gone, next, CompactedFile(merged, options));
    assert TablesOf(d1, [name]) == [Contents(d1[name])];
    MergeOne(Contents(d1[name]));
    PurgeInvisible(merged, unflushed);
    PurgeInvisible(merged, LoggedLayer(d0));
  }

  lemma InstalledFile(d0: Disk, d1: Disk, names: seq<Name>, gone: seq<Name>, next: nat, table: Bytes)
    requires Numbered(names, next) && Picked(gone, names, false)
    requires d1 == WithoutInputs(Installed(d0, FileName(next), table), gone, FileName(next))
    ensures FileName(next) in d1 && d1[FileName(next)] == table
    ensures LogOf(d1) == LogOf(d0) && Listed(d1) == Listed(d0)
  {
    hide FileName, Log;
    NumberedApart(names, next, next);
    assert FileName(next) + "" == FileName(next);
    TableNamesApart(next, "");
    TableNamesApart(next, TEMP_SUFFIX);
  }

  // ---------- crashes around a step ----------

  /** How much of the deletions of a compaction lies within a step: nothing, a loop in which all
      deletions succeed, or one in which the system refuses some. */
  datatype Window = Shut | Orderly | Ragged

  predicate NoWider(a: Window, b: Window)
  {
    a.Shut? || a == b || b.Ragged?
  }

  /** Recovery yields the map before or after the step. */
  ghost predicate Exact(d: Disk, from: map<Key, Value>, to: map<Key, Value>)
  {
    Recovers(d) && (RecoveredView(d) == from || RecoveredView(d) == to)
  }

  /** The disk lacks listed tables: the oldest ones, if the deletions are orderly. */
  ghost predicate Thinned(disk: Disk, d: Disk, orderly: bool)
  {
    SomeDeleted(disk, d) && (orderly ==> exists j :: OldestDeleted(disk, d, j))
  }

  /** The disk is one of the cuts, which recovers to the map exactly, less some of the tables that
      it lists; so this is never the case up to the rename of the output, nor from the manifest
      that lists it on. */
  ghost predicate InWindow(d: Disk, from: map<Key, Value>, cuts: iset<Disk>, orderly: bool)
  {
    !Whole(d) && exists disk :: disk in cuts && Exact(disk, from, from) && Thinned(disk, d, orderly)
  }

  /** A crash while the visible map goes from one value to another is safe: one of the two is
      recovered. The exception is a crash in the window in which a compaction deletes its inputs
      while the manifest still lists them. */
  ghost predicate CrashSafe(d: Disk, from: map<Key, Value>, to: map<Key, Value>, cuts: iset<Disk>, w: Window)
  {
    Exact(d, from, to) || (!w.Shut? && InWindow(d, from, cuts, w.Orderly?))
  }

  /** Every crash on the way is safe. */
  ghost predicate CrashesSafe(before: iset<Disk>, after: iset<Disk>, from: map<Key, Value>, to: map<Key, Value>, w: Window)
  {
    && (forall d :: d in before ==> d in after)
    && (forall d :: d in after ==> d in before || CrashSafe(d, from, to, after, w))
  }

  /** A safe crash stays safe seen from a longer step. */
  lemma CrashSafeMore(d: Disk, from: map<Key, Value>, to: map<Key, Value>, cuts: iset<Disk>, more: iset<Disk>, w: Window, v: Window)
    requires CrashSafe(d, from, from, cuts, w) || CrashSafe(d, from, to, cuts, w)
    requires NoWider(w, v) && forall c :: c in cuts ==> c in more
    ensures CrashSafe(d, from, to, more, v)
  {
    hide Recovers, RecoveredView, SomeDeleted, OldestDeleted, Whole;
  }

  lemma CrashesSafeChain(a: iset<Disk>, b: iset<Disk>, c: iset<Disk>, from: map<Key, Value>, to: map<Key, Value>,
                         w1: Window, w2: Window, w: Window)
    requires CrashesSafe(a, b, from, from, w1) && CrashesSafe(b, c, from, to, w2) && NoWider(w1, w) && NoWider(w2, w)
    ensures CrashesSafe(a, c, from, to, w)
  {
    hide CrashSafe;
    forall d | d in c && d !in a
      ensures CrashSafe(d, from, to, c, w)
    {
      if d in b {
        assert CrashSafe(d, from, from, b, w1);
        CrashSafeMore(d, from, to, b, c, w1, w);
      } else {
        CrashSafeMore(d, from, to, c, c, w2, w);
      }
    }
  }

  /** The same crashes seen from a step that goes further. */
  lemma CrashesSafeMore(before: iset<Disk>, after: iset<Disk>, from: map<Key, Value>, to: map<Key, Value>, w: Window)
    requires CrashesSafe(before, after, from, from, w)
    ensures CrashesSafe(before, after, from, to, w)
  {
    hide CrashSafe;
    forall d | d in after && d !in before
      ensures CrashSafe(d, from, to, after, w)
    {
      CrashSafeMore(d, from, to, after, after, w, w);
    }
  }

  lemma NoCrashes(crashes: iset<Disk>, from: map<Key, Value>, to: map<Key, Value>, w: Window)
    ensures CrashesSafe(crashes, crashes, from, to, w)
  {
  }

  /** What is recovered in the window: a part of the true map if the deletions are orderly, and
      the true map if no listed file is missing. */
  lemma ThinnedRecovers(disk: Disk, d: Disk, orderly: bool)
    requires Recovers(disk) && Thinned(disk, d, orderly)
    ensures Recovers(d)
    ensures orderly ==> Submap(RecoveredView(d), RecoveredView(disk))
    ensures Whole(d) ==> RecoveredView(d) == RecoveredView(disk)
  {
    hide Log, Lines, Merge, LogLayer, Intact, DiskTables, Submap, Visible, Numbered, Unharmed, NothingStale, Flags,
      Listed, LogOf, Readable, Distinct, Whole;
    DeletedSome(disk, d);
    if orderly {
      var j :| OldestDeleted(disk, d, j);
      ListedDistinct(disk);
      DeletedOldest(disk, d, j);
    }
    if Whole(d) {
      NothingDeleted(disk, d);
    }
    ThinnedLists(disk, d);
  }

  lemma ThinnedLists(disk: Disk, d: Disk)
    requires SomeDeleted(disk, d)
    ensures Listed(d) == Listed(disk) && LogOf(d) == LogOf(disk)
  {
  }

  lemma ListedDistinct(disk: Disk)
    requires Recovers(disk)
    ensures Distinct(Listed(disk))
  {
    hide Listed, LogOf, Readable, Numbered, Distinct;
    var next :| Numbered(Listed(disk), next);
    NumberedDistinct(Listed(disk), next);
  }

  lemma ExactIsSafe(d: Disk, from: map<Key, Value>, to: map<Key, Value>, cuts: iset<Disk>, w: Window)
    requires Exact(d, from, to)
    ensures CrashSafe(d, from, to, cuts, w)
  {
  }

  /** Every safe crash can be recovered from. */
  lemma CrashSafeRecovers(d: Disk, from: map<Key, Value>, to: map<Key, Value>, cuts: iset<Disk>, w: Window)
    requires CrashSafe(d, from, to, cuts, w)
    ensures Recovers(d)
    ensures RecoveredView(d) == from || RecoveredView(d) == to || (!w.Shut? && InWindow(d, from, cuts, w.Orderly?))
    ensures w.Orderly? ==> Submap(RecoveredView(d), from) || RecoveredView(d) == to
  {
    hide RecoveredView, Recovers, Thinned, Whole;
    if !Exact(d, from, to) {
      var disk :| disk in cuts && Exact(disk, from, from) && Thinned(disk, d, w.Orderly?);
      ThinnedRecovers(disk, d, w.Orderly?);
    }
  }

  lemma AgreesIsSafe(disk: Disk, names: seq<Name>, unflushed: Layer, logging: bool)
    requires Agrees(disk, names, unflushed, logging)
    ensures var view := Visible(Merge(TablesOf(disk, names)) + unflushed);
            Exact(disk, view, view)
  {
    hide Merge, LogOf, Intact, Lines, DiskTables;
    AgreesRecovers(disk, names, unflushed, logging);
  }

  /** Files that recovery does not see do not make a crash less safe. */
  lemma CrashSafeUnseen(d0: Disk, d: Disk, view: map<Key, Value>, touched: set<Name>, cuts: iset<Disk>, w: Window)
    requires CrashSafe(d0, view, view, cuts, w) && OnlyTouches(d0, d, touched)
    requires MANIFEST !in touched && WAL !in touched && forall i :: 0 <= i < |Listed(d0)| ==> Listed(d0)[i] !in touched
    ensures CrashSafe(d, view, view, cuts, w)
  {
    hide Lines, Log, DiskTables, Readable, Merge, LogOf, Numbered, RecoveredView, Recovers, Thinned, Whole;
    WholeUnseen(d0, d, touched);
    if Exact(d0, view, view) {
      ExactUnseen(d0, d, view, touched);
    } else {
      var disk :| disk in cuts && Exact(disk, view, view) && Thinned(disk, d0, w.Orderly?);
      ThinnedUnseen(disk, d0, d, touched, w.Orderly?);
    }
  }

  lemma WholeUnseen(d0: Disk, d: Disk, touched: set<Name>)
    requires OnlyTouches(d0, d, touched) && MANIFEST !in touched && forall i :: 0 <= i < |Listed(d0)| ==> Listed(d0)[i] !in touched
    ensures Whole(d) <==> Whole(d0)
  {
    hide Lines;
    assert Listed(d) == Listed(d0);
  }

  lemma ExactUnseen(d0: Disk, d: Disk, view: map<Key, Value>, touched: set<Name>)
    requires Exact(d0, view, view) && OnlyTouches(d0, d, touched)
    requires MANIFEST !in touched && WAL !in touched && forall i :: 0 <= i < |Listed(d0)| ==> Listed(d0)[i] !in touched
    ensures Exact(d, view, view)
  {
    hide Lines, Log, DiskTables, Readable, Merge, LogOf, Numbered;
    Unseen(d0, d, touched);
    SameTables(d0, d, touched);
  }

  lemma ThinnedUnseen(disk: Disk, d0: Disk, d: Disk, touched: set<Name>, orderly: bool)
    requires Thinned(disk, d0, orderly) && OnlyTouches(d0, d, touched)
    requires MANIFEST !in touched && WAL !in touched && forall i :: 0 <= i < |Listed(d0)| ==> Listed(d0)[i] !in touched
    ensures Thinned(disk, d, orderly)
  {
    hide Lines, Log, Whole;
    SameListed(d0, d, touched);
    if orderly {
      var j :| OldestDeleted(disk, d0, j);
      assert OldestDeleted(disk, d, j);
    }
  }

  lemma SameListed(d0: Disk, d1: Disk, touched: set<Name>)
    requires OnlyTouches(d0, d1, touched) && MANIFEST !in touched && WAL !in touched
    ensures Listed(d1) == Listed(d0) && LogOf(d1) == LogOf(d0)
  {
    hide Lines, Log;
  }

  /** A step that is confined to one file which is neither listed nor read. */
  lemma ConfinedIsSafe(d0: Disk, c0: iset<Disk>, d1: Disk, c1: iset<Disk>, name: Name,
                       names: seq<Name>, unflushed: Layer, logging: bool)
    requires Confined(d0, c0, d1, c1, name) && Agrees(d0, names, unflushed, logging)
    requires name != MANIFEST && name != WAL && name !in names
    ensures Agrees(d1, names, unflushed, logging)
    ensures var view := Visible(Merge(TablesOf(d0, names)) + unflushed);
            CrashesSafe(c0, c1, view, view, Shut)
  {
    var view := Visible(Merge(TablesOf(d0, names)) + unflushed);
    hide Agrees, OnlyTouches, Exact, Merge;
    AgreesUnseen(d0, d1, names, unflushed, logging, {name});
    forall d | d in c1 && d !in c0
      ensures Exact(d, view, view)
    {
      AgreesUnseen(d0, d, names, unflushed, logging, {name});
      AgreesIsSafe(d, names, unflushed, logging);
    }
  }

  /** Replacing the manifest, seen from a disk that agrees before and after. */
  lemma ManifestIsSafe(d0: Disk, c0: iset<Disk>, d1: Disk, c1: iset<Disk>, names: seq<Name>, unflushed: Layer, logging: bool)
    requires Agrees(d0, names, unflushed, logging) && Agrees(d1, names, unflushed, logging)
    requires TablesOf(d1, names) == TablesOf(d0, names) && MANIFEST_TEMP !in names
    requires forall d :: d in c0 ==> d in c1
    requires forall d :: d in c1 ==> d in c0 || OnlyTouches(d0, d, {MANIFEST_TEMP}) || d == d1
    ensures var view := Visible(Merge(TablesOf(d0, names)) + unflushed);
            CrashesSafe(c0, c1, view, view, Shut)
  {
    var view := Visible(Merge(TablesOf(d0, names)) + unflushed);
    hide Agrees, OnlyTouches, Exact, Merge;
    forall d | d in c1 && d !in c0
      ensures Exact(d, view, view)
    {
      if d == d1 {
        AgreesIsSafe(d, names, unflushed, logging);
      } else {
        AgreesUnseen(d0, d, names, unflushed, logging, {MANIFEST_TEMP});
        AgreesIsSafe(d, names, unflushed, logging);
      }
    }
  }

  // ---------- cutting a compaction ----------

  /** The disk in the middle of the deletions, seen from its manifest. */
  lemma HalfDeleted(disk: Disk, d: Disk, names: seq<Name>, gone: seq<Name>, out: Name, orderly: bool)
    requires AllPresent(disk, names) && Listed(disk) <= names && Distinct(names) && out !in names
    requires MANIFEST !in names && WAL !in names
    requires Picked(gone, names, orderly) && d == WithoutInputs(disk, gone, out)
    ensures Thinned(disk, d, orderly)
  {
    hide Log, Lines;
    assert forall i :: 0 <= i < |Listed(disk)| ==> Listed(disk)[i] == names[i];
    if orderly {
      var j := if |gone| <= |Listed(disk)| then |gone| else |Listed(disk)|;
      assert forall i :: 0 <= i < |names| ==> (names[i] in gone <==> i < |gone|);
      assert OldestDeleted(disk, d, j);
    }
  }

  /** Wherever a compaction is cut, recovery yields the true map, or the disk is the one after the
      rename less some listed tables: it is exact up to the rename, and after it as long as no
      listed file has been deleted. */
  lemma CompactionCrashSafe(d0: Disk, d: Disk, names: seq<Name>, next: nat, unflushed: Layer, logging: bool, table: Bytes,
                            orderly: bool)
    requires Agrees(d0, names, unflushed, logging) && Numbered(names, next)
    requires CompactionCrash(d0, d, names, FileName(next), table, orderly)
    ensures var view := Visible(Merge(TablesOf(d0, names)) + unflushed);
            && Exact(Installed(d0, FileName(next), table), view, view)
            && (Exact(d, view, view) || (!Whole(d) && Thinned(Installed(d0, FileName(next), table), d, orderly)))
  {
    hide FileName, Log, Lines, ParseNumber, Merge, LogLayer, Intact, Visible, DiskTables, Submap, Readable, Exact,
      Thinned, Agrees, Deleting, Whole;
    var installed := Installed(d0, FileName(next), table);
    InstalledAgrees(d0, names, next, unflushed, logging, table);
    if OnlyTouches(d0, d, {FileName(next) + TEMP_SUFFIX}) {
      NumberedApart(names, next, next);
      TableNamesApart(next, TEMP_SUFFIX);
      AgreesUnseen(d0, d, names, unflushed, logging, {FileName(next) + TEMP_SUFFIX});
      AgreesIsSafe(d, names, unflushed, logging);
    } else {
      DeletionCut(installed, d, names, next, unflushed, logging, orderly);
    }
  }

  /** Installing the output is not seen by recovery. */
  lemma InstalledAgrees(d0: Disk, names: seq<Name>, next: nat, unflushed: Layer, logging: bool, table: Bytes)
    requires Agrees(d0, names, unflushed, logging) && Numbered(names, next)
    ensures var installed := Installed(d0, FileName(next), table);
            var view := Visible(Merge(TablesOf(d0, names)) + unflushed);
            && Agrees(installed, names, unflushed, logging) && TablesOf(installed, names) == TablesOf(d0, names)
            && Exact(installed, view, view)
  {
    hide FileName, ParseNumber, Merge, Visible, Exact, Agrees, Numbered;
    var installed := Installed(d0, FileName(next), table);
    NumberedApart(names, next, next);
    TableNamesApart(next, TEMP_SUFFIX);
    TableNamesApart(next, "");
    assert FileName(next) + "" == FileName(next);
    AgreesUnseen(d0, installed, names, unflushed, logging, {FileName(next), FileName(next) + TEMP_SUFFIX});
    AgreesIsSafe(installed, names, unflushed, logging);
  }

  lemma DeletionCut(disk: Disk, d: Disk, names: seq<Name>, next: nat, unflushed: Layer, logging: bool, orderly: bool)
    requires Agrees(disk, names, unflushed, logging) && Numbered(names, next)
    requires Deleting(disk, d, names, FileName(next), orderly)
    ensures var view := Visible(Merge(TablesOf(disk, names)) + unflushed);
            Exact(d, view, view) || (!Whole(d) && Thinned(disk, d, orderly))
  {
    hide FileName, Log, Lines, ParseNumber, Merge, LogLayer, Intact, Visible, DiskTables, Submap, Readable, Thinned,
      Whole, Numbered, RecoveredView, Recovers, LogOf, Listed;
    NumberedApart(names, next, next);
    NumberedDistinct(names, next);
    AgreesRecovers(disk, names, unflushed, logging);
    var gone :| Picked(gone, names, orderly) && d == WithoutInputs(disk, gone, FileName(next));
    HalfDeleted(disk, d, names, gone, FileName(next), orderly);
    ThinnedRecovers(disk, d, orderly);
  }

  // ---------- the window loses data, and can bring deleted keys back ----------

  /** Two listed tables and no log. */
  function WindowDisk(older: Bytes, newer: Bytes): Disk
  {
    map[MANIFEST := ManifestText([FileName(1), FileName(2)]), FileName(1) := older, FileName(2) := newer]
  }

  lemma WindowNames()
    ensures FileName(1) != FileName(2) && FileName(1) != FileName(3) && FileName(2) != FileName(3)
    ensures Numbered([FileName(1), FileName(2)], 3)
    ensures Lines(ManifestText([FileName(1), FileName(2)])) == [FileName(1), FileName(2)]
    ensures FileName(1) != WAL && FileName(2) != WAL && FileName(1) != MANIFEST && FileName(2) != MANIFEST
    ensures FileName(3) != WAL && FileName(3) != MANIFEST
    ensures forall i :: 1 <= i <= 2 ==> FileName(i) != FileName(3) + TEMP_SUFFIX
    ensures FileName(3) + TEMP_SUFFIX != WAL && FileName(3) + TEMP_SUFFIX != MANIFEST
  {
    hide FileName, ParseNumber, ManifestText, Lines;
    FileNamesDiffer(1, 2);
    FileNamesDiffer(1, 3);
    FileNamesDiffer(2, 3);
    NumberRoundTrip(1);
    NumberRoundTrip(2);
    var names := [FileName(1), FileName(2)];
    NumberedRoundTrip(names, 3);
    NumberedApart(names, 3, 3);
    assert FileName(3) + "" == FileName(3);
    TableNamesApart(3, "");
    TableNamesApart(3, TEMP_SUFFIX);
    assert names[0] == FileName(1) && names[1] == FileName(2);
  }

  /** A compaction of the two tables, cut when the inputs `gone` have been deleted. */
  lemma WindowStep(older: Bytes, newer: Bytes, gone: seq<Name>, orderly: bool, table: Bytes)
    requires Intact(older) && Intact(newer) && Picked(gone, [FileName(1), FileName(2)], orderly)
    ensures var disk := WindowDisk(older, newer);
            var d := WithoutInputs(Installed(disk, FileName(3), table), gone, FileName(3));
            && Listed(disk) == [FileName(1), FileName(2)] && Ordered(Listed(disk))
            && Whole(disk) && Readable(disk) && DiskTables(disk) == [Contents(older), Contents(newer)]
            && CompactionCrash(disk, d, Listed(disk), FileName(3), table, orderly)
            && SomeDeleted(disk, d)
            && Flags(d, Listed(disk)) == [FileName(1) !in gone, FileName(2) !in gone]
            && LogOf(disk) == Replay([], Clean)
  {
    hide FileName, ManifestText, Lines, Intact, IsTable, Installed, WithoutInputs, SomeDeleted, Flags;
    WindowNames();
    hide Numbered;
    var disk := WindowDisk(older, newer);
    var d := WithoutInputs(Installed(disk, FileName(3), table), gone, FileName(3));
    AllThere(disk, Listed(disk));
    CutHere(Installed(disk, FileName(3), table), d, gone, Listed(disk), FileName(3), orderly);
    WindowDeleted(disk, d, gone, table);
  }

  lemma WindowDeleted(disk: Disk, d: Disk, gone: seq<Name>, table: Bytes)
    requires Listed(disk) == [FileName(1), FileName(2)] && Whole(disk)
    requires Picked(gone, Listed(disk), false)
    requires d == WithoutInputs(Installed(disk, FileName(3), table), gone, FileName(3))
    ensures SomeDeleted(disk, d) && Flags(d, Listed(disk)) == [FileName(1) !in gone, FileName(2) !in gone]
  {
    hide FileName, Lines, Log;
    WindowNames();
    hide Numbered;
    assert Listed(disk)[0] == FileName(1) && Listed(disk)[1] == FileName(2);
  }

  /** Two tables of one record each. */
  lemma WindowTables(options: Options, e: Entry) returns (file: Bytes)
    requires Roomy(options, 2) && Encodable(e) && Canonical(e)
    ensures Intact(file) && Contents(file) == [e]
  {
    hide TableBytes, Fits, Roomy;
    RoomyFewer(options, 1, 2);
    RoomyParts(options, 1);
    RoomyFits([e], options);
    TableRoundTrip([e], ShapeFor(options, 1));
    file := TableBytes([e], ShapeFor(options, 1));
  }

  /** Whether the older record's key is shown, before the deletions and after them. */
  lemma WindowViews(disk: Disk, d: Disk, older: Entry, newer: Entry, first: bool, second: bool)
    requires Readable(disk) && Whole(disk) && SomeDeleted(disk, d) && LogOf(disk) == Replay([], Clean)
    requires DiskTables(disk) == [[older], [newer]] && Flags(d, Listed(disk)) == [first, second]
    requires Ordered(Listed(disk))
    ensures Recovers(disk) && Recovers(d)
    ensures older.key in RecoveredView(disk) <==> if newer.key == older.key then newer.kind.Put? else older.kind.Put?
    ensures older.key in RecoveredView(d)
       <==> if second && newer.key == older.key then newer.kind.Put? else first && older.kind.Put?
  {
    hide Listed, Intact, IsTable, Readable, Distinct, Log, Numbered, LayerOf, DiskTables, Flags, LogOf, Whole, Merge,
      Kept, SomeDeleted, LogLayer;
    TablesLeft(disk, d);
    ThinnedLists(disk, d);
    NothingInLog(disk);
    NothingInLog(d);
    KeptTwo([older], [newer], first, second);
    assert DiskTables(disk) == [[older]] + [[newer]];
    MergeTwo(older, newer, first, second);
    MergeTwo(older, newer, true, true);
    assert RecoveredLayer(disk) == Merge(DiskTables(disk)) && RecoveredLayer(d) == Merge(DiskTables(d));
  }

  lemma NothingInLog(disk: Disk)
    requires LogOf(disk) == Replay([], Clean)
    ensures LoggedLayer(disk) == map[]
  {
    hide Log;
  }

  lemma MergeTwo(a: Entry, b: Entry, first: bool, second: bool)
    ensures Merge((if first then [[a]] else []) + (if second then [[b]] else []))
         == (if first then map[a.key := CellOf(a)] else map[]) + (if second then map[b.key := CellOf(b)] else map[])
  {
    hide LayerOf;
    MergeOne([a]);
    MergeOne([b]);
    LayerOfOne(a);
    LayerOfOne(b);
    MergeConcat(if first then [[a]] else [], if second then [[b]] else []);
  }

  /** Deleting the inputs before the manifest is rewritten does lose data: a crash after the
      first deletion of a compaction makes a live key disappear. */
  lemma WindowLoses(options: Options)
    requires Roomy(options, 2)
    ensures options.sparseInterval > 0
    ensures exists disk, d ::
      && Recovers(disk) && Recovers(d)
      && CompactionCrash(disk, d, Listed(disk), FileName(3), CompactedFile(Merge(DiskTables(disk)), options), true)
      && [1] in RecoveredView(disk) && [1] !in RecoveredView(d)
  {
    hide TableBytes, FileName, LogOf, Listed, Intact, DiskTables, Readable, CompactedFile, SomeDeleted, Flags, Merge,
      IsTable, Contents, CompactionCrash, Ordered, Whole, Roomy, RecoveredView, Recovers, WindowDisk, Installed,
      WithoutInputs;
    RoomyParts(options, 2);
    WindowNames();
    var e, f := Entry([1], [], Put), Entry([2], [], Put);
    var older := WindowTables(options, e);
    var newer := WindowTables(options, f);
    var table := CompactedFile(Merge([[e], [f]]), options);
    WindowStep(older, newer, [FileName(1)], true, table);
    var disk := WindowDisk(older, newer);
    var d := WithoutInputs(Installed(disk, FileName(3), table), [FileName(1)], FileName(3));
    WindowViews(disk, d, e, f, false, true);
  }

  /** If the system refuses to delete an older input, a key that a newer one deletes comes back. */
  lemma WindowRevives(options: Options)
    requires Roomy(options, 2)
    ensures options.sparseInterval > 0
    ensures exists disk, d ::
      && Recovers(disk) && Recovers(d)
      && CompactionCrash(disk, d, Listed(disk), FileName(3), CompactedFile(Merge(DiskTables(disk)), options), false)
      && [1] !in RecoveredView(disk) && [1] in RecoveredView(d)
  {
    hide TableBytes, FileName, LogOf, Listed, Intact, DiskTables, Readable, CompactedFile, SomeDeleted, Flags, Merge,
      IsTable, Contents, CompactionCrash, Ordered, Whole, Roomy, RecoveredView, Recovers, WindowDisk, Installed,
      WithoutInputs;
    RoomyParts(options, 2);
    WindowNames();
    var e, f := Entry([1], [], Put), Entry([1], [], Tombstone);
    var older := WindowTables(options, e);
    var newer := WindowTables(options, f);
    var table := CompactedFile(Merge([[e], [f]]), options);
    WindowStep(older, newer, [FileName(2)], false, table);
    var disk := WindowDisk(older, newer);
    var d := WithoutInputs(Installed(disk, FileName(3), table), [FileName(2)], FileName(3));
    WindowViews(disk, d, e, f, true, false);
  }

  lemma SamePlace(d0: Disk, d1: Disk, names: seq<Name>, touched: set<Name>)
    requires OnlyTouches(d0, d1, touched) && AllPresent(d0, names) && IntactIfPresent(d0, names)
    requires WAL !in touched && forall n :: n in touched ==> n !in names
    ensures AllPresent(d1, names) && IntactIfPresent(d1, names) && TablesOf(d1, names) == TablesOf(d0, names)
    ensures LogOf(d1) == LogOf(d0)
  {
    hide LogLayer, Log;
    SameLog(d0, d1, touched);
    SameContents(d0, d1, names, touched);
  }

  // ---------- a new file that is already listed ----------

  /** A file that is there and fails a check of the reader. */
  predicate BadFile(disk: Disk, name: Name)
  {
    name in disk && LoadTable(disk[name]).BadTable?
  }

  ghost predicate SomeBad(disk: Disk)
  {
    exists n :: n in Listed(disk) && BadFile(disk, n)
  }

  lemma EmptyFile()
    ensures !Intact([]) && LoadTable([]).BadTable?
  {
    hide LoadTable;
    if Intact([]) {
      IntactFileLoads([]);
    }
    NothingLoads();
  }

  lemma NothingLoads()
    ensures LoadTable([]).BadTable?
  {
  }

  /** A crash right after a new table file has been created leaves a disk that opens if and only if
      the manifest does not list a file of that name; and then every crash while the file is being
      written recovers to what it was. */
  lemma NewFileRecoversIff(d: Disk, name: Name)
    requires Recovers(d) && name != MANIFEST && name != WAL
    ensures Recovers(d[name := []]) <==> name !in Listed(d)
    ensures SomeBad(d[name := []]) <==> name in Listed(d)
    ensures name !in Listed(d) ==> forall c :: OnlyTouches(d, c, {name}) ==> Exact(c, RecoveredView(d), RecoveredView(d))
  {
    hide Lines, Log, Intact, LoadTable, DiskTables, Numbered, RecoveredView, Merge;
    EmptyFile();
    var torn := d[name := []];
    SameListed(d, torn, {name});
    if name in Listed(d) {
      var i :| 0 <= i < |Listed(d)| && Listed(d)[i] == name;
      assert BadFile(torn, name);
    } else {
      NotListed(d, name);
      forall c | OnlyTouches(d, c, {name})
        ensures Exact(c, RecoveredView(d), RecoveredView(d))
      {
        ExactUnseen(d, c, RecoveredView(d), {name});
      }
      assert OnlyTouches(d, torn, {name});
      GoodOnes(torn);
    }
  }

  lemma NotListed(d: Disk, name: Name)
    requires name !in Listed(d)
    ensures forall i :: 0 <= i < |Listed(d)| ==> Listed(d)[i] !in {name}
  {
    hide Lines;
  }

  /** No file that recovery reads fails a check. */
  lemma GoodOnes(disk: Disk)
    requires Recovers(disk)
    ensures !SomeBad(disk)
  {
    hide LoadTable, Lines, Log, Intact, Ordered;
    forall n | n in Listed(disk)
      ensures !BadFile(disk, n)
    {
      var i :| 0 <= i < |Listed(disk)| && Listed(disk)[i] == n;
      if n in disk {
        IntactFileLoads(disk[n]);
      }
    }
  }

  /** After a compaction whose deletions were all done but whose output was not listed, numbering
      starts again at one, and the next file is one that the manifest lists. */
  lemma RestartCollides(older: Bytes, newer: Bytes, table: Bytes)
    requires Intact(older) && Intact(newer)
    ensures var disk, out := WindowDisk(older, newer), FileName(3);
            var d := WithoutInputs(Installed(disk, out, table), [FileName(1), FileName(2)], out);
            && CompactionCrash(disk, d, Listed(disk), out, table, true) && Recovers(d)
            && Present(d, Listed(d)) == [] && MaxNumber([]) + 1 == 1
            && FileName(1) in Listed(d) && !Recovers(d[FileName(1) := []])
  {
    hide FileName, Intact, IsTable, Installed, WithoutInputs, CompactionCrash, Readable, Lines, Log, LogOf, Listed, Ordered,
      DiskTables, Flags, WindowDisk;
    WindowNames();
    var disk := WindowDisk(older, newer);
    var gone := [FileName(1), FileName(2)];
    var d := WithoutInputs(Installed(disk, FileName(3), table), gone, FileName(3));
    WindowStep(older, newer, gone, true, table);
    ThinnedLists(disk, d);
    assert gone[0] == FileName(1) && gone[1] == FileName(2);
    TablesLeft(disk, d);
    AllGone(disk, d);
    NewFileRecoversIff(d, FileName(1));
  }

  lemma AllGone(disk: Disk, d: Disk)
    requires SomeDeleted(disk, d) && Flags(d, Listed(disk)) == [false, false]
    ensures Present(d, Listed(d)) == []
  {
    hide Lines, Log;
    var flags := Flags(d, Listed(disk));
    assert |Listed(disk)| == 2;
    forall i | 0 <= i < |Listed(d)|
      ensures Listed(d)[i] !in d
    {
      assert flags[i] == (Listed(disk)[i] in d);
    }
    NonePresent(d, Listed(d));
  }

  // ---------- opening ----------

  /** Creating an empty log is not seen by recovery. */
  lemma LogCreated(d0: Disk, d1: Disk)
    requires Recovers(d0) && d1 == if WAL in d0 then d0 else d0[WAL := []]
    ensures Recovers(d1) && Listed(d1) == Listed(d0) && LogOf(d1) == LogOf(d0)
    ensures RecoveredView(d1) == RecoveredView(d0) && (Whole(d1) <==> Whole(d0))
    ensures Present(d1, Listed(d1)) == Present(d0, Listed(d0))
  {
    hide Lines, Merge, Numbered, Intact, DiskTables, LogLayer;
    var next :| Numbered(Listed(d0), next);
    NumberedApart(Listed(d0), next, next);
    SameTables(d0, d1, {WAL});
    PresentSame(d0, d1, Listed(d0));
    EmptyLog();
    assert LogOf(d1) == LogOf(d0);
  }

  lemma LogCreatedTables(d0: Disk, d1: Disk)
    requires Recovers(d0) && d1 == if WAL in d0 then d0 else d0[WAL := []]
    ensures Readable(d1) && DiskTables(d1) == DiskTables(d0)
  {
    hide Lines, Numbered, Intact, LogOf, IsTable;
    var next :| Numbered(Listed(d0), next);
    NumberedApart(Listed(d0), next, next);
    SameTables(d0, d1, {WAL});
  }

  /** What is served when the manifest or the log could not be read and counts as empty. */
  function ServedUnread(tables: Layer, log: Layer, manifestRead: bool, logRead: bool): map<Key, Value>
  {
    Visible((if manifestRead then tables else map[]) + (if logRead then log else map[]))
  }

  /** For the key it makes no difference that a file went unread: what an unread log says about it
      is what the tables that are read show, and what unlisted tables show is overridden by the
      log. */
  predicate NotMissed(tables: Layer, log: Layer, manifestRead: bool, logRead: bool, key: Key)
  {
    if key in log then logRead || SameShown(Answer(if manifestRead then tables else map[], key), Answer(log, key))
    else manifestRead || !Answer(tables, key).Found?
  }

  /** Taking an unreadable manifest or log for an empty one goes unpunished exactly when no key is
      missed. As long as the log is read, what is served is at least a part of the truth. */
  lemma UnreadIff(tables: Layer, log: Layer, manifestRead: bool, logRead: bool)
    ensures ServedUnread(tables, log, manifestRead, logRead) == Visible(tables + log)
       <==> forall key :: NotMissed(tables, log, manifestRead, logRead, key)
    ensures logRead ==> Submap(ServedUnread(tables, log, manifestRead, logRead), Visible(tables + log))
  {
    var got, truth := ServedUnread(tables, log, manifestRead, logRead), Visible(tables + log);
    forall key
      ensures NotMissed(tables, log, manifestRead, logRead, key)
         <==> ((key in got <==> key in truth) && (key in got ==> got[key] == truth[key]))
    {
    }
    hide NotMissed, ServedUnread, Visible;
    if forall key :: NotMissed(tables, log, manifestRead, logRead, key) {
      assert got == truth;
    }
  }

  /** One listed table, and a log of one record. */
  function LoggedDisk(table: Bytes, e: Entry): Disk
  {
    map[MANIFEST := ManifestText([FileName(1)]), FileName(1) := table, WAL := Encode(e)]
  }

  lemma LoggedDiskParts(table: Bytes, e: Entry)
    requires Intact(table) && Encodable(e) && Loggable(e)
    ensures var disk := LoggedDisk(table, e);
            && Recovers(disk) && LogOf(disk) == Replay([e], Clean) && DiskTables(disk) == [Contents(table)]
  {
    hide FileName, ManifestText, Lines, Intact, IsTable, Log, Encode, ParseNumber;
    NumberRoundTrip(1);
    assert Numbered([FileName(1)], 2);
    NumberedRoundTrip([FileName(1)], 2);
    NumberedApart([FileName(1)], 2, 2);
    assert [FileName(1)][0] == FileName(1);
    hide Numbered;
    var disk := LoggedDisk(table, e);
    assert Listed(disk) == [FileName(1)];
    AllThere(disk, Listed(disk));
    LogOfAll([e]);
    EncodeAllOne(e);
  }

  /** With the log unread, a deleted key comes back. */
  lemma UnreadLogRevives(options: Options)
    requires Roomy(options, 2)
    ensures exists disk ::
      && Recovers(disk) && [1] !in RecoveredView(disk)
      && [1] in ServedUnread(Merge(DiskTables(disk)), LoggedLayer(disk), true, false)
  {
    hide FileName, Intact, IsTable, Log, Encode, Recovers, DiskTables, Readable, LogOf, LoggedDisk, Roomy, Contents;
    var e, f := Entry([1], [], Put), Entry([1], [], Tombstone);
    var table := WindowTables(options, e);
    LoggedDiskParts(table, f);
    var disk := LoggedDisk(table, f);
    MergeOne([e]);
    LayerOfOne(e);
    assert LogLayer([f]) == map[[1] := Replayed(f)] by {
      LogLayerSnoc([], f);
      assert [] + [f] == [f];
    }
    RecoversReadable(disk);
    assert LoggedLayer(disk) == LogLayer([f]);
  }

  lemma RecoversReadable(disk: Disk)
    requires Recovers(disk)
    ensures Readable(disk)
  {
  }

  /** Every record that a replay delivers can be written again. */
  lemma {:induction false} DeliveredEncodable(s: Bytes)
    ensures forall e :: e in Log(s).records ==> Encodable(e)
    decreases |s|
  {
    if s != [] && ReadRecord(s).Delivered? {
      DeliveredEncodable(s[ReadRecord(s).size..]);
      FrontEncodable(s);
    }
  }

  lemma FrontEncodable(s: Bytes)
    requires ReadRecord(s).Delivered?
    ensures Encodable(ReadRecord(s).entry)
  {
    hide FromLe, FrontIntact;
  }

  lemma {:induction false} ReplayedWellFormed(es: seq<Entry>)
    requires forall e :: e in es ==> Encodable(e)
    ensures WellFormed(LogLayer(es))
  {
    if es != [] {
      assert es[|es| - 1] in es;
      ReplayedWellFormed(es[..|es| - 1]);
    }
  }

  lemma LoggedWellFormed(content: Bytes)
    ensures WellFormed(LogLayer(Log(content).records))
  {
    hide Log, LogLayer;
    DeliveredEncodable(content);
    ReplayedWellFormed(Log(content).records);
  }

  /** The present ones of numbered files are numbered. */
  lemma PresentNumbered(disk: Disk, names: seq<Name>, above: nat, next: nat)
    requires Numbered(names, above)
    requires forall n :: n in Present(disk, names) ==> NumberOf(n) < next
    ensures Numbered(Present(disk, names), next)
  {
    hide Numbered, NumberOf, Present;
    PresentStillNumbered(disk, names, above);
    NumberedBelow(Present(disk, names), above, next);
  }

  lemma {:induction false} PresentStillNumbered(disk: Disk, names: seq<Name>, above: nat)
    requires Numbered(names, above)
    ensures Numbered(Present(disk, names), above)
  {
    hide FileName, ParseNumber, NumberOf;
    if names != [] {
      var n := |names| - 1;
      PresentStillNumbered(disk, names[..n], above);
      var before := Present(disk, names[..n]);
      if names[n] in disk {
        forall i | 0 <= i < |before|
          ensures NumberOf(before[i]) < NumberOf(names[n])
        {
          assert before[i] in names[..n];
        }
        assert IsTableName(names[n], above);
        NumberedSnoc(before, names[n], above);
      }
    }
  }
}
