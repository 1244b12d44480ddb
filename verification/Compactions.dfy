/** Full compaction: all tables merged into one, the tombstones purged, the inputs replaced. */
module Compactions {
  import opened Bytes
  import opened Entries
  import opened Records
  import opened Blooms
  import opened TableFormat
  import opened Storage
  import opened Config
  import opened TableWriters
  import opened TableReaders

  // ---------- the tables of a disk ----------

  predicate AllPresent(disk: Disk, names: seq<Name>)
  {
    forall i :: 0 <= i < |names| ==> names[i] in disk
  }

  /** Whichever of the named files exist are table files as a writer leaves them. */
  ghost predicate IntactIfPresent(disk: Disk, names: seq<Name>)
  {
    forall i :: 0 <= i < |names| && names[i] in disk ==> Intact(disk[names[i]])
  }

  /** The records of the named tables, in order. */
  ghost function TablesOf(disk: Disk, names: seq<Name>): (tables: seq<seq<Entry>>)
    requires AllPresent(disk, names) && IntactIfPresent(disk, names)
    ensures |tables| == |names|
  {
    seq(|names|, i requires 0 <= i < |names| => Contents(disk[names[i]]))
  }

  // ---------- merging ----------

  /** Records in order without the tombstones. */
  function Survivors(es: seq<Entry>): seq<Entry>
  {
    if es == [] then [] else
      var last := es[|es| - 1];
      Survivors(es[..|es| - 1]) + (if last.kind.Tombstone? then [] else [last])
  }

  lemma {:induction false} SurvivorsConcat(a: seq<Entry>, b: seq<Entry>)
    ensures Survivors(a + b) == Survivors(a) + Survivors(b)
  {
    if b == [] {
      assert a + b == a;
    } else {
      var n := |b| - 1;
      assert (a + b)[..|a + b| - 1] == a + b[..n] && (a + b)[|a + b| - 1] == b[n];
      SurvivorsConcat(a, b[..n]);
    }
  }

  lemma SurvivorsOne(e: Entry)
    ensures Survivors([e]) == if e.kind.Tombstone? then [] else [e]
  {
    assert [e][..0] == [];
  }

  /** What is left of the ordered map is the ordered listing of the purged layer: sorted, free
      of tombstones, and with exactly the bindings that a user sees. */
  lemma {:induction false} SurvivorsOfListing(layer: Layer)
    ensures Survivors(Listing(layer)) == Listing(Purge(layer))
    decreases |layer|
  {
    if layer != map[] {
      var k := LeastKey(layer.Keys);
      var rest := layer - {k};
      SurvivorsOfListing(rest);
      var e := Entry(k, layer[k].value, layer[k].kind);
      SurvivorsConcat([e], Listing(rest));
      SurvivorsOne(e);
      PurgeWithout(layer, k);
      if layer[k].kind.Put? {
        var purged := Purge(layer);
        assert IsLeast(k, purged.Keys);
        LeastKeyUnique(purged.Keys, k, LeastKey(purged.Keys));
      }
    }
  }

  lemma PurgeWithout(layer: Layer, k: Key)
    requires k in layer
    ensures layer[k].kind.Tombstone? ==> Purge(layer) == Purge(layer - {k})
    ensures layer[k].kind.Put? ==> k in Purge(layer) && Purge(layer)[k] == layer[k] && Purge(layer) - {k} == Purge(layer - {k})
  {
  }

  method MergeRecords(into: Layer, records: seq<Entry>) returns (merged: Layer)
    ensures merged == into + LayerOf(records)
  {
    merged := into;
    for i := 0 to |records|
      invariant merged == into + LayerOf(records[..i])
    {
      assert records[..i + 1][..i] == records[..i];
      merged := merged[records[i].key := CellOf(records[i])];
    }
    assert records[..|records|] == records;
  }

  /** Reads the inputs oldest first; later records overwrite earlier ones. */
  method MergeTables(fs: FileSystem, inputs: seq<Name>) returns (status: Status, merged: Layer)
    requires IntactIfPresent(fs.files, inputs)
    modifies fs`failures
    ensures status.OK? || status.IOError?
    ensures status.OK? ==> AllPresent(fs.files, inputs) && merged == Merge(TablesOf(fs.files, inputs))
    ensures status.OK? ==> fs.failures == old(fs.failures)
    ensures !status.OK? ==> fs.failures > old(fs.failures) || !AllPresent(fs.files, inputs)
  {
    hide LoadTable, Intact, LayerOf, IsTable, StopsAtDamage;
    merged := map[];
    status := OK;
    for i := 0 to |inputs|
      invariant AllPresent(fs.files, inputs[..i]) && fs.failures == old(fs.failures)
      invariant IntactIfPresent(fs.files, inputs[..i])
      invariant merged == Merge(TablesOf(fs.files, inputs[..i])) && status.OK?
    {
      var reader := new SSTableReader(fs);
      status := reader.Open(inputs[i], false);
      if !status.OK? {
        IntactLoads(fs.files, inputs, i);
        return;
      }
      var records;
      status, records := reader.ReadAllRecords();
      if !status.OK? {
        return;
      }
      assert TablesOf(fs.files, inputs[..i + 1])[..i] == TablesOf(fs.files, inputs[..i]);
      merged := MergeRecords(merged, records);
    }
    assert inputs[..|inputs|] == inputs;
  }

  lemma IntactLoads(disk: Disk, names: seq<Name>, i: nat)
    requires IntactIfPresent(disk, names) && i < |names|
    ensures names[i] in disk ==> LoadTable(disk[names[i]]).Loaded?
  {
    hide LoadTable, TableBytes;
    if names[i] in disk {
      IntactFileLoads(disk[names[i]]);
    }
  }

  lemma IntactFileLoads(file: Bytes)
    requires Intact(file)
    ensures LoadTable(file).Loaded?
  {
    hide LoadTable, TableBytes;
    var es := Contents(file);
    var p :| Fits(es, p) && file == TableBytes(es, p);
    DataSection(es, p);
  }

  method CollectSurvivors(merged: Layer) returns (surviving: seq<Entry>)
    ensures surviving == Listing(Purge(merged))
  {
    var listed := Listing(merged);
    surviving := [];
    for i := 0 to |listed|
      invariant surviving == Survivors(listed[..i])
    {
      assert listed[..i + 1][..i] == listed[..i];
      if !listed[i].kind.Tombstone? {
        surviving := surviving + [listed[i]];
      }
    }
    assert listed[..|listed|] == listed;
    SurvivorsOfListing(merged);
  }

  /** The output is sorted, passes the writer's check, holds no tombstone, and answers every
      look-up like the whole stack of its inputs searched newest first. */
  lemma CompactionMeaning(tables: seq<seq<Entry>>, key: Key)
    ensures var out := Listing(Purge(Merge(tables)));
            && Sorted(out) && AcceptedOrder(out) && (forall e :: e in out ==> e.kind.Put?)
            && !SearchTables([out], key).Deleted?
            && (SearchTables([out], key).Found? <==> SearchTables(tables, key).Found?)
            && (SearchTables([out], key).Found? ==> SearchTables([out], key) == SearchTables(tables, key))
  {
    hide Listing, Merge, SearchTables, LayerOf;
    var merged := Merge(tables);
    var out := Listing(Purge(merged));
    ListingSorted(Purge(merged));
    ListingLayer(Purge(merged));
    SearchIsMerge([out], key);
    MergeOne(out);
    SearchIsMerge(tables, key);
    forall e | e in out
      ensures e.kind.Put?
    {
      var i :| 0 <= i < |out| && out[i] == e;
      ListingKeys(Purge(merged), i);
    }
  }

  // ---------- replacing the files ----------

  const TEMP_SUFFIX: string := ".compact_tmp"

  /** The disk after the output has been renamed into place. */
  function Installed(disk: Disk, out: Name, table: Bytes): Disk
  {
    (disk - {out + TEMP_SUFFIX})[out := table]
  }

  /** The disk after inputs have been deleted; the output itself is spared. */
  function WithoutInputs(disk: Disk, inputs: seq<Name>, out: Name): Disk
  {
    disk - (set n | n in inputs && n != out)
  }

  /** The inputs that a deletion loop can have got rid of: in an orderly loop the oldest ones, and
      any of them when the system refuses to delete some. */
  predicate Picked(gone: seq<Name>, inputs: seq<Name>, orderly: bool)
  {
    (forall n :: n in gone ==> n in inputs) && (orderly ==> gone <= inputs)
  }

  /** The disk is what the deletion loop, cut anywhere, leaves of the disk after the rename. */
  ghost predicate Deleting(installed: Disk, d: Disk, inputs: seq<Name>, out: Name, orderly: bool)
  {
    exists gone :: Picked(gone, inputs, orderly) && d == WithoutInputs(installed, gone, out)
  }

  /** The disks that a crash during a compaction can leave: up to the rename nothing but the
      temporary file has changed, and after it the inputs disappear one by one. */
  ghost predicate CompactionCrash(disk: Disk, d: Disk, inputs: seq<Name>, out: Name, table: Bytes, orderly: bool)
  {
    OnlyTouches(disk, d, {out + TEMP_SUFFIX}) || Deleting(Installed(disk, out, table), d, inputs, out, orderly)
  }

  /** The output of a compaction, a function of what the inputs merge to. */
  function CompactedFile(merged: Layer, options: Options): Bytes
    requires options.sparseInterval > 0
  {
    var surviving := Listing(Purge(merged));
    TableBytes(surviving, ShapeFor(options, |surviving|))
  }

  /** Writes the temporary file and opens it once to verify it. */
  method WriteVerified(fs: FileSystem, temp: Name, surviving: seq<Entry>, options: Options) returns (status: Status)
    requires Sorted(surviving) && Fits(surviving, ShapeFor(options, |surviving|))
    requires forall e :: e in surviving ==> Encodable(e) && Canonical(e)
    requires options.sparseInterval > 0
    modifies fs
    ensures status.OK? || status.IOError? || status.Corruption?
    ensures Confined(old(fs.files), old(fs.crashes), fs.files, fs.crashes, temp)
    ensures status.OK? ==> temp in fs.files && fs.files[temp] == TableBytes(surviving, ShapeFor(options, |surviving|))
    ensures status.OK? <==> fs.failures == old(fs.failures)
    ensures fs.failures >= old(fs.failures) && fs.ignored >= old(fs.ignored)
  {
    hide Confined, LoadTable, TableBytes, Fits, ByteCount;
    StoredCanonical(surviving);
    var _ := fs.Remove(temp);
    ghost var disk1, crashes1 := fs.files, fs.crashes;
    status := WriteEntries(fs, temp, surviving, options);
    ghost var disk2, crashes2 := fs.files, fs.crashes;
    ConfinedChain(old(fs.files), old(fs.crashes), disk1, crashes1, disk2, crashes2, temp);
    if !status.OK? {
      var _ := fs.Remove(temp);
      ConfinedChain(old(fs.files), old(fs.crashes), disk2, crashes2, fs.files, fs.crashes, temp);
      return;
    }
    TableRoundTrip(surviving, ShapeFor(options, |surviving|));
    var verifier := new SSTableReader(fs);
    status := verifier.Open(temp, true);
    if !status.OK? {
      var _ := fs.Remove(temp);
      ConfinedChain(old(fs.files), old(fs.crashes), disk2, crashes2, fs.files, fs.crashes, temp);
      return Corruption;
    }
    verifier.Close();
  }

  lemma StoredCanonical(es: seq<Entry>)
    requires forall e :: e in es ==> Canonical(e)
    ensures Stored(es) == es
  {
    assert forall i :: 0 <= i < |es| ==> es[i] in es;
  }

  /** Deletes the inputs, oldest first, and takes no notice of refusals. */
  method RemoveInputs(fs: FileSystem, inputs: seq<Name>, out: Name) returns (ghost gone: seq<Name>)
    modifies fs`files, fs`crashes, fs`ignored
    ensures fs.ignored >= old(fs.ignored)
    ensures fs.files == WithoutInputs(old(fs.files), gone, out)
    ensures Picked(gone, inputs, fs.ignored == old(fs.ignored)) && (fs.ignored == old(fs.ignored) ==> gone == inputs)
    ensures forall d :: d in old(fs.crashes) ==> d in fs.crashes
    ensures forall d :: d in fs.crashes ==>
      d in old(fs.crashes) || Deleting(old(fs.files), d, inputs, out, fs.ignored == old(fs.ignored))
  {
    hide Deleting;
    gone := [];
    ghost var disk := fs.files;
    for i := 0 to |inputs|
      invariant fs.ignored >= old(fs.ignored)
      invariant fs.files == WithoutInputs(disk, gone, out)
      invariant Picked(gone, inputs, fs.ignored == old(fs.ignored)) && (fs.ignored == old(fs.ignored) ==> gone == inputs[..i])
      invariant forall d :: d in old(fs.crashes) ==> d in fs.crashes
      invariant forall d :: d in fs.crashes ==>
        d in old(fs.crashes) || Deleting(disk, d, inputs, out, fs.ignored == old(fs.ignored))
    {
      ghost var orderly := fs.ignored == old(fs.ignored);
      OneMoreRemoved(disk, gone, inputs[i], out);
      assert orderly ==> inputs[..i + 1] == gone + [inputs[i]];
      if inputs[i] != out {
        var ok := fs.Remove(inputs[i]);
        if ok {
          gone := gone + [inputs[i]];
        }
        StillDeleting(disk, inputs, out, orderly && ok);
        CutHere(disk, fs.files, gone, inputs, out, orderly && ok);
      } else {
        gone := gone + [inputs[i]];
      }
    }
    assert inputs[..|inputs|] == inputs;
  }

  lemma OneMoreRemoved(disk: Disk, gone: seq<Name>, next: Name, out: Name)
    ensures WithoutInputs(disk, gone + [next], out)
         == if next != out then WithoutInputs(disk, gone, out) - {next} else WithoutInputs(disk, gone, out)
  {
  }

  lemma StillDeleting(disk: Disk, inputs: seq<Name>, out: Name, orderly: bool)
    ensures !orderly ==> forall d :: Deleting(disk, d, inputs, out, true) ==> Deleting(disk, d, inputs, out, false)
  {
  }

  lemma CutHere(disk: Disk, d: Disk, gone: seq<Name>, inputs: seq<Name>, out: Name, orderly: bool)
    requires Picked(gone, inputs, orderly) && d == WithoutInputs(disk, gone, out)
    ensures Deleting(disk, d, inputs, out, orderly)
  {
  }

  lemma {:induction false} LayerOfWellFormed(es: seq<Entry>)
    requires forall e :: e in es ==> Encodable(e) && Canonical(e)
    ensures WellFormed(LayerOf(es))
  {
    if es != [] {
      var n := |es| - 1;
      assert es[n] in es;
      LayerOfWellFormed(es[..n]);
    }
  }

  /** Every binding can be written as a record, tombstones without a value. */
  ghost predicate WellFormed(layer: Layer)
  {
    forall k :: k in layer ==> Encodable(Entry(k, layer[k].value, layer[k].kind)) && Canonical(Entry(k, layer[k].value, layer[k].kind))
  }

  lemma {:induction false} MergeWellFormed(tables: seq<seq<Entry>>)
    requires forall i :: 0 <= i < |tables| ==> forall e :: e in tables[i] ==> Encodable(e) && Canonical(e)
    ensures WellFormed(Merge(tables))
  {
    if tables != [] {
      var n := |tables| - 1;
      MergeWellFormed(tables[..n]);
      LayerOfWellFormed(tables[n]);
    }
  }

  lemma TablesWellFormed(disk: Disk, names: seq<Name>)
    requires AllPresent(disk, names) && IntactIfPresent(disk, names)
    ensures WellFormed(Merge(TablesOf(disk, names)))
  {
    hide TableBytes, WellFormed, Merge;
    MergeWellFormed(TablesOf(disk, names));
  }

  /** The listing of a layer that is not too large can be written as a table. */
  lemma ListingWritable(layer: Layer, options: Options)
    requires WellFormed(layer) && Roomy(options, |layer|)
    ensures var es := Listing(layer);
            && Sorted(es) && (forall e :: e in es ==> Encodable(e) && Canonical(e))
            && Fits(es, ShapeFor(options, |es|))
  {
    hide Listing, Fits, Roomy;
    var es := Listing(layer);
    ListingSorted(layer);
    ListingLayer(layer);
    forall e | e in es
      ensures Encodable(e) && Canonical(e)
    {
      var i :| 0 <= i < |es| && es[i] == e;
      ListingKeys(layer, i);
    }
    RoomyFits(es, options);
  }

  lemma PurgedWritable(merged: Layer, options: Options)
    requires WellFormed(merged) && Roomy(options, |merged|)
    ensures var es := Listing(Purge(merged));
            && Sorted(es) && (forall e :: e in es ==> Encodable(e) && Canonical(e))
            && Fits(es, ShapeFor(options, |es|))
  {
    hide Listing, Fits, Roomy;
    var purged := Purge(merged);
    SubsetSize(purged.Keys, merged.Keys);
    assert |purged| == |purged.Keys| && |merged| == |merged.Keys|;
    RoomyFewer(options, |purged|, |merged|);
    ListingWritable(purged, options);
  }

  lemma {:induction false} SubsetSize<T>(a: set<T>, b: set<T>)
    requires a <= b
    ensures |a| <= |b|
  {
    if a != {} {
      var x :| x in a;
      SubsetSize(a - {x}, b - {x});
    }
  }

  /** Replaces the inputs by one table. Every failure comes before the first deletion, and has
      touched nothing but the temporary file. */
  method Compact(fs: FileSystem, inputs: seq<Name>, out: Name, options: Options, removeOld: bool)
    returns (status: Status, ghost gone: seq<Name>)
    requires options.sparseInterval > 0 && out + TEMP_SUFFIX !in inputs && IntactIfPresent(fs.files, inputs)
    requires AllPresent(fs.files, inputs) ==> Roomy(options, |Merge(TablesOf(fs.files, inputs))|)
    modifies fs
    ensures status.InvalidArgument? <==> inputs == []
    ensures inputs != [] ==> status.OK? || status.IOError? || status.Corruption?
    ensures fs.ignored >= old(fs.ignored)
    ensures !status.OK? && inputs != [] ==> fs.failures > old(fs.failures) || !AllPresent(old(fs.files), inputs)
    ensures !status.OK? ==> Confined(old(fs.files), old(fs.crashes), fs.files, fs.crashes, out + TEMP_SUFFIX)
    ensures status.OK? ==> AllPresent(old(fs.files), inputs) && fs.failures == old(fs.failures)
    ensures status.OK? ==> Picked(gone, inputs, fs.ignored == old(fs.ignored))
    ensures status.OK? && fs.ignored == old(fs.ignored) ==> gone == if removeOld then inputs else []
    ensures status.OK? ==>
      var installed := Installed(old(fs.files), out, CompactedFile(Merge(TablesOf(old(fs.files), inputs)), options));
      fs.files == WithoutInputs(installed, gone, out) && installed in fs.crashes
    ensures forall d :: d in old(fs.crashes) ==> d in fs.crashes
    ensures status.OK? ==>
      var table := CompactedFile(Merge(TablesOf(old(fs.files), inputs)), options);
      forall d :: d in fs.crashes ==>
        (d in old(fs.crashes) || CompactionCrash(old(fs.files), d, inputs, out, table, fs.ignored == old(fs.ignored)))
  {
    hide TableBytes, LoadTable, Intact, IsTable, Merge, Purge, Fits, Listing, ByteCount, TablesOf, Roomy, WellFormed,
      Deleting, Confined, CompactionCrash;
    gone := [];
    ghost var disk0, crashes0, ignored0 := fs.files, fs.crashes, fs.ignored;
    var temp := out + TEMP_SUFFIX;
    ConfinedNothing(disk0, crashes0, temp);
    if inputs == [] {
      return InvalidArgument, gone;
    }
    ConfinedGrows(disk0, crashes0, disk0, crashes0, temp);
    var merged;
    status, merged := MergeTables(fs, inputs);
    if !status.OK? {
      return;
    }
    TablesWellFormed(fs.files, inputs);
    PurgedWritable(merged, options);
    var surviving := CollectSurvivors(merged);
    status := WriteVerified(fs, temp, surviving, options);
    ConfinedGrows(disk0, crashes0, fs.files, fs.crashes, temp);
    if !status.OK? {
      return;
    }
    ghost var disk1, crashes1 := fs.files, fs.crashes;
    var ok := fs.Rename(temp, out);
    if !ok {
      var _ := fs.Remove(temp);
      RenameRefused(disk0, crashes0, disk1, crashes1, fs.files, fs.crashes, temp);
      ConfinedGrows(disk0, crashes0, fs.files, fs.crashes, temp);
      return IOError, gone;
    }
    ghost var table := CompactedFile(merged, options);
    InstalledByRename(disk0, crashes0, disk1, crashes1, out, table);
    ghost var installed, crashes2, ignored2 := fs.files, fs.crashes, fs.ignored;
    WithoutNothing(installed, inputs, out);
    if removeOld {
      gone := RemoveInputs(fs, inputs, out);
      PickedAnyway(gone, inputs, fs.ignored == ignored2, fs.ignored == ignored0);
    }
    CrashesOfCompaction(disk0, crashes0, crashes1, crashes2, fs.crashes, inputs, out, table, fs.ignored == ignored2,
                        fs.ignored == ignored0);
    status := OK;
  }

  lemma ConfinedGrows(disk0: Disk, crashes0: iset<Disk>, disk1: Disk, crashes1: iset<Disk>, name: Name)
    requires Confined(disk0, crashes0, disk1, crashes1, name)
    ensures OnlyTouches(disk0, disk1, {name}) && forall d :: d in crashes0 ==> d in crashes1
  {
  }

  lemma WithoutNothing(installed: Disk, inputs: seq<Name>, out: Name)
    ensures WithoutInputs(installed, [], out) == installed && Picked([], inputs, true)
  {
  }

  lemma PickedAnyway(gone: seq<Name>, inputs: seq<Name>, orderly: bool, claimed: bool)
    requires Picked(gone, inputs, orderly) && (claimed ==> orderly)
    ensures Picked(gone, inputs, claimed)
  {
  }

  /** Every crash of a compaction: before the rename, at it, or in the deletion loop. */
  lemma CrashesOfCompaction(disk0: Disk, crashes0: iset<Disk>, crashes1: iset<Disk>, crashes2: iset<Disk>, crashes3: iset<Disk>,
                            inputs: seq<Name>, out: Name, table: Bytes, orderly: bool, claimed: bool)
    requires forall d :: d in crashes1 ==> d in crashes0 || OnlyTouches(disk0, d, {out + TEMP_SUFFIX})
    requires crashes2 == crashes1 + iset{Installed(disk0, out, table)} && (claimed ==> orderly)
    requires forall d :: d in crashes3 ==> d in crashes2 || Deleting(Installed(disk0, out, table), d, inputs, out, orderly)
    ensures forall d :: d in crashes3 ==> d in crashes0 || CompactionCrash(disk0, d, inputs, out, table, claimed)
  {
    hide OnlyTouches, Installed, Deleting;
    var installed := Installed(disk0, out, table);
    WithoutNothing(installed, inputs, out);
    CutHere(installed, installed, [], inputs, out, claimed);
    StillDeleting(installed, inputs, out, claimed);
  }

  lemma RenameRefused(disk0: Disk, crashes0: iset<Disk>, disk1: Disk, crashes1: iset<Disk>,
                      disk2: Disk, crashes2: iset<Disk>, temp: Name)
    requires Confined(disk0, crashes0, disk1, crashes1, temp)
    requires disk2 in {disk1 - {temp}, disk1} && crashes2 == crashes1 + iset{disk1} + iset{disk2}
    ensures Confined(disk0, crashes0, disk2, crashes2, temp)
  {
  }

  lemma InstalledByRename(disk0: Disk, crashes0: iset<Disk>, disk1: Disk, crashes1: iset<Disk>, out: Name, table: Bytes)
    requires var temp := out + TEMP_SUFFIX;
             Confined(disk0, crashes0, disk1, crashes1, temp) && temp in disk1 && disk1[temp] == table
    ensures (disk1 - {out + TEMP_SUFFIX})[out := table] == Installed(disk0, out, table)
    ensures forall d :: d in crashes1 ==> d in crashes0 || OnlyTouches(disk0, d, {out + TEMP_SUFFIX})
  {
  }
}
