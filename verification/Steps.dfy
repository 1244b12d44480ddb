/** The state of a store together with its disk, and what each step of the engine does to it. */
module Steps {
  import opened Bytes
  import opened Entries
  import opened Records
  import opened Logs
  import opened TableFormat
  import opened Storage
  import opened MemTables
  import opened Wals
  import opened Config
  import opened Compactions
  import opened Names
  import opened Stacks
  import opened Recovery

  datatype State = State(
    disk: Disk,
    crashes: iset<Disk>,
    failures: nat,
    ignored: nat,
    /** The tables being read, oldest first, and the number of the next one. */
    names: seq<Name>,
    next: nat,
    /** The memtable. */
    unflushed: Layer,
    /** The log is open, and its stream has not failed. */
    logging: bool,
    good: bool,
    /** A table could not be opened again. */
    lost: bool,
    /** Compacted tables have been deleted, but the manifest still lists them. */
    exposed: bool,
    /** How many compactions have gone as far as deleting their inputs, and how many manifests
        have been written only in part. */
    compactions: nat,
    shorts: nat)

  /** The tables are there, are intact, and are numbered upwards and below the next number. */
  ghost predicate Standing(s: State)
  {
    && AllPresent(s.disk, s.names) && IntactIfPresent(s.disk, s.names) && Numbered(s.names, s.next)
    && (s.logging ==> WAL in s.disk) && WellFormed(s.unflushed)
  }

  ghost function TableList(s: State): seq<seq<Entry>>
    requires Standing(s)
  {
    TablesOf(s.disk, s.names)
  }

  ghost function TablesIn(s: State): Layer
    requires Standing(s)
  {
    Merge(TableList(s))
  }

  /** The map that the store answers from. */
  ghost function ViewOf(s: State): map<Key, Value>
    requires Standing(s)
  {
    Visible(TablesIn(s) + s.unflushed)
  }

  /** Every key that takes room in a table or the memtable. */
  ghost function HeldKeys(s: State): set<Key>
    requires Standing(s)
  {
    TablesIn(s).Keys + s.unflushed.Keys
  }

  /** Those and the keys in the log. */
  ghost function StoredKeys(s: State): set<Key>
    requires Standing(s)
  {
    HeldKeys(s) + LoggedLayer(s.disk).Keys
  }

  /** What is served, as a stack of tables with the memtable on top. */
  ghost function StackIn(s: State): seq<seq<Entry>>
    requires Standing(s)
  {
    TableList(s) + [Listing(s.unflushed)]
  }

  /** What is served afterwards is what was served before, less some tables of the stack. */
  ghost predicate ServesPart(s: State, t: State)
    requires Standing(s) && Standing(t)
  {
    exists kept :: |kept| == |StackIn(s)| && ViewOf(t) == Visible(Merge(Kept(StackIn(s), kept)))
  }

  /** Recovery from the disk would yield the map being served. */
  ghost predicate Safe(s: State)
  {
    Standing(s) && Agrees(s.disk, s.names, s.unflushed, s.logging) && !s.lost && !s.exposed
  }

  /** No torn tail is left behind the log that new records go to. */
  predicate CleanLog(s: State)
  {
    s.logging && s.good ==> LogOf(s.disk).outcome.Clean?
  }

  predicate Working(s: State)
  {
    s.logging && s.good
  }

  lemma SafeRecovers(s: State)
    requires Safe(s)
    ensures Recovers(s.disk) && Whole(s.disk) && RecoveredView(s.disk) == ViewOf(s)
  {
    hide Agrees, Merge, Visible, Numbered, WellFormed, AllPresent, IntactIfPresent, Whole, Recovers, RecoveredView,
      TablesOf;
    AgreesRecovers(s.disk, s.names, s.unflushed, s.logging);
  }

  /** How much of the deletions of compactions lies between two states. */
  function WindowOf(s: State, t: State): Window
  {
    if t.compactions == s.compactions then Shut else if t.ignored == s.ignored then Orderly else Ragged
  }

  /** A step that is meant to leave the visible map alone, whether it succeeds or not: the map
      and the keys stay. A failure is due to the file system. Tables are lost only when the file
      system fails twice, in a compaction and in opening its inputs again, or when it fails to
      open the output. The manifest lists deleted tables only when the output could not be
      listed. */
  ghost predicate KeepsServed(s: State, t: State, ok: bool)
  {
    && Standing(s) && Standing(t)
    && (ok || !t.lost ==> ViewOf(t) == ViewOf(s))
    && HeldKeys(t) <= HeldKeys(s) && StoredKeys(t) <= StoredKeys(s)
    && (s.lost ==> t.lost)
    && (t.lost && !s.lost ==> t.failures >= s.failures + 2 || (t.names == [] && t.exposed))
    && (t.exposed && !s.exposed ==> (|t.names| <= 1 || s.shorts < t.shorts) && s.compactions < t.compactions)
    && (CleanLog(s) ==> CleanLog(t))
    && s.failures <= t.failures && s.ignored <= t.ignored && s.compactions <= t.compactions && s.shorts <= t.shorts
    && (s.shorts < t.shorts ==> s.ignored < t.ignored)
    && (if ok then (t.lost ==> s.lost) && (t.exposed ==> s.exposed || s.shorts < t.shorts) && (Working(s) ==> Working(t))
        else s.failures < t.failures)
    && (forall d :: d in s.crashes ==> d in t.crashes)
  }

  /** Moreover a safe disk stays safe, and every crash on the way is safe: exactly so unless a
      compaction has started to delete its inputs. All that unless a manifest was written only in
      part without anyone taking notice. */
  ghost predicate KeepsView(s: State, t: State, ok: bool)
  {
    && KeepsServed(s, t, ok)
    && (t.shorts == s.shorts && Safe(s) ==>
          && (!t.lost && !t.exposed ==> Safe(t))
          && CrashesSafe(s.crashes, t.crashes, ViewOf(s), ViewOf(s), WindowOf(s, t)))
  }

  lemma KeepsNothing(s: State)
    requires Standing(s)
    ensures KeepsView(s, s, true)
  {
    hide Standing, ViewOf, HeldKeys, StoredKeys, CrashSafe, CleanLog, Safe;
  }

  lemma KeepsViewChain(s: State, t: State, u: State, ok: bool)
    requires KeepsView(s, t, true) && KeepsView(t, u, ok)
    ensures KeepsView(s, u, ok)
  {
    hide Standing, ViewOf, HeldKeys, StoredKeys, CrashSafe, CleanLog, Agrees, CrashesSafe;
    if u.shorts == s.shorts && Safe(s) {
      CrashesSafeChain(s.crashes, t.crashes, u.crashes, ViewOf(s), ViewOf(s), WindowOf(s, t), WindowOf(t, u), WindowOf(s, u));
    }
  }

  /** After a manifest that was written in part, only the served map is promised. */
  lemma KeepsViewAnyway(s: State, t: State, u: State, ok: bool)
    requires KeepsServed(s, t, true) && KeepsServed(t, u, ok) && s.shorts < t.shorts
    ensures KeepsView(s, u, ok)
  {
    hide Standing, ViewOf, HeldKeys, StoredKeys, CrashesSafe, CleanLog, Agrees;
  }

  // ---------- serving a part ----------

  lemma StackMerges(s: State)
    requires Standing(s)
    ensures |StackIn(s)| == |s.names| + 1 && Merge(StackIn(s)) == TablesIn(s) + s.unflushed
  {
    hide Merge, AllPresent, IntactIfPresent, Numbered, WellFormed, Listing;
    OneMoreLayer(TableList(s), s.unflushed);
  }

  lemma ServesAll(s: State, t: State)
    requires Standing(s) && Standing(t) && ViewOf(t) == ViewOf(s)
    ensures ServesPart(s, t)
  {
    hide Standing, Merge, StackIn, TablesIn, Visible, Kept;
    StackMerges(s);
    var kept := Everything(|StackIn(s)|);
    EverythingKept(|StackIn(s)|);
    KeptAll(StackIn(s), kept);
  }

  /** Fewer tables under the same memtable. */
  lemma ServesKept(s: State, t: State, kept: seq<bool>)
    requires Standing(s) && Standing(t) && |kept| == |s.names|
    requires TableList(t) == Kept(TableList(s), kept) && t.unflushed == s.unflushed
    ensures ServesPart(s, t) && TablesIn(t).Keys <= TablesIn(s).Keys
  {
    hide Merge, AllPresent, IntactIfPresent, Numbered, WellFormed, Visible, Kept, Listing;
    var tables, top := TableList(s), Listing(s.unflushed);
    KeptConcat(tables, [top], kept, [true]);
    KeptOne(top, true);
    OneMoreLayer(Kept(tables, kept), s.unflushed);
    KeptKeys(tables, kept);
    assert Kept(StackIn(s), kept + [true]) == TableList(t) + [top];
  }

  /** Which of the tables are read afterwards. */
  ghost predicate Subsequence(some: seq<Name>, names: seq<Name>)
  {
    exists kept :: |kept| == |names| && some == Kept(names, kept)
  }

  lemma {:induction false} KeptContents(disk: Disk, names: seq<Name>, kept: seq<bool>)
    requires AllPresent(disk, names) && IntactIfPresent(disk, names) && |kept| == |names|
    ensures AllPresent(disk, Kept(names, kept)) && IntactIfPresent(disk, Kept(names, kept))
    ensures TablesOf(disk, Kept(names, kept)) == Kept(TablesOf(disk, names), kept)
  {
    hide Intact, IsTable;
    if names != [] {
      var n := |names| - 1;
      KeptContents(disk, names[..n], kept[..n]);
      assert TablesOf(disk, names)[..n] == TablesOf(disk, names[..n]);
    }
  }

  // ---------- room ----------

  /** All keys of the state fit in one table. */
  ghost predicate Room(options: Options, s: State)
    requires Standing(s)
  {
    Roomy(options, |HeldKeys(s)|)
  }

  lemma FewerKeys(options: Options, a: set<Key>, b: set<Key>)
    requires Roomy(options, |b|) && a <= b
    ensures Roomy(options, |a|)
  {
    hide Roomy;
    SubsetSize(a, b);
    RoomyFewer(options, |a|, |b|);
  }

  lemma RoomForLayers(options: Options, s: State)
    requires Standing(s) && Room(options, s)
    ensures options.sparseInterval > 0
    ensures Roomy(options, |s.unflushed|) && Roomy(options, |TablesIn(s)|)
  {
    RoomyParts(options, |HeldKeys(s)|);
    hide Roomy, Merge, Standing;
    FewerKeys(options, s.unflushed.Keys, HeldKeys(s));
    FewerKeys(options, TablesIn(s).Keys, HeldKeys(s));
    assert |s.unflushed| == |s.unflushed.Keys| && |TablesIn(s)| == |TablesIn(s).Keys|;
  }

  // ---------- flushing ----------

  predicate SameLog(s: State, t: State)
  {
    t.logging == s.logging && t.good == s.good
  }

  predicate SameMarks(s: State, t: State)
  {
    t.lost == s.lost && t.exposed == s.exposed && t.compactions == s.compactions && t.shorts == s.shorts
  }

  lemma StandingParts(s: State)
    requires Standing(s)
    ensures Numbered(s.names, s.next) && (s.logging ==> WAL in s.disk) && WellFormed(s.unflushed)
    ensures MANIFEST !in s.names && MANIFEST_TEMP !in s.names && WAL !in s.names
  {
    NumberedApart(s.names, s.next, s.next);
  }

  /** What a state offers to a new table. */
  lemma ReadyToWrite(options: Options, s: State)
    requires Standing(s) && Room(options, s)
    ensures FileName(s.next) !in s.names && Roomy(options, |s.unflushed|) && WellFormed(s.unflushed)
  {
    hide FileName, Roomy, Numbered;
    NewName(s.names, s.next);
    RoomForLayers(options, s);
  }

  lemma NewName(names: seq<Name>, next: nat)
    requires Numbered(names, next)
    ensures var name := FileName(next);
            && name !in names && name != MANIFEST && name != WAL
            && Numbered(names, next + 1) && Numbered(names + [name], next + 1) && Numbered([name], next + 1)
  {
    hide FileName, ParseNumber;
    NumberedNext(names, next);
    assert FileName(next) + "" == FileName(next);
    TableNamesApart(next, "");
  }

  /** The file is an intact table that stands for the layer. */
  ghost predicate HoldsLayer(disk: Disk, name: Name, layer: Layer)
  {
    name in disk && Intact(disk[name]) && LayerOf(Contents(disk[name])) == layer
  }

  /** What the attempt to write the memtable to a new table does. */
  ghost predicate TableStep(s: State, t: State, ok: bool)
  {
    var name := FileName(s.next);
    && Confined(s.disk, s.crashes, t.disk, t.crashes, name)
    && t.next == s.next + 1 && t.unflushed == s.unflushed && SameLog(s, t) && SameMarks(s, t) && t.ignored == s.ignored
    && t.names == (if ok then s.names + [name] else s.names)
    && (if ok then
          && t.failures == s.failures
          && HoldsLayer(t.disk, name, s.unflushed)
        else t.failures > s.failures)
  }

  lemma TableStanding(s: State, t: State, ok: bool)
    requires Standing(s) && TableStep(s, t, ok)
    ensures Standing(t) && LogOf(t.disk) == LogOf(s.disk)
    ensures if ok then FlushedFrom(s, t) else TableList(t) == TableList(s)
  {
    hide Confined, OnlyTouches, Merge, Log, LogLayer, Intact, LayerOf, TablesOf, Visible, FileName, AllPresent,
      IntactIfPresent, Numbered;
    var name := FileName(s.next);
    NewName(s.names, s.next);
    ConfinedMeans(s.disk, s.crashes, t.disk, t.crashes, name);
    SamePlace(s.disk, t.disk, s.names, {name});
    if ok {
      TableAdded(t.disk, s.names, name);
    }
  }

  /** A table of the memtable below the memtable changes nothing. */
  lemma TableUnseen(s: State, t: State, ok: bool)
    requires Standing(s) && Standing(t) && t.unflushed == s.unflushed && LogOf(t.disk) == LogOf(s.disk)
    requires if ok then FlushedFrom(s, t) else TableList(t) == TableList(s)
    ensures ViewOf(t) == ViewOf(s) && HeldKeys(t) == HeldKeys(s) && StoredKeys(t) == StoredKeys(s)
  {
    hide Merge, LogOf, LogLayer, Visible, TableList, Standing, FlushedFrom;
    if ok {
      FlushedOnTop(s, t);
      FlushedTwice(TablesIn(s), s.unflushed);
    }
  }

  lemma TableSafe(s: State, t: State, ok: bool)
    requires Safe(s) && TableStep(s, t, ok) && s.unflushed != map[]
    ensures Agrees(t.disk, t.names, t.unflushed, t.logging)
    ensures CrashesSafe(s.crashes, t.crashes, ViewOf(s), ViewOf(s), Shut)
  {
    hide Confined, OnlyTouches, Merge, Log, LogLayer, Agrees, Intact, LayerOf, TablesOf, Visible, FileName,
      CrashSafe, AllPresent, IntactIfPresent, Numbered;
    var name := FileName(s.next);
    NewName(s.names, s.next);
    ConfinedIsSafe(s.disk, s.crashes, t.disk, t.crashes, name, s.names, s.unflushed, s.logging);
    if ok {
      LoggingIfUnflushed(s);
      assert Ordered(s.names + [name]);
      AgreesWithNewTable(t.disk, s.names, s.unflushed, name);
    }
  }

  /** The tables are those of the state s and one more, made of the memtable of s. */
  ghost predicate FlushedFrom(s: State, t: State)
  {
    && Standing(s) && Standing(t)
    && exists newest :: TableList(t) == TableList(s) + [newest] && LayerOf(newest) == s.unflushed
  }

  lemma FlushedOnTop(s: State, t: State)
    requires FlushedFrom(s, t)
    ensures Standing(s) && TablesIn(t) == TablesIn(s) + s.unflushed
  {
    hide Merge, Standing, LayerOf, TableList;
    var newest :| TableList(t) == TableList(s) + [newest] && LayerOf(newest) == s.unflushed;
    MergeConcat(TableList(s), [newest]);
    MergeOne(newest);
  }

  lemma FlushedStill(s: State, t: State, u: State)
    requires FlushedFrom(s, t) && Standing(u) && TableList(u) == TableList(t)
    ensures FlushedFrom(s, u)
  {
    hide Standing, LayerOf, TableList;
  }

  /** Less of the tables after a flush is less of what was served before it. */
  lemma ServesPartOfFlushed(s: State, t: State, u: State)
    requires FlushedFrom(s, t) && t.unflushed == map[] && Standing(u) && ServesPart(t, u)
    ensures ServesPart(s, u)
  {
    hide Merge, Standing, LayerOf, TableList, Visible, Kept, Listing, ViewOf;
    var newest :| TableList(t) == TableList(s) + [newest] && LayerOf(newest) == s.unflushed;
    var kept :| |kept| == |StackIn(t)| && ViewOf(u) == Visible(Merge(Kept(StackIn(t), kept)));
    var n := |TableList(s)|;
    var below, mine, last := kept[..n], kept[n], kept[n + 1];
    assert kept == below + [mine] + [last];
    ListingLayer(s.unflushed);
    ListingLayer(map[]);
    LessOfFlushed(TableList(s), newest, Listing(map[]), Listing(s.unflushed), below, mine, last);
    assert |below + [mine]| == |StackIn(s)|;
  }

  lemma LessOfFlushed(tables: seq<seq<Entry>>, newest: seq<Entry>, empty: seq<Entry>, again: seq<Entry>,
                      below: seq<bool>, mine: bool, last: bool)
    requires LayerOf(newest) == LayerOf(again) && LayerOf(empty) == map[] && |below| == |tables|
    ensures Merge(Kept(tables + [newest] + [empty], below + [mine] + [last])) == Merge(Kept(tables + [again], below + [mine]))
  {
    hide Merge, LayerOf, Kept;
    MergeSnoc(tables + [newest], empty, below + [mine], last);
    MergeSnoc(tables, newest, below, mine);
    MergeSnoc(tables, again, below, mine);
    var lower := Merge(Kept(tables + [newest], below + [mine]));
    assert lower + map[] == lower;
  }

  /** The attempt to write the memtable to a new table and to read that table from now on. */
  lemma TableWritten(s: State, t: State, ok: bool)
    requires Standing(s) && s.unflushed != map[] && TableStep(s, t, ok)
    ensures KeepsView(s, t, ok) && Standing(t) && (t.logging ==> WAL in t.disk)
    ensures ViewOf(t) == ViewOf(s)
    ensures ok ==> FlushedFrom(s, t)
  {
    hide OnlyTouches, Log, Agrees, Intact, LayerOf, FileName, Standing, ViewOf, HeldKeys, StoredKeys, TablesIn, FlushedFrom;
    TableStanding(s, t, ok);
    TableUnseen(s, t, ok);
    StandingParts(t);
    if Safe(s) {
      TableSafe(s, t, ok);
    }
  }

  lemma LoggingIfUnflushed(s: State)
    requires Safe(s) && s.unflushed != map[]
    ensures s.logging
  {
  }

  lemma ConfinedMeans(disk0: Disk, crashes0: iset<Disk>, disk1: Disk, crashes1: iset<Disk>, name: Name)
    requires Confined(disk0, crashes0, disk1, crashes1, name)
    ensures OnlyTouches(disk0, disk1, {name})
    ensures WAL in disk0 && name != WAL ==> WAL in disk1
    ensures forall d :: d in crashes0 ==> d in crashes1
    ensures forall d :: d in crashes1 ==> d in crashes0 || OnlyTouches(disk0, d, {name})
  {
  }

  /** What replacing the manifest may do to the disk: on success the new manifest is the list of
      the tables being read, or the first bytes of it if the system refused the others. */
  ghost predicate ManifestStep(s: State, t: State, ok: bool)
  {
    && (if ok then ManifestCut(s.names, t.disk, t.shorts == s.shorts) && OnlyTouches(s.disk, t.disk, {MANIFEST, MANIFEST_TEMP})
                   && MANIFEST_TEMP !in t.disk && t.failures == s.failures
        else OnlyTouches(s.disk, t.disk, {MANIFEST_TEMP}) && t.failures > s.failures)
    && s.ignored <= t.ignored
    && t.shorts in {s.shorts, s.shorts + 1} && (s.shorts < t.shorts ==> ok && s.ignored < t.ignored)
    && (forall d :: d in s.crashes ==> d in t.crashes)
    && (forall d :: d in t.crashes ==> d in s.crashes || OnlyTouches(s.disk, d, {MANIFEST_TEMP}) || (ok && d == t.disk))
  }

  /** The manifest holds the first bytes of the list of names, and all of them if it is complete. */
  ghost predicate ManifestCut(names: seq<Name>, disk: Disk, complete: bool)
  {
    && MANIFEST in disk
    && (exists k :: CutAt(ManifestText(names), disk[MANIFEST], k) && (complete <==> k == |ManifestText(names)|))
    && (complete ==> Listed(disk) == names)
  }

  predicate CutAt(text: Bytes, part: Bytes, k: nat)
  {
    k <= |text| && part == text[..k]
  }

  /** The tables being read are listed if and only if at most the last newline was refused. */
  lemma ListedIffCut(s: State, t: State)
    requires ManifestStep(s, t, true) && Numbered(s.names, s.next)
    ensures t.shorts == s.shorts ==> Listed(t.disk) == s.names
    ensures MANIFEST in t.disk && (Listed(t.disk) == s.names <==> |t.disk[MANIFEST]| + 1 >= |ManifestText(s.names)|)
  {
    hide Numbered, Lines, ManifestText, PlainName, Confined, OnlyTouches;
    NumberedPlain(s.names, s.next);
    var k :| CutAt(ManifestText(s.names), t.disk[MANIFEST], k) && (t.shorts == s.shorts <==> k == |ManifestText(s.names)|);
    ManifestCutIff(s.names, k);
  }

  lemma ManifestNotCreated(s: State, t: State)
    requires Confined(s.disk, s.crashes, t.disk, t.crashes, MANIFEST_TEMP) && t.failures > s.failures && t.ignored == s.ignored
    requires t.shorts == s.shorts
    ensures ManifestStep(s, t, false)
  {
  }

  lemma ManifestRefused(s: State, t: State, d1: Disk, c1: iset<Disk>)
    requires Confined(s.disk, s.crashes, d1, c1, MANIFEST_TEMP) && t.failures > s.failures && t.shorts == s.shorts
    requires t.disk in {d1 - {MANIFEST_TEMP}, d1} && t.crashes == c1 + iset{d1} + iset{t.disk} && s.ignored <= t.ignored
    ensures ManifestStep(s, t, false)
  {
  }

  lemma ManifestRenamed(s: State, t: State, d1: Disk, c1: iset<Disk>, k: nat)
    requires Confined(s.disk, s.crashes, d1, c1, MANIFEST_TEMP) && t.failures == s.failures && t.ignored >= s.ignored
    requires Numbered(s.names, s.next) && MANIFEST_TEMP in d1 && CutAt(ManifestText(s.names), d1[MANIFEST_TEMP], k)
    requires t.ignored == s.ignored <==> k == |ManifestText(s.names)|
    requires t.shorts == if t.ignored == s.ignored then s.shorts else s.shorts + 1
    requires t.disk == (d1 - {MANIFEST_TEMP})[MANIFEST := d1[MANIFEST_TEMP]] && t.crashes == c1 + iset{t.disk}
    ensures ManifestStep(s, t, true)
  {
    hide Numbered, Lines, ManifestText;
    NumberedRoundTrip(s.names, s.next);
    var text := ManifestText(s.names);
    assert text[..|text|] == text;
    assert CutAt(text, t.disk[MANIFEST], k) && (t.shorts == s.shorts <==> k == |text|);
  }

  lemma ManifestStepOnDisk(s: State, m: State, t: State, ok: bool)
    requires ManifestStep(s, m, ok) && t.disk == m.disk && t.crashes == m.crashes && t.failures == m.failures
    requires t.ignored == m.ignored && t.shorts == m.shorts
    ensures ManifestStep(s, t, ok)
  {
    hide ManifestCut;
  }

  /** Nothing in memory has changed, except for the exposed mark and the count of short
      manifests. */
  predicate Otherwise(s: State, t: State)
  {
    && t.names == s.names && t.next == s.next && t.unflushed == s.unflushed
    && SameLog(s, t) && t.lost == s.lost && t.compactions == s.compactions
  }

  /** The attempt to list the tables being read. */
  lemma ManifestReplaced(s: State, t: State, ok: bool)
    requires Standing(s) && ManifestStep(s, t, ok)
    requires Otherwise(s, t) && t.exposed == (!(ok && t.shorts == s.shorts) && s.exposed)
    ensures KeepsView(s, t, ok) && Standing(t)
    ensures TableList(t) == TableList(s) && ViewOf(t) == ViewOf(s) && LoggedLayer(t.disk) == LoggedLayer(s.disk)
  {
    hide OnlyTouches, Merge, Log, LogLayer, Agrees, TablesOf, Visible, CrashSafe, AllPresent, IntactIfPresent,
      Numbered, Listed;
    NumberedApart(s.names, s.next, s.next);
    var touched := if ok then {MANIFEST, MANIFEST_TEMP} else {MANIFEST_TEMP};
    SamePlace(s.disk, t.disk, s.names, touched);
    LogStays(s.disk, t.disk, touched);
    if Safe(s) && t.shorts == s.shorts {
      if ok {
        AgreesParts(s.disk, s.names, s.unflushed, s.logging);
        AgreesWithManifest(s.disk, t.disk, s.names, s.unflushed, s.logging);
        ManifestIsSafe(s.disk, s.crashes, t.disk, t.crashes, s.names, s.unflushed, s.logging);
      } else {
        RefusedIsSafe(s, t);
      }
    }
  }

  lemma LogStays(d0: Disk, d1: Disk, touched: set<Name>)
    requires OnlyTouches(d0, d1, touched) && WAL !in touched
    ensures WAL in d0 <==> WAL in d1
  {
  }

  lemma AgreesParts(disk: Disk, names: seq<Name>, unflushed: Layer, logging: bool)
    requires Agrees(disk, names, unflushed, logging)
    ensures AllPresent(disk, names) && IntactIfPresent(disk, names) && !LogOf(disk).outcome.Corrupt?
    ensures if logging then LoggedLayer(disk) == unflushed else unflushed == map[]
    ensures Visible(Merge(TablesOf(disk, names)) + LoggedLayer(disk)) == Visible(Merge(TablesOf(disk, names)) + unflushed)
  {
  }

  lemma RefusedIsSafe(s: State, t: State)
    requires Safe(s) && ManifestStep(s, t, false)
    ensures Agrees(t.disk, s.names, s.unflushed, s.logging)
    ensures CrashesSafe(s.crashes, t.crashes, ViewOf(s), ViewOf(s), Shut)
  {
    hide OnlyTouches, Merge, Log, LogLayer, Agrees, TablesOf, Visible, Exact, AllPresent, IntactIfPresent,
      Numbered, Listed;
    NumberedApart(s.names, s.next, s.next);
    forall d | d in t.crashes && d !in s.crashes
      ensures Exact(d, ViewOf(s), ViewOf(s))
    {
      AgreesUnseen(s.disk, d, s.names, s.unflushed, s.logging, {MANIFEST_TEMP});
      AgreesIsSafe(d, s.names, s.unflushed, s.logging);
    }
    AgreesUnseen(s.disk, t.disk, s.names, s.unflushed, s.logging, {MANIFEST_TEMP});
  }

  /** What dropping the memtable and truncating the log does. */
  ghost predicate ClearStep(s: State, t: State, ok: bool)
  {
    && t.disk == (if ok then s.disk[WAL := []] else s.disk)
    && t.crashes == s.crashes + iset{t.disk}
    && t.failures == (if ok then s.failures else s.failures + 1)
    && t.unflushed == map[] && t.logging == ok && (ok ==> t.good)
    && t.names == s.names && t.next == s.next && SameMarks(s, t) && t.ignored == s.ignored
  }

  /** The memtable is dropped and the log truncated, once a table has been made of it: the map is
      kept, and the disk is safe, if that table has been listed. */
  lemma LogCleared(s0: State, s: State, t: State, ok: bool)
    requires Standing(s) && FlushedFrom(s0, s) && s.unflushed == s0.unflushed != map[] && ClearStep(s, t, ok)
    ensures KeepsServed(s, t, ok) && Standing(t) && FlushedFrom(s0, t) && ViewOf(t) == ViewOf(s)
    ensures ok ==> Working(t) && CleanLog(t)
    ensures Listed(s.disk) == s.names && !s.exposed ==> KeepsView(s, t, ok) && (ok && !t.lost ==> Safe(t))
  {
    hide OnlyTouches, Merge, LogLayer, Agrees, TablesOf, Visible, Exact, CrashesSafe, AllPresent, IntactIfPresent, Numbered,
      Listed, FlushedFrom, LayerOf;
    ClearedStanding(s0, s, t, ok);
    if Listed(s.disk) == s.names && !s.exposed {
      ClearedSafe(s0, s, t, ok);
    }
  }

  lemma ClearedStanding(s0: State, s: State, t: State, ok: bool)
    requires Standing(s) && FlushedFrom(s0, s) && s.unflushed == s0.unflushed && ClearStep(s, t, ok)
    ensures Standing(t) && TableList(t) == TableList(s) && ViewOf(t) == ViewOf(s) && FlushedFrom(s0, t)
    ensures HeldKeys(t) <= HeldKeys(s) && StoredKeys(t) <= StoredKeys(s)
    ensures ok ==> LogOf(t.disk).outcome.Clean?
    ensures WAL !in s.names
  {
    hide Merge, LogLayer, TablesOf, Visible, AllPresent, IntactIfPresent, Numbered, Listed, FlushedFrom, LayerOf;
    NumberedApart(s.names, s.next, s.next);
    FlushedOnTop(s0, s);
    FlushedTwice(TablesIn(s0), s.unflushed);
    assert TablesIn(s) + map[] == TablesIn(s);
    if ok {
      SameContents(s.disk, t.disk, s.names, {WAL});
      EmptyLog();
      NothingLogged(t.disk);
    }
    FlushedStill(s0, s, t);
  }

  lemma ClearedSafe(s0: State, s: State, t: State, ok: bool)
    requires Standing(s) && FlushedFrom(s0, s) && s.unflushed == s0.unflushed != map[] && ClearStep(s, t, ok)
    requires Standing(t) && TableList(t) == TableList(s) && ViewOf(t) == ViewOf(s) && WAL !in s.names
    requires Listed(s.disk) == s.names && !s.exposed
    ensures ok && !t.lost ==> Safe(t)
    ensures Safe(s) ==> Safe(t) && CrashesSafe(s.crashes, t.crashes, ViewOf(s), ViewOf(s), Shut)
  {
    hide OnlyTouches, Merge, LogLayer, Agrees, TablesOf, Visible, Exact, AllPresent, IntactIfPresent, Numbered,
      Listed, FlushedFrom, LayerOf;
    FlushedOnTop(s0, s);
    if ok {
      AgreesEmpty(s.disk, t.disk, s.names);
    } else if Safe(s) {
      LoggingIfUnflushed(s);
      AgreesAfterFlush(s.disk, s.names, TablesIn(s0), s.unflushed);
    }
    if Safe(s) {
      AgreesIsSafe(t.disk, t.names, t.unflushed, t.logging);
    }
  }

  lemma NothingLogged(disk: Disk)
    requires WAL in disk && disk[WAL] == []
    ensures LoggedLayer(disk) == map[]
  {
  }

  // ---------- a manifest that was written in part loses a flush ----------

  /** A store with one record, in the log and in a table that is not listed yet. */
  ghost function UnlistedState(table: Bytes, e: Entry): State
  {
    State(map[FileName(1) := table, WAL := Encode(e)], iset{}, 0, 0, [FileName(1)], 2, map[e.key := CellOf(e)],
          true, true, false, false, 0, 0)
  }

  /** The same after a new manifest of which the system refused every byte. */
  ghost function UnlistedShort(s: State): State
  {
    s.(disk := s.disk[MANIFEST := []], crashes := s.crashes + iset{s.disk[MANIFEST := []]}, ignored := s.ignored + 1,
       shorts := s.shorts + 1)
  }

  /** And after the log has been truncated. */
  ghost function UnlistedCleared(t: State): State
  {
    t.(disk := t.disk[WAL := []], crashes := t.crashes + iset{t.disk[WAL := []]}, unflushed := map[])
  }

  lemma UnlistedSafe(table: Bytes, e: Entry)
    requires Intact(table) && Contents(table) == [e] && Encodable(e) && Loggable(e)
    ensures var s := UnlistedState(table, e);
            Standing(s) && Safe(s) && TableList(s) == [[e]]
  {
    hide FileName, Intact, IsTable, Log, Encode, ParseNumber, LayerOf, Merge;
    var s := UnlistedState(table, e);
    NumberRoundTrip(1);
    assert IsTableName(s.names[0], 2);
    NumberedApart(s.names, 2, 2);
    hide Numbered;
    LogOfAll([e]);
    EncodeAllOne(e);
    assert Listed(s.disk) == [] && LogOf(s.disk) == Replay([e], Clean);
    LogLayerSnoc([], e);
    assert [] + [e] == [e];
    assert LoggedLayer(s.disk) == s.unflushed;
    assert TableList(s) == [[e]];
    MergeOne([e]);
    LayerOfOne(e);
    MergeNothing();
    assert DiskTables(s.disk) == [];
  }

  /** A flush that goes through although the new manifest is empty: the record is served, and a
      crash loses it. */
  lemma ShortManifestLoses(options: Options)
    requires Roomy(options, 2)
    ensures exists s, t, u, key ::
      && Standing(s) && Safe(s) && ManifestStep(s, t, true) && Otherwise(s, t) && ClearStep(t, u, true)
      && Standing(u) && key in ViewOf(u) && Recovers(u.disk) && key !in RecoveredView(u.disk)
  {
    hide FileName, Intact, IsTable, Log, Encode, Roomy, Contents, Safe, Merge;
    var e := Entry([1], [], Put);
    var table := WindowTables(options, e);
    UnlistedSafe(table, e);
    var s := UnlistedState(table, e);
    var t := UnlistedShort(s);
    var u := UnlistedCleared(t);
    TableNamesApart(1, "");
    assert FileName(1) + "" == FileName(1);
    UnlistedSteps(s, t, u);
    UnlistedLost(s, t, u);
    MergeOne([e]);
    LayerOfOne(e);
    assert TableList(u) == [[e]];
    assert e.key in ViewOf(u);
  }

  lemma UnlistedSteps(s: State, t: State, u: State)
    requires Standing(s) && t == UnlistedShort(s) && u == UnlistedCleared(t) && s.names != [] && Working(s)
    requires MANIFEST_TEMP !in s.disk
    ensures ManifestStep(s, t, true) && Otherwise(s, t) && ClearStep(t, u, true)
  {
    hide Standing, Text, Lines;
    var text := ManifestText(s.names);
    assert CutAt(text, t.disk[MANIFEST], 0);
    assert |text| > 0;
  }

  lemma UnlistedLost(s: State, t: State, u: State)
    requires Standing(s) && t == UnlistedShort(s) && u == UnlistedCleared(t)
    ensures Standing(u) && TableList(u) == TableList(s) && Recovers(u.disk) && RecoveredView(u.disk) == map[]
  {
    hide Intact, IsTable;
    NumberedApart(s.names, s.next, s.next);
    NoneListed();
    hide Numbered;
    SameContents(s.disk, u.disk, s.names, {MANIFEST, WAL});
    assert Listed(u.disk) == [] && LogOf(u.disk) == Replay([], Clean);
    assert DiskTables(u.disk) == [];
  }

  lemma NoneListed()
    ensures Ordered([])
  {
    assert Numbered([], 0);
  }

  // ---------- compacting ----------

  /** A compaction that failed has touched nothing but its temporary file; names are the tables
      that could be opened again. */
  lemma CompactionFailed(s: State, t: State)
    requires Standing(s)
    requires Confined(s.disk, s.crashes, t.disk, t.crashes, FileName(s.next) + TEMP_SUFFIX)
    requires t.next == s.next + 1 && t.unflushed == s.unflushed && SameLog(s, t) && t.exposed == s.exposed
    requires t.failures > s.failures && t.ignored >= s.ignored && t.compactions == s.compactions && t.shorts == s.shorts
    requires (s.lost ==> t.lost) && (!t.lost ==> t.names == s.names)
    requires t.lost && !s.lost ==> t.failures >= s.failures + 2
    requires Numbered(t.names, s.next) && Subsequence(t.names, s.names)
    ensures KeepsView(s, t, false) && Standing(t) && ServesPart(s, t)
  {
    hide Confined, OnlyTouches, Merge, Log, LogLayer, Agrees, Intact, TablesOf, Visible, FileName, CrashSafe, Kept,
      ServesPart, StackIn;
    var temp := FileName(s.next) + TEMP_SUFFIX;
    NumberedApart(s.names, s.next, s.next);
    TableNamesApart(s.next, TEMP_SUFFIX);
    NewName(t.names, s.next);
    ConfinedMeans(s.disk, s.crashes, t.disk, t.crashes, temp);
    SamePlace(s.disk, t.disk, s.names, {temp});
    var kept :| |kept| == |s.names| && t.names == Kept(s.names, kept);
    KeptContents(t.disk, s.names, kept);
    ServesKept(s, t, kept);
    if Safe(s) {
      ConfinedIsSafe(s.disk, s.crashes, t.disk, t.crashes, temp, s.names, s.unflushed, s.logging);
    }
  }

  /** The inputs of a failed compaction are still there. */
  lemma InputsThere(s: State, d: Disk, crashes: iset<Disk>)
    requires Standing(s) && Confined(s.disk, s.crashes, d, crashes, FileName(s.next) + TEMP_SUFFIX)
    ensures AllPresent(d, s.names) && IntactIfPresent(d, s.names) && Numbered(s.names, s.next)
  {
    hide FileName, Numbered, Confined, OnlyTouches, Intact, LogOf;
    var temp := FileName(s.next) + TEMP_SUFFIX;
    NumberedApart(s.names, s.next, s.next);
    TableNamesApart(s.next, TEMP_SUFFIX);
    ConfinedMeans(s.disk, s.crashes, d, crashes, temp);
    SamePlace(s.disk, d, s.names, {temp});
  }

  /** The file that a compaction of the state's tables produces. */
  ghost function OutputFile(s: State, options: Options): Bytes
    requires Standing(s) && options.sparseInterval > 0
  {
    CompactedFile(TablesIn(s), options)
  }

  /** The disk after the rename of a compaction. */
  ghost function InstalledIn(s: State, options: Options): Disk
    requires Standing(s) && options.sparseInterval > 0
  {
    Installed(s.disk, FileName(s.next), OutputFile(s, options))
  }

  /** The disk after a successful compaction, and the crashes on the way. */
  ghost predicate CompactionStep(s: State, d: Disk, crashes: iset<Disk>, orderly: bool, options: Options)
  {
    && Standing(s) && Room(options, s) && options.sparseInterval > 0
    && Deleting(InstalledIn(s, options), d, s.names, FileName(s.next), orderly)
    && InstalledIn(s, options) in crashes
    && (forall c :: c in s.crashes ==> c in crashes)
    && (forall c :: c in crashes ==>
          c in s.crashes || CompactionCrash(s.disk, c, s.names, FileName(s.next), OutputFile(s, options), orderly))
  }

  /** The disks and crashes that a successful compaction can end with. */
  ghost function CompactionOutcomes(s: State, orderly: bool, options: Options): iset<(Disk, iset<Disk>)>
  {
    iset o: (Disk, iset<Disk>) | CompactionStep(s, o.0, o.1, orderly, options)
  }

  function Opening(orderly: bool): Window
  {
    if orderly then Orderly else Ragged
  }

  lemma CompactionCutSafe(s: State, d: Disk, crashes: iset<Disk>, orderly: bool, options: Options)
    requires Safe(s) && Room(options, s) && options.sparseInterval > 0 && InstalledIn(s, options) in crashes
    requires CompactionCrash(s.disk, d, s.names, FileName(s.next), OutputFile(s, options), orderly)
    ensures CrashSafe(d, ViewOf(s), ViewOf(s), crashes, Opening(orderly))
  {
    hide Merge, Log, LogLayer, Agrees, TablesOf, Visible, FileName, CompactionCrash, CompactedFile,
      AllPresent, IntactIfPresent, Numbered, Exact, Thinned;
    CompactionCrashSafe(s.disk, d, s.names, s.next, s.unflushed, s.logging, OutputFile(s, options), orderly);
  }

  lemma CompactionStepSafe(s: State, d: Disk, crashes: iset<Disk>, orderly: bool, options: Options)
    requires Safe(s) && CompactionStep(s, d, crashes, orderly, options)
    ensures CrashesSafe(s.crashes, crashes, ViewOf(s), ViewOf(s), Opening(orderly))
    ensures CrashSafe(d, ViewOf(s), ViewOf(s), crashes, Opening(orderly))
  {
    hide Standing, ViewOf, Log, Agrees, FileName, CrashSafe, Deleting, OutputFile, Installed, OnlyTouches;
    forall c | c in crashes && c !in s.crashes
      ensures CrashSafe(c, ViewOf(s), ViewOf(s), crashes, Opening(orderly))
    {
      CompactionCutSafe(s, c, crashes, orderly, options);
    }
    CompactionCutSafe(s, d, crashes, orderly, options);
  }

  /** In memory only the tables, their next number and the exposed mark have changed. */
  predicate AfterOutput(s: State, d: Disk, crashes: iset<Disk>, t: State)
  {
    && t.disk == d && t.crashes == crashes && t.next == s.next + 1 && t.unflushed == s.unflushed
    && SameLog(s, t) && t.exposed && t.ignored >= s.ignored && t.compactions == s.compactions + 1 && t.shorts == s.shorts
  }

  predicate OrderlySince(s: State, t: State)
  {
    t.ignored == s.ignored
  }

  /** After a successful compaction: the state that reads only the output. */
  lemma OutputRead(s: State, d: Disk, crashes: iset<Disk>, options: Options, t: State)
    requires (d, crashes) in CompactionOutcomes(s, OrderlySince(s, t), options)
    requires AfterOutput(s, d, crashes, t) && t.names == [FileName(s.next)]
    ensures Standing(t) && ViewOf(t) == ViewOf(s) && HeldKeys(t) <= HeldKeys(s) && StoredKeys(t) <= StoredKeys(s)
    ensures LogOf(d) == LogOf(s.disk) && Listed(d) == Listed(s.disk)
    ensures Visible(TablesIn(t) + LoggedLayer(d)) == Visible(TablesIn(s) + LoggedLayer(s.disk))
  {
    hide FileName, Visible, LogOf, LoggedLayer, Listed, CompactionStep, Standing, TablesIn, ViewOf, HeldKeys, StoredKeys, Purge;
    StepParts(s, d, crashes, OrderlySince(s, t), options);
    OutputStanding(s, d, crashes, options, t);
    PurgedKeys(s, t);
    PurgedView(s, t);
  }

  lemma OutputStanding(s: State, d: Disk, crashes: iset<Disk>, options: Options, t: State)
    requires CompactionStep(s, d, crashes, OrderlySince(s, t), options)
    requires AfterOutput(s, d, crashes, t) && t.names == [FileName(s.next)]
    ensures Standing(t) && TablesIn(t) == Purge(TablesIn(s))
    ensures LogOf(d) == LogOf(s.disk) && Listed(d) == Listed(s.disk) && LoggedLayer(d) == LoggedLayer(s.disk)
  {
    hide FileName, CompactionCrash, CompactedFile, AllPresent, IntactIfPresent, Numbered, TablesOf, WellFormed,
         Merge, Purge, Visible, LogOf, LoggedLayer, Listed, Installed, WithoutInputs, IsTable;
    NewName(s.names, s.next);
    RoomForLayers(options, s);
    var gone := DeletedInputs(s, d, crashes, OrderlySince(s, t), options);
    CompactedStore(s.disk, d, s.names, gone, s.next, s.unflushed, options);
    LogKept(s.disk, d, s.names, gone, s.next, OutputFile(s, options));
  }

  /** The inputs that have been deleted. */
  lemma DeletedInputs(s: State, d: Disk, crashes: iset<Disk>, orderly: bool, options: Options) returns (gone: seq<Name>)
    requires CompactionStep(s, d, crashes, orderly, options)
    ensures Picked(gone, s.names, false) && d == WithoutInputs(InstalledIn(s, options), gone, FileName(s.next))
  {
    hide FileName, CompactionCrash, Standing, OutputFile, Installed, WithoutInputs;
    gone :| Picked(gone, s.names, orderly) && d == WithoutInputs(InstalledIn(s, options), gone, FileName(s.next));
  }

  lemma PurgedView(s: State, t: State)
    requires Standing(s) && Standing(t) && TablesIn(t) == Purge(TablesIn(s)) && t.unflushed == s.unflushed
    requires LoggedLayer(t.disk) == LoggedLayer(s.disk)
    ensures ViewOf(t) == ViewOf(s)
    ensures Visible(TablesIn(t) + LoggedLayer(t.disk)) == Visible(TablesIn(s) + LoggedLayer(s.disk))
  {
    hide Visible, LoggedLayer, TablesIn, Purge, Standing;
    PurgeInvisible(TablesIn(s), s.unflushed);
    PurgeInvisible(TablesIn(s), LoggedLayer(s.disk));
  }

  lemma PurgedKeys(s: State, t: State)
    requires Standing(s) && Standing(t) && TablesIn(t) == Purge(TablesIn(s)) && t.unflushed == s.unflushed
    requires LoggedLayer(t.disk) == LoggedLayer(s.disk)
    ensures HeldKeys(t) <= HeldKeys(s) && StoredKeys(t) <= StoredKeys(s)
  {
    hide LoggedLayer, TablesIn, Standing;
  }

  /** The output is a table file that can be opened. */
  lemma OutputThere(s: State, d: Disk, crashes: iset<Disk>, orderly: bool, options: Options)
    requires (d, crashes) in CompactionOutcomes(s, orderly, options)
    ensures FileName(s.next) in d && LoadTable(d[FileName(s.next)]).Loaded?
  {
    hide Log, FileName, CompactionCrash, CompactedFile, TablesOf, Intact, LoadTable, Merge, IsTable, Deleting;
    var gone := DeletedInputs(s, d, crashes, orderly, options);
    InstalledFile(s.disk, d, s.names, gone, s.next, OutputFile(s, options));
    TablesWellFormed(s.disk, s.names);
    RoomForLayers(options, s);
    CompactedTable(TablesIn(s), options);
    IntactFileLoads(OutputFile(s, options));
  }

  lemma LogKept(d0: Disk, d1: Disk, names: seq<Name>, gone: seq<Name>, next: nat, table: Bytes)
    requires Numbered(names, next) && Picked(gone, names, false)
    requires d1 == WithoutInputs(Installed(d0, FileName(next), table), gone, FileName(next))
    ensures WAL in d0 ==> WAL in d1
    ensures LogOf(d1) == LogOf(d0) && LoggedLayer(d1) == LoggedLayer(d0) && Listed(d1) == Listed(d0)
  {
    hide FileName, Log;
    InstalledFile(d0, d1, names, gone, next, table);
    NumberedApart(names, next, next);
    TableNamesApart(next, TEMP_SUFFIX);
  }

  /** The output could not be opened: no table is served any more. */
  lemma OutputLost(s: State, d: Disk, crashes: iset<Disk>, options: Options, t: State)
    requires (d, crashes) in CompactionOutcomes(s, OrderlySince(s, t), options)
    requires AfterOutput(s, d, crashes, t) && t.names == [] && t.lost && t.failures > s.failures
    ensures KeepsView(s, t, false) && Standing(s) && Standing(t) && ServesPart(s, t)
  {
    hide LogOf, LoggedLayer, FileName, CompactionStep, TableList, Standing, CrashSafe, Agrees, StackIn, ServesPart, ViewOf,
      HeldKeys, StoredKeys;
    NothingServed(s, d, crashes, options, t);
    if Safe(s) {
      CompactionStepSafe(s, d, crashes, OrderlySince(s, t), options);
    }
  }

  lemma NothingServed(s: State, d: Disk, crashes: iset<Disk>, options: Options, t: State)
    requires CompactionStep(s, d, crashes, OrderlySince(s, t), options)
    requires AfterOutput(s, d, crashes, t) && t.names == []
    ensures Standing(s) && Standing(t) && ServesPart(s, t) && LogOf(d) == LogOf(s.disk)
    ensures HeldKeys(t) <= HeldKeys(s) && StoredKeys(t) <= StoredKeys(s)
    ensures forall c :: c in s.crashes ==> c in crashes
  {
    hide FileName, CompactionCrash, CompactedFile, Intact, WellFormed, Merge, Kept, StackIn, ServesPart, Installed,
      WithoutInputs, LogOf, LoggedLayer;
    NewName(s.names, s.next);
    var gone := DeletedInputs(s, d, crashes, OrderlySince(s, t), options);
    LogKept(s.disk, d, s.names, gone, s.next, OutputFile(s, options));
    var none := seq(|s.names|, _ => false);
    KeptNone(TableList(s), none);
    assert TableList(t) == [];
    ServesKept(s, t, none);
  }

  /** The output is read, and the manifest replaced or not: the whole of a compaction. */
  lemma OutputListed(s: State, d: Disk, crashes: iset<Disk>, options: Options, m: State, t: State, ok: bool)
    requires (d, crashes) in CompactionOutcomes(s, OrderlySince(s, m), options)
    requires AfterOutput(s, d, crashes, m) && m.names == [FileName(s.next)] && m.lost == s.lost && m.failures == s.failures
    requires ManifestStep(m, t, ok) && Otherwise(m, t) && t.exposed == !(ok && t.shorts == m.shorts)
    ensures KeepsView(s, t, ok) && Standing(s) && Standing(t) && ViewOf(t) == ViewOf(s)
    ensures Safe(s) && t.shorts == s.shorts ==>
      && (ok ==> Exact(t.disk, ViewOf(s), ViewOf(s)))
      && forall c :: c in t.crashes && c !in s.crashes && Whole(c) ==> Exact(c, ViewOf(s), ViewOf(s))
  {
    hide Log, LogLayer, FileName, CompactedFile, TablesOf, WellFormed, CrashSafe, Agrees, Merge, CompactionStep,
      Standing, TablesIn, ViewOf, HeldKeys, StoredKeys;
    OutputRead(s, d, crashes, options, m);
    ManifestReplaced(m, t, ok);
    ManifestStepLog(m, t, ok);
    StepParts(s, d, crashes, OrderlySince(s, m), options);
    if Safe(s) && t.shorts == m.shorts {
      var w := Opening(OrderlySince(s, m));
      CompactionStepSafe(s, d, crashes, OrderlySince(s, m), options);
      if ok {
        OutputAgrees(s, m, t);
      }
      ListingOutputSafe(s, m, t, ok, w);
      CrashesSafeChain(s.crashes, m.crashes, t.crashes, ViewOf(s), ViewOf(s), w, w, WindowOf(s, t));
      WholeIsExact(s.crashes, t.crashes, ViewOf(s), WindowOf(s, t));
    }
  }

  lemma WholeIsExact(before: iset<Disk>, after: iset<Disk>, view: map<Key, Value>, w: Window)
    requires CrashesSafe(before, after, view, view, w)
    ensures forall c :: c in after && c !in before && Whole(c) ==> Exact(c, view, view)
  {
    hide Exact, Thinned, Whole;
  }

  lemma StepParts(s: State, d: Disk, crashes: iset<Disk>, orderly: bool, options: Options)
    requires CompactionStep(s, d, crashes, orderly, options)
    ensures Standing(s) && forall c :: c in s.crashes ==> c in crashes
  {
  }

  lemma ManifestStepLog(m: State, t: State, ok: bool)
    requires ManifestStep(m, t, ok)
    ensures LogOf(t.disk) == LogOf(m.disk)
  {
    hide Log;
  }

  lemma OutputAgrees(s: State, m: State, t: State)
    requires Safe(s) && Standing(m) && ManifestStep(m, t, true) && t.shorts == m.shorts
    requires m.unflushed == s.unflushed && m.logging == s.logging && LogOf(m.disk) == LogOf(s.disk)
    requires ViewOf(m) == ViewOf(s)
    requires Visible(TablesIn(m) + LoggedLayer(m.disk)) == Visible(TablesIn(s) + LoggedLayer(s.disk))
    ensures Agrees(t.disk, m.names, m.unflushed, m.logging) && Merge(TablesOf(t.disk, m.names)) == TablesIn(m)
  {
    hide Log, LogLayer, TablesOf, WellFormed, Agrees, Merge, Visible, Numbered, AllPresent, IntactIfPresent, Listed,
      OnlyTouches;
    AgreesParts(s.disk, s.names, s.unflushed, s.logging);
    NumberedApart(m.names, m.next, m.next);
    AgreesWithManifest(m.disk, t.disk, m.names, m.unflushed, m.logging);
  }

  /** Crashes while the manifest of the output is being written: as safe as before, and exact once
      it is in place. */
  lemma ListingOutputSafe(s: State, m: State, t: State, ok: bool, w: Window)
    requires Safe(s) && Standing(m) && ManifestStep(m, t, ok) && Listed(m.disk) == Listed(s.disk)
    requires CrashSafe(m.disk, ViewOf(s), ViewOf(s), m.crashes, w)
    requires ok ==> Agrees(t.disk, m.names, m.unflushed, m.logging) && Merge(TablesOf(t.disk, m.names)) == TablesIn(m)
    requires ViewOf(m) == ViewOf(s)
    ensures CrashesSafe(m.crashes, t.crashes, ViewOf(s), ViewOf(s), w)
    ensures ok ==> Exact(t.disk, ViewOf(s), ViewOf(s))
  {
    hide Log, LogLayer, TablesOf, WellFormed, Merge, Visible, Numbered, IntactIfPresent, OnlyTouches, CrashSafe,
      Lines, Exact;
    var view := ViewOf(s);
    NumberedApart(s.names, s.next, s.next);
    forall i | 0 <= i < |Listed(m.disk)|
      ensures Listed(m.disk)[i] != MANIFEST_TEMP
    {
      assert Listed(s.disk)[i] == s.names[i];
    }
    CrashSafeMore(m.disk, view, view, m.crashes, t.crashes, w, w);
    if ok {
      AgreesIsSafe(t.disk, m.names, m.unflushed, m.logging);
      ExactIsSafe(t.disk, view, view, t.crashes, w);
    }
    forall d | d in t.crashes && d !in m.crashes
      ensures CrashSafe(d, view, view, t.crashes, w)
    {
      if !ok || d != t.disk {
        CrashSafeUnseen(m.disk, d, view, {MANIFEST_TEMP}, t.crashes, w);
      }
    }
  }

  // ---------- acknowledging a record ----------

  /** What a record does to the map. */
  function After(view: map<Key, Value>, e: Entry): map<Key, Value>
  {
    if e.kind.Put? then view[e.key := e.value] else view - {e.key}
  }

  /** A step that is meant to add the record e: acknowledged, the map has it, and refused, the
      map is what it was. From a safe disk with a clean log and for a record within the limits
      of the log, every crash on the way recovers one of the two maps. The disk stays safe, with
      one exception: if the log accepted the record but its flush was refused, the record is
      acknowledged, the stream is broken, and recovery still sees the old map. A refusal is due
      to the file system, now or when the log was broken off. */
  ghost predicate Writes(s: State, t: State, e: Entry, ok: bool)
  {
    && Standing(s) && Standing(t)
    && (ok || !t.lost ==> ViewOf(t) == if ok then After(ViewOf(s), e) else ViewOf(s))
    && HeldKeys(t) <= HeldKeys(s) + {e.key}
    && (s.lost ==> t.lost)
    && (t.exposed && !s.exposed ==> (s.failures < t.failures || s.shorts < t.shorts) && s.compactions < t.compactions)
    && s.failures <= t.failures && s.ignored <= t.ignored && s.compactions <= t.compactions && s.shorts <= t.shorts
    && (s.shorts < t.shorts ==> s.ignored < t.ignored)
    && (if ok then t.logging && (t.good || s.ignored < t.ignored) && (t.lost ==> s.lost)
                   && (t.exposed ==> s.exposed || s.shorts < t.shorts)
        else s.failures < t.failures || !Working(s))
    && (forall d :: d in s.crashes ==> d in t.crashes)
    && (Safe(s) && CleanLog(s) && InLimits(e) && t.shorts == s.shorts ==>
          && StoredKeys(t) <= StoredKeys(s) + {e.key}
          && (!t.lost && !t.exposed ==> CleanLog(t) && if ok && !t.good then Unlogged(s, t) else Safe(t))
          && CrashesSafe(s.crashes, t.crashes, ViewOf(s), After(ViewOf(s), e), WindowOf(s, t)))
  }

  /** Recovery would not see what has just been acknowledged. */
  ghost predicate Unlogged(s: State, t: State)
    requires Standing(s)
  {
    Exact(t.disk, ViewOf(s), ViewOf(s))
  }

  lemma FlushRefused(s: State, t: State, e: Entry)
    requires KeepsView(s, t, false)
    ensures Writes(s, t, e, false)
  {
    hide Standing, ViewOf, HeldKeys, StoredKeys, CrashSafe, CleanLog, Agrees, After, InLimits, CrashesSafe;
    if Safe(s) && t.shorts == s.shorts {
      CrashesSafeMore(s.crashes, t.crashes, ViewOf(s), After(ViewOf(s), e), WindowOf(s, t));
    }
  }

  lemma WritesAfterFlush(s: State, t: State, u: State, e: Entry, ok: bool)
    requires KeepsView(s, t, true) && Writes(t, u, e, ok)
    ensures Writes(s, u, e, ok)
  {
    hide Standing, ViewOf, HeldKeys, StoredKeys, CrashSafe, CleanLog, Agrees, After, InLimits, CrashesSafe, Exact;
    if Safe(s) && CleanLog(s) && InLimits(e) && u.shorts == s.shorts {
      CrashesSafeChain(s.crashes, t.crashes, u.crashes, ViewOf(s), After(ViewOf(s), e),
                       WindowOf(s, t), WindowOf(t, u), WindowOf(s, u));
    }
  }

  /** What appending the record to the log and applying it to the memtable does: the record is
      acknowledged unless the write was refused, and all of it is in the log if neither the write
      nor the flush was. */
  ghost predicate LogStep(s: State, t: State, e: Entry, ok: bool)
  {
    if !Working(s) then !ok && t == s else
      && t.logging && t.names == s.names && t.next == s.next && SameMarks(s, t)
      && Appended(s.disk, s.crashes, t.disk, t.crashes, WAL, Encode(e), t.good)
      && t.failures == (if ok then s.failures else s.failures + 1)
      && t.ignored == (if ok && !t.good then s.ignored + 1 else s.ignored)
      && (t.good ==> ok)
      && t.unflushed == (if ok then s.unflushed[e.key := CellOf(e)] else s.unflushed)
  }

  /** The first k bytes of the record are in the log. */
  function Torn(disk: Disk, e: Entry, k: nat): Disk
    requires WAL in disk && k <= |Encode(e)|
  {
    disk[WAL := disk[WAL] + Encode(e)[..k]]
  }

  lemma AppendedStanding(s: State, t: State, e: Entry, ok: bool)
    requires Standing(s) && Working(s) && LogStep(s, t, e, ok) && Encodable(e) && Canonical(e)
    ensures Standing(t) && TablesIn(t) == TablesIn(s) && HeldKeys(t) <= HeldKeys(s) + {e.key}
    ensures ViewOf(t) == if ok then After(ViewOf(s), e) else ViewOf(s)
  {
    hide Intact, Encode, Numbered, Merge, TornAppends;
    NumberedApart(s.names, s.next, s.next);
    SameContents(s.disk, t.disk, s.names, {WAL});
    var cell := CellOf(e);
    assert TablesIn(s) + s.unflushed[e.key := cell] == (TablesIn(s) + s.unflushed)[e.key := cell];
    VisibleUpdate(TablesIn(s) + s.unflushed, e.key, cell);
  }

  lemma CutAppendSafe(s: State, e: Entry, k: nat)
    requires Safe(s) && Working(s) && CleanLog(s) && Encodable(e) && Loggable(e) && k <= |Encode(e)|
    ensures Exact(Torn(s.disk, e, k), ViewOf(s), After(ViewOf(s), e))
    ensures k < |Encode(e)| ==> Exact(Torn(s.disk, e, k), ViewOf(s), ViewOf(s))
  {
    hide Intact, Encode, Merge, Agrees, Log, AllPresent, IntactIfPresent, TablesOf, Visible;
    NumberedApart(s.names, s.next, s.next);
    hide Numbered, WellFormed, RecoveredView, Recovers;
    var d := Torn(s.disk, e, k);
    AgreesAfterAppend(s.disk, d, s.names, s.unflushed, e, k);
    if k == RecordSize(e) {
      var cell := CellOf(e);
      assert TablesIn(s) + s.unflushed[e.key := cell] == (TablesIn(s) + s.unflushed)[e.key := cell];
      VisibleUpdate(TablesIn(s) + s.unflushed, e.key, cell);
      AgreesRecovers(d, s.names, s.unflushed[e.key := cell], true);
    } else {
      AgreesIsSafe(d, s.names, s.unflushed, true);
    }
  }

  /** The disk and the crashes of an append. */
  lemma AppendSafe(s: State, t: State, e: Entry, ok: bool)
    requires Safe(s) && Working(s) && CleanLog(s) && LogStep(s, t, e, ok) && Encodable(e) && Loggable(e)
    ensures ok == t.good ==> Agrees(t.disk, t.names, t.unflushed, t.logging)
    ensures ok && !t.good ==> Unlogged(s, t)
    ensures CleanLog(t)
    ensures StoredKeys(s) + {e.key} >= TablesIn(s).Keys + t.unflushed.Keys + LoggedLayer(t.disk).Keys
    ensures CrashesSafe(s.crashes, t.crashes, ViewOf(s), After(ViewOf(s), e), Shut)
  {
    hide Intact, Encode, Merge, Agrees, Log, AllPresent, IntactIfPresent, TablesOf, Visible, Exact, After;
    NumberedApart(s.names, s.next, s.next);
    hide Numbered, WellFormed;
    var k :| 0 <= k <= |Encode(e)| && (t.good <==> k == |Encode(e)|) && t.disk == s.disk[WAL := s.disk[WAL] + Encode(e)[..k]];
    assert t.disk == Torn(s.disk, e, k);
    AgreesAfterAppend(s.disk, t.disk, s.names, s.unflushed, e, k);
    CutAppendSafe(s, e, k);
    AgreesParts(t.disk, s.names, if t.good then t.unflushed else s.unflushed, true);
    forall d | d in t.crashes && d !in s.crashes
      ensures Exact(d, ViewOf(s), After(ViewOf(s), e))
    {
      var n :| 0 <= n <= |Encode(e)| && d == s.disk[WAL := s.disk[WAL] + Encode(e)[..n]];
      assert d == Torn(s.disk, e, n);
      CutAppendSafe(s, e, n);
    }
  }

  /** The attempt to append one record. */
  lemma RecordLogged(s: State, t: State, e: Entry, ok: bool)
    requires Standing(s) && LogStep(s, t, e, ok) && Encodable(e) && Canonical(e)
    ensures Writes(s, t, e, ok) && Standing(t)
    ensures !ok ==> ViewOf(t) == ViewOf(s)
  {
    hide Intact, Encode, Merge, Agrees, Log, AllPresent, IntactIfPresent, TablesOf, Visible, Exact, CrashSafe, After,
      Numbered, WellFormed, LoggedLayer, CrashesSafe;
    if Working(s) {
      AppendedStanding(s, t, e, ok);
      AppendedGrows(s, t, e, ok);
      if Safe(s) && CleanLog(s) && InLimits(e) {
        AppendSafe(s, t, e, ok);
      }
    } else if Safe(s) {
      NoCrashes(s.crashes, ViewOf(s), After(ViewOf(s), e), Shut);
    }
  }

  lemma AppendedGrows(s: State, t: State, e: Entry, ok: bool)
    requires Working(s) && LogStep(s, t, e, ok)
    ensures forall d :: d in s.crashes ==> d in t.crashes
  {
    hide Encode;
  }

  /** An acknowledged record is recoverable exactly if the flush of the log was not refused, or
      the record changes nothing. */
  lemma RecoverableIffFlushed(s: State, t: State, e: Entry)
    requires Safe(s) && CleanLog(s) && LogStep(s, t, e, true) && Encodable(e) && Loggable(e)
    ensures Standing(t) && Recovers(t.disk) && ViewOf(t) == After(ViewOf(s), e)
    ensures RecoveredView(t.disk) == ViewOf(t) <==> t.good || After(ViewOf(s), e) == ViewOf(s)
  {
    hide Agrees, ViewOf, After, CrashesSafe, Encode, RecoveredView, Recovers, StoredKeys, WellFormed, TableList,
      Numbered, AllPresent, IntactIfPresent, LogOf;
    AppendedStanding(s, t, e, true);
    AppendSafe(s, t, e, true);
    if t.good {
      AgreesRecovers(t.disk, t.names, t.unflushed, t.logging);
      AgreesView(t);
    }
  }

  lemma AgreesView(t: State)
    requires Standing(t) && Agrees(t.disk, t.names, t.unflushed, t.logging)
    ensures RecoveredView(t.disk) == ViewOf(t)
  {
    hide Merge, AllPresent, IntactIfPresent, Numbered, WellFormed, LogOf, LoggedLayer, Visible, Readable, Listed,
      RecoveredLayer;
  }

  /** A new store, and the store after a put whose flush was refused before any byte was out. */
  ghost function NewState(broken: bool): State
  {
    State(map[WAL := []], iset{}, 0, if broken then 1 else 0, [], 1, if broken then map[[1] := Cell([], Put)] else map[],
          true, !broken, false, false, 0, 0)
  }

  lemma NewStateSafe()
    ensures var s := NewState(false);
            && Standing(s) && TableList(s) == [] && Safe(s) && CleanLog(s)
            && Recovers(s.disk) && RecoveredView(s.disk) == map[]
  {
    var d := NewState(false).disk;
    assert Numbered([], 1) && Listed(d) == [] && LogOf(d) == Replay([], Clean);
    assert DiskTables(d) == [] && TablesOf(d, []) == [];
  }

  /** Otherwise it is not: a put is acknowledged, and a crash loses it. */
  lemma UnflushedIsLost()
    ensures var s, t, e := NewState(false), NewState(true), Entry([1], [], Put);
            && Safe(s) && CleanLog(s) && LogStep(s, t, e, true)
            && Standing(t) && Recovers(t.disk) && e.key in ViewOf(t) && e.key !in RecoveredView(t.disk)
  {
    hide Encode, Safe, CleanLog, Recovers, RecoveredView, LogOf;
    var s, t, e := NewState(false), NewState(true), Entry([1], [], Put);
    NewStateSafe();
    NothingAppended(s.disk, e);
    assert TableList(t) == [];
  }

  lemma NothingAppended(disk: Disk, e: Entry)
    requires WAL in disk
    ensures Appended(disk, iset{}, disk, iset{}, WAL, Encode(e), false)
  {
    assert |Encode(e)| > 0 && disk[WAL] + Encode(e)[..0] == disk[WAL];
    assert disk == disk[WAL := disk[WAL] + Encode(e)[..0]];
  }

  // ---------- opening ----------

  /** What an open store has taken from the disk. */
  ghost predicate Taken(t: State)
  {
    && t.names == Present(t.disk, Listed(t.disk))
    && t.unflushed == LoggedLayer(t.disk)
    && t.logging && t.good && !t.lost && !t.exposed
  }

  /** A store that was opened serves the recovered map, and if no listed table was missing, the
      disk is safe again. */
  lemma Opened(t: State)
    requires Standing(t) && Taken(t) && Recovers(t.disk)
    ensures ViewOf(t) == RecoveredView(t.disk)
    ensures Whole(t.disk) ==> Safe(t)
    ensures CleanLog(t) <==> LogOf(t.disk).outcome.Clean?
  {
    hide Intact, Merge, Log, IntactIfPresent, Visible, Numbered, Lines, Readable, WellFormed;
    if Whole(t.disk) {
      AllThere(t.disk, Listed(t.disk));
    }
  }

  /** What an open store has taken from a disk whose manifest or log may have gone unread. */
  ghost predicate TakenPast(d0: Disk, t: State, manifestRead: bool, logRead: bool)
  {
    && t.names == (if manifestRead then Present(d0, Listed(d0)) else [])
    && t.unflushed == (if logRead then LoggedLayer(d0) else map[])
    && t.logging && t.good && !t.lost && !t.exposed
  }

  function Refusals(manifestRead: bool, logRead: bool): nat
  {
    (if manifestRead then 0 else 1) + (if logRead then 0 else 1)
  }

  /** What is served after opening is what the disk holds, less manifest or log if those went
      unread, as the number of refusals says. */
  ghost predicate OpenedFrom(d0: Disk, t: State, refusals: int)
    requires Recovers(d0)
  {
    exists manifestRead, logRead :: refusals == Refusals(manifestRead, logRead) && TakenPast(d0, t, manifestRead, logRead)
      && Standing(t) && ViewOf(t) == ServedUnread(Merge(DiskTables(d0)), LoggedLayer(d0), manifestRead, logRead)
  }

  /** What opening a recoverable disk ends with. */
  lemma OpenedState(d0: Disk, t: State, manifestRead: bool, logRead: bool)
    requires Recovers(d0) && t.disk == (if WAL in d0 then d0 else d0[WAL := []])
    requires TakenPast(d0, t, manifestRead, logRead)
    requires (forall n :: n in t.names ==> NumberOf(n) < t.next) && WellFormed(t.unflushed)
    ensures Standing(t) && WAL !in t.names
    ensures ViewOf(t) == ServedUnread(Merge(DiskTables(d0)), LoggedLayer(d0), manifestRead, logRead)
    ensures manifestRead && logRead ==> ViewOf(t) == RecoveredView(d0) && Taken(t)
    ensures OpenedFrom(d0, t, Refusals(manifestRead, logRead))
  {
    hide Merge, Log, LogLayer, Visible, Lines, WellFormed, FileName, ParseNumber, Intact;
    LogCreated(d0, t.disk);
    var above :| Numbered(Listed(d0), above);
    NumberedApart(Listed(d0), above, above);
    PresentIntact(t.disk, Listed(d0));
    LogCreatedTables(d0, t.disk);
    MergeNothing();
    if manifestRead {
      PresentNumbered(d0, Listed(d0), above, t.next);
    } else {
      assert TableList(t) == [];
    }
  }

  lemma MergeNothing()
    ensures Merge([]) == map[]
  {
  }
}
