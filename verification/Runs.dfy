/** Whole runs: any script of operations answers like a plain map, and whenever it is cut, the disk
    recovers to the operations acknowledged by then, or those and the one under way. */
module Runs {
  import opened Bytes
  import opened Entries
  import opened Records
  import opened Logs
  import opened TableFormat
  import opened Storage
  import opened MemTables
  import opened Config
  import opened Names
  import opened Stacks
  import opened Compactions
  import opened Recovery
  import opened Steps
  import opened KVStores

  datatype Op = Set(key: Key, value: Value) | Drop(key: Key) | Look(key: Key) | FlushAll | CompactAll | Reopen

  // ---------- the plain map ----------

  /** What an operation does to a plain map. Empty keys are refused. */
  function Apply(view: map<Key, Value>, op: Op): map<Key, Value>
  {
    match op
    case Set(key, value) => if key == [] then view else view[key := value]
    case Drop(key) => if key == [] then view else view - {key}
    case _ => view
  }

  function Plain(view: map<Key, Value>, script: seq<Op>): map<Key, Value>
  {
    if script == [] then view else Apply(Plain(view, script[..|script| - 1]), script[|script| - 1])
  }

  /** The answer of a plain map; operations other than look-ups answer nothing. */
  function PlainAnswer(view: map<Key, Value>, op: Op): Option<Value>
  {
    if op.Look? && op.key in view && op.key != [] then Some(view[op.key]) else None
  }

  /** The log accepts records of that size and replays them. */
  predicate Within(op: Op)
  {
    match op
    case Set(key, value) => |key| <= MAX_KEY && |value| <= MAX_VALUE
    case Drop(key) => |key| <= MAX_KEY
    case _ => true
  }

  /** Lengths fit the fields of a record and the buffer of the log. */
  predicate Writable(op: Op)
  {
    match op
    case Set(key, value) => |key| + |value| < U32
    case Drop(key) => |key| < U32
    case _ => true
  }

  predicate EmptyKey(op: Op)
  {
    match op
    case Set(key, _) => key == []
    case Drop(key) => key == []
    case _ => false
  }

  function KeyOf(op: Op): set<Key>
  {
    match op
    case Set(key, _) => {key}
    case Drop(key) => {key}
    case _ => {}
  }

  function KeysIn(script: seq<Op>): set<Key>
  {
    if script == [] then {} else KeysIn(script[..|script| - 1]) + KeyOf(script[|script| - 1])
  }

  lemma {:induction false} KeysInPrefix(script: seq<Op>, n: nat)
    requires n <= |script|
    ensures KeysIn(script[..n]) <= KeysIn(script)
  {
    if n == |script| {
      assert script[..n] == script;
    } else {
      KeysInPrefix(script[..|script| - 1], n);
      assert script[..|script| - 1][..n] == script[..n];
    }
  }

  // ---------- one operation ----------

  /** In working order: whatever happens next, nothing acknowledged is lost. */
  ghost predicate Good(s: State)
  {
    Safe(s) && CleanLog(s) && Working(s)
  }

  /** One operation without any refusal of the file system that matters. */
  ghost predicate Smooth(s: State, t: State, op: Op)
  {
    && Good(s) && Good(t)
    && ViewOf(t) == Apply(ViewOf(s), op)
    && StoredKeys(t) <= StoredKeys(s) + KeyOf(op)
  }

  // ---------- the crashes of one operation ----------

  /** Every one of the disks that a crash during an operation can leave is safe. */
  ghost predicate CutsSafe(cuts: iset<Disk>, from: map<Key, Value>, to: map<Key, Value>, w: Window)
  {
    forall d :: d in cuts ==> CrashSafe(d, from, to, cuts, w)
  }

  /** An operation that starts in s with a fresh record of crashes and ends in t: before it, the
      disk recovers to the map before it, and wherever it is cut, to the map before it or after
      it, except within the deletions of a compaction of its own. All that unless the operation
      has left a manifest that was written only in part. */
  ghost predicate StepRecovers(s: State, t: State, from: map<Key, Value>, to: map<Key, Value>)
  {
    && s.disk in t.crashes && Exact(s.disk, from, from)
    && (t.shorts == s.shorts ==> CutsSafe(t.crashes, from, to, WindowOf(s, t)))
  }

  /** The state with a fresh record of crashes. */
  function Marked(s: State): State
  {
    s.(crashes := iset{s.disk})
  }

  lemma MarkedSame(s: State)
    requires Standing(s)
    ensures var m := Marked(s);
            && Standing(m) && ViewOf(m) == ViewOf(s) && TableList(m) == TableList(s)
            && HeldKeys(m) == HeldKeys(s) && StoredKeys(m) == StoredKeys(s)
            && (Safe(m) <==> Safe(s)) && (CleanLog(m) <==> CleanLog(s)) && (Working(m) <==> Working(s))
  {
    hide Agrees, Merge, AllPresent, IntactIfPresent, Numbered, WellFormed, LogOf, LoggedLayer, Visible, TablesOf;
  }

  /** From here on a new record of crashes is kept. */
  ghost method StartCuts(store: KVStore)
    requires store.Valid() && store.isOpen
    modifies store.fs`crashes
    ensures store.Valid() && store.Now() == Marked(old(store.Now()))
    ensures Standing(old(store.Now())) && store.View() == old(store.View())
  {
    hide Standing, AllHold, ViewOf, TotalSize;
    MarkedSame(store.Now());
    store.fs.crashes := iset{store.fs.files};
  }

  lemma CutsFrom(s: State, t: State, from: map<Key, Value>, to: map<Key, Value>, w: Window)
    requires CrashesSafe(Marked(s).crashes, t.crashes, from, to, w) && Exact(s.disk, from, from)
    ensures s.disk in t.crashes && CutsSafe(t.crashes, from, to, w)
  {
    hide Exact, CrashSafe;
    forall d | d in t.crashes
      ensures CrashSafe(d, from, to, t.crashes, w)
    {
      if d == s.disk {
        ExactIsSafe(d, from, from, t.crashes, w);
        CrashSafeMore(d, from, to, t.crashes, t.crashes, w, w);
      }
    }
  }

  /** One operation other than closing and opening, acknowledged or not, and whatever the file
      system refuses: the map is that of a plain map if it is acknowledged and otherwise what it
      was, unless tables have been lost. From a safe disk with a clean log every crash on the way
      is safe, and the disk is safe again unless the output of a compaction is left unlisted, the
      flush of the log was refused, or a manifest was written only in part. */
  ghost predicate Acted(s: State, t: State, op: Op, ack: bool)
  {
    && Standing(s) && Standing(t) && Onward(s, t)
    && (!t.lost ==> ViewOf(t) == if ack then Apply(ViewOf(s), op) else ViewOf(s))
    && HeldKeys(t) <= HeldKeys(s) + KeyOf(op)
    && (s.lost ==> t.lost)
    && (s.shorts < t.shorts ==> s.ignored < t.ignored)
    && (!ack ==> s.failures < t.failures || !Working(s) || EmptyKey(op))
    && (s.failures == t.failures && Working(s) ==> t.logging && (t.good || s.ignored < t.ignored) && (t.lost ==> s.lost))
    && (t.exposed && !s.exposed ==> (s.failures < t.failures || s.shorts < t.shorts) && s.compactions < t.compactions)
    && (Safe(s) && CleanLog(s) && Within(op) ==>
          && StepRecovers(s, t, ViewOf(s), Apply(ViewOf(s), op))
          && (t.shorts == s.shorts ==>
                && StoredKeys(t) <= StoredKeys(s) + KeyOf(op)
                && (!t.lost && !t.exposed && (t.good || t.ignored == s.ignored) ==> Safe(t) && CleanLog(t))))
  }

  /** Refusals, compactions and incomplete manifests are only ever counted up. */
  predicate Onward(s: State, t: State)
  {
    s.failures <= t.failures && s.ignored <= t.ignored && s.compactions <= t.compactions && s.shorts <= t.shorts
  }

  lemma SafeIsExact(s: State)
    requires Safe(s)
    ensures Exact(s.disk, ViewOf(s), ViewOf(s))
  {
    hide Agrees, AllPresent, IntactIfPresent, Numbered, WellFormed, Recovers, RecoveredView, Whole, TablesOf, Merge;
    SafeRecovers(s);
  }

  lemma WriteActs(s: State, t: State, e: Entry, ok: bool, op: Op)
    requires Standing(s) && Writes(Marked(s), t, e, ok)
    requires op == (if e.kind.Put? then Set(e.key, e.value) else Drop(e.key)) && e.key != [] && Canonical(e)
    ensures Acted(s, t, op, ok)
  {
    hide Standing, Agrees, ViewOf, HeldKeys, StoredKeys, CleanLog, CrashesSafe, Exact, CutsSafe, Safe;
    MarkedSame(s);
    if Safe(s) && CleanLog(s) && Within(op) {
      SafeIsExact(s);
      if t.shorts == s.shorts {
        CutsFrom(s, t, ViewOf(s), Apply(ViewOf(s), op), WindowOf(s, t));
      }
    }
  }

  lemma KeepActs(s: State, t: State, ok: bool, op: Op)
    requires Standing(s) && KeepsView(Marked(s), t, ok) && (op.FlushAll? || op.CompactAll?)
    ensures Acted(s, t, op, ok)
  {
    hide Standing, Agrees, ViewOf, HeldKeys, StoredKeys, CleanLog, CrashesSafe, Exact, CutsSafe, Safe;
    MarkedSame(s);
    if Safe(s) {
      SafeIsExact(s);
      if t.shorts == s.shorts {
        CutsFrom(s, t, ViewOf(s), Apply(ViewOf(s), op), WindowOf(s, t));
      }
    }
  }

  lemma NothingActs(s: State, t: State, op: Op, ack: bool)
    requires Standing(s) && t == Marked(s).(failures := t.failures) && t.failures >= s.failures
    requires op.Look? || EmptyKey(op)
    requires !ack ==> EmptyKey(op)
    ensures Acted(s, t, op, ack)
  {
    hide Agrees, Exact, Visible, TablesOf, Merge, AllPresent, IntactIfPresent, Numbered, WellFormed, LogOf, LoggedLayer;
    if Safe(s) {
      SafeIsExact(s);
    }
    OnlyLooked(ViewOf(s), op);
  }

  lemma OnlyLooked(view: map<Key, Value>, op: Op)
    requires op.Look? || EmptyKey(op)
    ensures Apply(view, op) == view
  {
  }

  lemma ActedSmooth(s: State, t: State, op: Op, ack: bool)
    requires Good(s) && Acted(s, t, op, ack) && Within(op) && t.failures == s.failures && t.ignored == s.ignored
    ensures Smooth(s, t, op)
  {
    hide Standing, Agrees, ViewOf, HeldKeys, StoredKeys, StepRecovers, LogOf;
    if !ack {
      OnlyLooked(ViewOf(s), op);
    }
  }

  /** Closing and opening again. */
  lemma ReopenCuts(s: State, t: State)
    requires Good(s) && forall d :: d in t.crashes <==> d == s.disk
    requires t.compactions == s.compactions
    ensures StepRecovers(s, t, ViewOf(s), ViewOf(s))
  {
    hide Agrees, Exact, Visible, TablesOf, Merge, AllPresent, IntactIfPresent, Numbered, WellFormed;
    SafeIsExact(s);
  }

  lemma ReopenSmooth(s: State, t: State)
    requires Good(s) && Standing(t) && Taken(t) && t.disk == s.disk && ViewOf(t) == RecoveredView(s.disk)
    ensures Smooth(s, t, Reopen) && |t.names| <= |s.names|
  {
    hide Agrees, CrashSafe, AllPresent, IntactIfPresent, Numbered, WellFormed, RecoveredView, Whole, LogOf, Listed;
    SafeRecovers(s);
    Opened(t);
    ReopenKeys(s, t);
  }

  /** Opening again after a manifest that lists all tables brings back the same tables and the same
      memtable. */
  lemma ReopenRests(options: Options, s: State, t: State)
    requires Good(s) && Settled(s) && Standing(t) && Taken(t) && t.disk == s.disk && t.compactions == s.compactions
    ensures Leaves(options, s, t, Reopen) && Settled(t)
  {
    hide Merge, Numbered, WellFormed, LogOf, LoggedLayer, Visible, Intact, IsTable, Listed, Present, Readable,
      RecoveredView;
    AllThere(s.disk, Listed(s.disk));
  }

  lemma ReopenKeys(s: State, t: State)
    requires Safe(s) && Working(s) && Standing(t) && Taken(t) && t.disk == s.disk
    ensures StoredKeys(t) <= StoredKeys(s) && |t.names| <= |s.names|
  {
    hide Merge, Numbered, WellFormed, LogOf, LoggedLayer, Visible, Intact, IsTable, Listed, Present, Readable,
      RecoveredView;
    SafeRecovers(s);
    AllThere(s.disk, Listed(s.disk));
    assert t.names == s.names[..|t.names|];
    FewerTables(s, t);
    FewerKeysStored(TablesIn(t).Keys, TablesIn(s).Keys, t.unflushed.Keys, s.unflushed.Keys, LoggedLayer(s.disk).Keys);
  }

  lemma FewerTables(s: State, t: State)
    requires Standing(s) && Standing(t) && t.disk == s.disk && t.names <= s.names
    ensures TablesIn(t).Keys <= TablesIn(s).Keys
  {
    hide Merge, Numbered, WellFormed, LogOf, Intact, IsTable;
    var j := |t.names|;
    var tables := TablesOf(s.disk, s.names);
    assert TablesOf(t.disk, t.names) == tables[..j];
    assert tables == tables[..j] + tables[j..];
    MergeConcat(tables[..j], tables[j..]);
  }

  lemma FewerKeysStored(a: set<Key>, b: set<Key>, u: set<Key>, v: set<Key>, l: set<Key>)
    requires a <= b && u <= l
    ensures a + u + l <= b + v + l
  {
  }

  lemma OpenReady(s: State)
    requires Good(s)
    ensures Recovers(s.disk) && WAL in s.disk && RecoveredView(s.disk) == ViewOf(s)
  {
    hide Agrees, AllPresent, IntactIfPresent, Numbered, WellFormed, Recovers, RecoveredView, Whole;
    SafeRecovers(s);
  }

  /** The operation may run a compaction of so many tables. */
  predicate MayCompact(options: Options, tables: nat, op: Op)
  {
    match op
    case Look(_) => false
    case Reopen => false
    case CompactAll => tables >= 2
    case _ => FlushCompacts(options, tables)
  }

  /** Memtable, tables and number of compactions are what they were. */
  predicate Rests(s: State, t: State)
  {
    t.unflushed == s.unflushed && t.names == s.names && t.compactions == s.compactions
  }

  /** What an operation leaves that nothing refuses: a write or a flush as it says, a compaction one
      table if there were more, and anything else what there was. */
  ghost predicate Leaves(options: Options, s: State, t: State, op: Op)
  {
    if EmptyKey(op) then Rests(s, t) else
      match op
      case Set(key, value) => WriteLeaves(options, s, t, Entry(key, value, Kind.Put))
      case Drop(key) => WriteLeaves(options, s, t, Entry(key, [], Tombstone))
      case FlushAll => Flushed(options, s, t)
      case CompactAll =>
        if |s.names| < 2 then Rests(s, t)
        else t.unflushed == s.unflushed && |t.names| == 1 && t.compactions == s.compactions + 1
      case Look(_) => Rests(s, t)
      case Reopen => Rests(s, t)
  }

  /** Runs one operation other than closing and opening, with a record of its own crashes; a
      look-up is always acknowledged. */
  method Act(store: KVStore, op: Op) returns (ack: bool, answer: Option<Value>)
    requires store.Valid() && store.isOpen && Room(store.options, store.Now()) && Writable(op) && !op.Reopen?
    modifies store, store.fs, store.memtable, store.wal, store.sstables
    ensures store.Valid() && store.isOpen && Acted(old(store.Now()), store.Now(), op, ack)
    ensures !op.Look? || store.fs.failures == old(store.fs.failures) ==>
      answer == PlainAnswer(old(store.View()), op)
    ensures !MayCompact(store.options, |old(store.book.names)|, op) ==> store.book.compactions == old(store.book.compactions)
    ensures forall i :: 0 <= i < |store.sstables| ==> store.sstables[i] in old(store.sstables) || fresh(store.sstables[i])
    ensures ack || EmptyKey(op) ==>
      Leaves(store.options, old(store.Now()), store.Now(), op) && StaysSettled(old(store.Now()), store.Now())
  {
    hide Standing, Room, AllHold, ViewOf, HeldKeys, Acted, TotalSize, PlainAnswer, MayCompact, Leaves, StaysSettled;
    ghost var s := store.Now();
    StartCuts(store);
    SameRoom(store.options, s);
    ack, answer := ActNow(store, op, s);
    LeavesMarked(store.options, s, store.Now(), op);
  }

  lemma LookLeaves(options: Options, s: State, t: State, op: Op)
    requires t == Marked(s).(failures := t.failures) && (op.Look? || EmptyKey(op))
    ensures Leaves(options, Marked(s), t, op) && StaysSettled(Marked(s), t)
  {
  }

  /** There are never more tables than the threshold allows for. */
  lemma LeavesFew(options: Options, s: State, t: State, op: Op)
    requires Leaves(options, s, t, op)
    ensures |s.names| <= MaxTables(options) ==> |t.names| <= MaxTables(options)
    ensures EmptyKey(op) ==> t.names == s.names
  {
    hide TotalSize;
  }

  lemma LeavesMarked(options: Options, s: State, t: State, op: Op)
    ensures Leaves(options, Marked(s), t, op) ==> Leaves(options, s, t, op)
    ensures StaysSettled(Marked(s), t) ==> StaysSettled(s, t)
  {
    hide TotalSize;
  }

  method ActWrite(store: KVStore, op: Op, ghost s: State) returns (ack: bool)
    requires store.Valid() && store.isOpen && Room(store.options, store.Now()) && Writable(op) && (op.Set? || op.Drop?)
    requires Standing(s) && store.Now() == Marked(s)
    modifies store, store.fs, store.memtable, store.wal, store.sstables
    ensures store.Valid() && store.isOpen && Acted(s, store.Now(), op, ack)
    ensures !MayCompact(store.options, |old(store.book.names)|, op) ==> store.book.compactions == old(store.book.compactions)
    ensures forall i :: 0 <= i < |store.sstables| ==> store.sstables[i] in old(store.sstables) || fresh(store.sstables[i])
    ensures ack || EmptyKey(op) ==> Leaves(store.options, Marked(s), store.Now(), op) && StaysSettled(Marked(s), store.Now())
  {
    hide Standing, Writes, KeepsView, Room, AllHold, ViewOf, HeldKeys, Visible, Acted, ServesPart, TotalSize,
      WriteLeaves, Flushed, StaysSettled;
    match op {
      case Set(key, value) =>
        var status := store.Put(key, value);
        ack := status.OK?;
        if key == [] {
          NothingActs(s, store.Now(), op, ack);
          LookLeaves(store.options, s, store.Now(), op);
        } else {
          WriteActs(s, store.Now(), Entry(key, value, Kind.Put), ack, op);
        }
      case Drop(key) =>
        var status := store.Remove(key);
        ack := status.OK?;
        if key == [] {
          NothingActs(s, store.Now(), op, ack);
          LookLeaves(store.options, s, store.Now(), op);
        } else {
          WriteActs(s, store.Now(), Entry(key, [], Tombstone), ack, op);
        }
    }
  }

  method ActNow(store: KVStore, op: Op, ghost s: State) returns (ack: bool, answer: Option<Value>)
    requires store.Valid() && store.isOpen && Room(store.options, store.Now()) && Writable(op) && !op.Reopen?
    requires Standing(s) && store.Now() == Marked(s)
    modifies store, store.fs, store.memtable, store.wal, store.sstables
    ensures store.Valid() && store.isOpen && Acted(s, store.Now(), op, ack)
    ensures !op.Look? || store.fs.failures == old(store.fs.failures) ==>
      answer == PlainAnswer(old(store.View()), op)
    ensures !MayCompact(store.options, |old(store.book.names)|, op) ==> store.book.compactions == old(store.book.compactions)
    ensures forall i :: 0 <= i < |store.sstables| ==> store.sstables[i] in old(store.sstables) || fresh(store.sstables[i])
    ensures ack || EmptyKey(op) ==> Leaves(store.options, Marked(s), store.Now(), op) && StaysSettled(Marked(s), store.Now())
  {
    hide Standing, Writes, KeepsView, Room, AllHold, ViewOf, HeldKeys, Visible, Acted, ServesPart, AnswersPast, TotalSize,
      WriteLeaves, Flushed, StaysSettled;
    answer := None;
    match op {
      case Set(_, _) =>
        ack := ActWrite(store, op, s);
      case Drop(_) =>
        ack := ActWrite(store, op, s);
      case Look(key) =>
        var status, value := store.Get(key);
        ack := true;
        answer := if status.OK? then Some(value) else None;
        NothingActs(s, store.Now(), op, ack);
        LookLeaves(store.options, s, store.Now(), op);
      case FlushAll =>
        var status := store.Flush();
        ack := status.OK?;
        KeepActs(s, store.Now(), ack, op);
      case CompactAll =>
        var status := store.Compact();
        ack := status.OK?;
        KeepActs(s, store.Now(), ack, op);
    }
  }

  lemma SameRoom(options: Options, s: State)
    requires Standing(s) && Room(options, s)
    ensures Standing(Marked(s)) && Room(options, Marked(s))
  {
    hide Standing, HeldKeys, Roomy;
    MarkedSame(s);
  }

  /** Runs one operation of a store in working order, with a record of its own crashes, and
      reports whether the file system refused nothing. */
  method Perform(store: KVStore, op: Op) returns (ok: bool, answer: Option<Value>)
    requires store.Valid() && store.isOpen && Good(store.Now()) && Room(store.options, store.Now()) && Within(op)
    modifies store, store.fs, store.memtable, store.wal, store.sstables
    ensures Onward(old(store.Now()), store.Now())
    ensures ok <==> store.fs.failures == old(store.fs.failures) && store.fs.ignored == old(store.fs.ignored)
    ensures ok ==> store.Valid() && store.isOpen && Smooth(old(store.Now()), store.Now(), op)
    ensures ok ==> answer == PlainAnswer(old(store.View()), op)
    ensures StepRecovers(old(store.Now()), store.Now(), old(store.View()), Apply(old(store.View()), op))
    ensures !MayCompact(store.options, |old(store.book.names)|, op) ==> store.book.compactions == old(store.book.compactions)
    ensures forall i :: 0 <= i < |store.sstables| ==> store.sstables[i] in old(store.sstables) || fresh(store.sstables[i])
    ensures ok && |old(store.book.names)| <= MaxTables(store.options) ==> |store.book.names| <= MaxTables(store.options)
    ensures ok && Settled(old(store.Now())) ==>
      Leaves(store.options, old(store.Now()), store.Now(), op) && Settled(store.Now())
  {
    hide Standing, Good, Smooth, Room, StepRecovers, AllHold, ViewOf, Acted, Leaves, Settled;
    ghost var s := store.Now();
    var failures, ignored := store.fs.failures, store.fs.ignored;
    if op.Reopen? {
      answer := None;
      PerformReopen(store);
      ok := store.fs.failures == failures && store.fs.ignored == ignored;
    } else {
      WithinWritable(op);
      var ack;
      ack, answer := Act(store, op);
      ok := store.fs.failures == failures && store.fs.ignored == ignored;
      ActedParts(s, store.Now(), op, ack);
      if ok {
        ActedSmooth(s, store.Now(), op, ack);
        LeavesFew(store.options, s, store.Now(), op);
      }
    }
  }

  lemma WithinWritable(op: Op)
    requires Within(op)
    ensures Writable(op)
  {
  }

  lemma ActedParts(s: State, t: State, op: Op, ack: bool)
    requires Good(s) && Acted(s, t, op, ack) && Within(op)
    ensures Onward(s, t) && StepRecovers(s, t, ViewOf(s), Apply(ViewOf(s), op))
    ensures t.failures == s.failures ==> ack || EmptyKey(op)
    ensures t.ignored == s.ignored ==> t.shorts == s.shorts
  {
    hide Standing, Agrees, ViewOf, HeldKeys, StoredKeys, StepRecovers, LogOf;
  }

  method PerformReopen(store: KVStore)
    requires store.Valid() && store.isOpen && Good(store.Now())
    modifies store, store.fs, store.memtable, store.wal
    ensures store.fs.failures >= old(store.fs.failures) && store.fs.ignored == old(store.fs.ignored)
    ensures SameCounts(old(store.book), store.book)
    ensures store.fs.failures == old(store.fs.failures) ==>
      store.Valid() && store.isOpen && Smooth(old(store.Now()), store.Now(), Reopen)
    ensures StepRecovers(old(store.Now()), store.Now(), old(store.View()), old(store.View()))
    ensures forall i :: 0 <= i < |store.sstables| ==> fresh(store.sstables[i])
    ensures store.fs.failures == old(store.fs.failures) ==> |store.book.names| <= |old(store.book.names)|
    ensures store.fs.failures == old(store.fs.failures) && Settled(old(store.Now())) ==>
      Leaves(store.options, old(store.Now()), store.Now(), Reopen) && Settled(store.Now())
  {
    hide Standing, Good, Smooth, StepRecovers, AllHold, ViewOf, TotalSize, Recovers, Taken, RecoveredView, SomeBad,
      LogOf, OpenedFrom, Settled, Leaves;
    ghost var s := store.Now();
    OpenReady(s);
    StartCuts(store);
    store.Close();
    var status := store.Open("db");
    ReopenCuts(s, store.Now());
    if store.fs.failures == s.failures {
      ReopenSmooth(s, store.Now());
      if Settled(s) {
        ReopenRests(store.options, s, store.Now());
      }
    }
  }

  // ---------- whole runs ----------

  /** The plain map after the first i operations. */
  function At(view: map<Key, Value>, script: seq<Op>, i: nat): map<Key, Value>
    requires i <= |script|
  {
    Plain(view, script[..i])
  }

  lemma AtNext(view: map<Key, Value>, script: seq<Op>, i: nat)
    requires i < |script|
    ensures At(view, script, i + 1) == Apply(At(view, script, i), script[i])
    ensures KeysIn(script[..i + 1]) == KeysIn(script[..i]) + KeyOf(script[i])
  {
    assert script[..i + 1][..i] == script[..i];
  }

  lemma AtEnds(view: map<Key, Value>, script: seq<Op>)
    ensures At(view, script, 0) == view && At(view, script, |script|) == Plain(view, script)
    ensures KeysIn(script[..0]) == {}
  {
    assert script[..0] == [] && script[..|script|] == script;
  }

  /** The i-th operation of a run leads from one state to the next, and wherever it is cut,
      recovery sees the operations acknowledged by then, or those and the one under way: exactly
      so unless the operation itself runs a compaction. */
  ghost predicate StepOf(options: Options, s: State, t: State, view: map<Key, Value>, script: seq<Op>, i: nat)
    requires i < |script|
  {
    && Onward(s, t)
    && (!MayCompact(options, |s.names|, script[i]) ==> t.compactions == s.compactions)
    && StepRecovers(s, t, At(view, script, i), At(view, script, i + 1))
  }

  /** The states before each operation, and the last one; the crashes in each are those of the
      operation before it. */
  ghost predicate Traced(options: Options, trace: seq<State>, view: map<Key, Value>, script: seq<Op>)
  {
    && 1 <= |trace| <= |script| + 1
    && forall i :: 0 <= i < |trace| - 1 ==> StepOf(options, trace[i], trace[i + 1], view, script, i)
  }

  lemma TraceStarts(options: Options, s: State, view: map<Key, Value>, script: seq<Op>)
    ensures Traced(options, [s], view, script)
  {
  }

  lemma TraceGrows(options: Options, trace: seq<State>, t: State, view: map<Key, Value>, script: seq<Op>)
    requires Traced(options, trace, view, script) && |trace| <= |script|
    requires var i, s := |trace| - 1, trace[|trace| - 1];
             && Onward(s, t) && (!MayCompact(options, |s.names|, script[i]) ==> t.compactions == s.compactions)
             && StepRecovers(s, t, At(view, script, i), Apply(At(view, script, i), script[i]))
    ensures Traced(options, trace + [t], view, script)
  {
    hide At, Apply, StepRecovers, MayCompact, KeysIn;
    AtNext(view, script, |trace| - 1);
  }

  // ---------- how many tables a run leaves ----------

  /** Each of the first n operations left what it says; and at every point until then the manifest
      lists the tables being read, and no other file has been left behind. */
  ghost predicate Left(options: Options, trace: seq<State>, script: seq<Op>, n: nat)
  {
    && n < |trace| && n <= |script|
    && (forall i :: 0 <= i < n ==> Leaves(options, trace[i], trace[i + 1], script[i]))
    && (forall i :: 0 <= i <= n ==> Settled(trace[i]))
  }

  /** The operation writes a memtable that is not empty to a table. */
  predicate Flushes(options: Options, s: State, op: Op)
  {
    && s.unflushed != map[]
    && match op
       case Set(key, _) => key != [] && TotalSize(s.unflushed) >= options.memtableThreshold
       case Drop(key) => key != [] && TotalSize(s.unflushed) >= options.memtableThreshold
       case FlushAll => true
       case _ => false
  }

  /** How many of the first n operations flush. */
  function FlushCount(options: Options, trace: seq<State>, script: seq<Op>, n: nat): nat
    requires n <= |trace| && n <= |script|
  {
    if n == 0 then 0 else
      FlushCount(options, trace, script, n - 1) + (if Flushes(options, trace[n - 1], script[n - 1]) then 1 else 0)
  }

  /** So many tables are left by k flushes, and so many compactions have run, each of as many tables as
      the threshold says, but of two at least. */
  ghost predicate TablesAfter(options: Options, k: nat, tables: nat, compactions: int)
  {
    var m := if options.compactionThreshold < 2 then 1 else options.compactionThreshold - 1;
    if k == 0 then tables == compactions == 0 else tables == (k - 1) % m + 1 && compactions == (k - 1) / m
  }

  lemma OneMoreFlush(options: Options, k: nat, tables: nat, compactions: int, tables': nat, more: int)
    requires TablesAfter(options, k, tables, compactions) && FlushLeaves(options, tables, tables', more)
    ensures TablesAfter(options, k + 1, tables', compactions + more)
  {
    var m := if options.compactionThreshold < 2 then 1 else options.compactionThreshold - 1;
    if k == 0 {
      ZeroDivided(m);
    } else {
      NextDivided(k - 1, m);
    }
  }

  lemma ZeroDivided(m: nat)
    requires m > 0
    ensures 0 % m == 0 && 0 / m == 0
  {
  }

  /** Quotient and remainder of the next number. */
  lemma NextDivided(v: nat, m: nat)
    requires m > 0
    ensures v % m + 1 <= m
    ensures if v % m + 1 < m then (v + 1) % m == v % m + 1 && (v + 1) / m == v / m
            else (v + 1) % m == 0 && (v + 1) / m == v / m + 1
  {
    var q, r := v / m, v % m;
    assert v == q * m + r;
    if r + 1 < m {
      DivideExactly(q, r + 1, m);
      assert v + 1 == q * m + (r + 1);
    } else {
      DivideExactly(q + 1, 0, m);
      assert (q + 1) * m == q * m + m;
    }
  }

  lemma LeftByOne(options: Options, s: State, t: State, op: Op)
    requires Leaves(options, s, t, op) && !op.CompactAll?
    ensures if Flushes(options, s, op) then FlushLeaves(options, |s.names|, |t.names|, t.compactions - s.compactions)
            else t.names == s.names && t.compactions == s.compactions
  {
    hide TotalSize;
  }

  /** The number of tables depends on the number of flushes only: every threshold-many tables become
      one, in a compaction. */
  lemma {:induction false} TablesOfRun(options: Options, trace: seq<State>, script: seq<Op>, n: nat)
    requires Left(options, trace, script, n) && trace[0].names == []
    requires forall i :: 0 <= i < n ==> !script[i].CompactAll?
    ensures TablesAfter(options, FlushCount(options, trace, script, n), |trace[n].names|,
                        trace[n].compactions - trace[0].compactions)
  {
    hide Leaves, TablesAfter, Flushes, FlushLeaves;
    if n == 0 {
      NoFlush(options);
    } else {
      TablesOfRun(options, trace, script, n - 1);
      var s, t := trace[n - 1], trace[n];
      LeftByOne(options, s, t, script[n - 1]);
      if Flushes(options, s, script[n - 1]) {
        OneMoreFlush(options, FlushCount(options, trace, script, n - 1), |s.names|, s.compactions - trace[0].compactions,
                     |t.names|, t.compactions - s.compactions);
      }
    }
  }

  lemma NoFlush(options: Options)
    ensures TablesAfter(options, 0, 0, 0)
  {
  }

  lemma HeldAreStored(s: State)
    requires Standing(s)
    ensures HeldKeys(s) <= StoredKeys(s)
  {
    hide HeldKeys, LoggedLayer, Standing;
  }

  lemma RoomInRun(options: Options, s0: State, s: State, script: seq<Op>, i: nat)
    requires Standing(s0) && Standing(s) && i <= |script|
    requires Roomy(options, |StoredKeys(s0) + KeysIn(script)|)
    requires StoredKeys(s) <= StoredKeys(s0) + KeysIn(script[..i])
    ensures Room(options, s)
  {
    hide Roomy, Standing, HeldKeys, StoredKeys;
    KeysInPrefix(script, i);
    HeldAreStored(s);
    FewerKeys(options, HeldKeys(s), StoredKeys(s0) + KeysIn(script));
  }

  lemma SmoothParts(s: State, t: State, op: Op)
    requires Smooth(s, t, op)
    ensures Good(t) && Standing(t) && Standing(s) && ViewOf(t) == Apply(ViewOf(s), op)
    ensures StoredKeys(t) <= StoredKeys(s) + KeyOf(op)
  {
    hide ViewOf, StoredKeys, Agrees, CleanLog;
  }

  /** Runs a script until it ends or the file system refuses something. Every answer is that of a
      plain map; and whenever a crash cuts the run, during any operation, recovery sees exactly
      the operations acknowledged by then, or those and the one under way. The exception is a
      crash in the deletions of a compaction, while that compaction runs. */
  method Run(store: KVStore, script: seq<Op>) returns (answers: seq<Option<Value>>, ghost trace: seq<State>)
    requires store.Valid() && store.isOpen && Good(store.Now())
    requires forall op :: op in script ==> Within(op)
    requires Roomy(store.options, |StoredKeys(store.Now()) + KeysIn(script)|)
    modifies store, store.fs, store.memtable, store.wal, store.sstables
    ensures |answers| <= |script| && |trace| == (if |answers| < |script| then |answers| + 2 else |answers| + 1)
    ensures trace[0] == old(store.Now()) && trace[|trace| - 1] == store.Now()
    ensures Traced(store.options, trace, old(store.View()), script)
    ensures |answers| == |script| <==> store.fs.failures == old(store.fs.failures) && store.fs.ignored == old(store.fs.ignored)
    ensures forall i :: 0 <= i < |answers| ==> answers[i] == PlainAnswer(At(old(store.View()), script, i), script[i])
    ensures |answers| == |script| ==>
      && store.Valid() && store.isOpen && Good(store.Now())
      && store.View() == Plain(old(store.View()), script)
      && (|old(store.book.names)| <= MaxTables(store.options) ==> |store.book.names| <= MaxTables(store.options))
    ensures Settled(old(store.Now())) ==> Left(store.options, trace, script, |answers|)
  {
    hide Standing, Good, Smooth, Room, Roomy, StepRecovers, AllHold, ViewOf, StoredKeys, At, Within, Traced,
      Plain, Apply, PlainAnswer, KeysIn, MayCompact, MaxTables, Settled, Leaves;
    ghost var s0, v0 := store.Now(), store.View();
    answers, trace := [], [s0];
    AtEnds(v0, script);
    TraceStarts(store.options, s0, v0, script);
    for i := 0 to |script|
      invariant |answers| == i && |trace| == i + 1 && trace[0] == s0 && trace[i] == store.Now()
      invariant store.fs.failures == s0.failures && store.fs.ignored == s0.ignored
      invariant store.Valid() && store.isOpen && Good(store.Now())
      invariant forall i :: 0 <= i < |store.sstables| ==> store.sstables[i] in old(store.sstables) || fresh(store.sstables[i])
      invariant store.View() == At(v0, script, i)
      invariant StoredKeys(store.Now()) <= StoredKeys(s0) + KeysIn(script[..i])
      invariant forall j :: 0 <= j < i ==> answers[j] == PlainAnswer(At(v0, script, j), script[j])
      invariant |s0.names| <= MaxTables(store.options) ==> |store.book.names| <= MaxTables(store.options)
      invariant Traced(store.options, trace, v0, script)
      invariant Settled(s0) ==> Settled(store.Now()) && Left(store.options, trace, script, i)
    {
      ghost var s := store.Now();
      RoomInRun(store.options, s0, s, script, i);
      AtNext(v0, script, i);
      var ok, answer := Perform(store, script[i]);
      TraceGrows(store.options, trace, store.Now(), v0, script);
      trace := trace + [store.Now()];
      if !ok {
        return;
      }
      SmoothParts(s, store.Now(), script[i]);
      answers := answers + [answer];
    }
  }

  // ---------- runs that go on after refusals ----------

  /** What the acknowledged operations alone do to a plain map. */
  function Acked(view: map<Key, Value>, script: seq<Op>, acks: seq<bool>): map<Key, Value>
    requires |acks| == |script|
  {
    if script == [] then view else
      var n := |script| - 1;
      var before := Acked(view, script[..n], acks[..n]);
      if acks[n] then Apply(before, script[n]) else before
  }

  lemma AckedNext(view: map<Key, Value>, script: seq<Op>, acks: seq<bool>, ack: bool)
    requires |acks| < |script|
    ensures var i := |acks|;
            Acked(view, script[..i + 1], acks + [ack])
            == if ack then Apply(Acked(view, script[..i], acks), script[i]) else Acked(view, script[..i], acks)
    ensures KeysIn(script[..|acks| + 1]) == KeysIn(script[..|acks|]) + KeyOf(script[|acks|])
  {
    assert script[..|acks| + 1][..|acks|] == script[..|acks|];
    assert (acks + [ack])[..|acks|] == acks;
  }

  lemma {:induction false} AckedAll(view: map<Key, Value>, script: seq<Op>, acks: seq<bool>)
    requires |acks| == |script| && forall i :: 0 <= i < |acks| ==> acks[i] || EmptyKey(script[i])
    ensures Acked(view, script, acks) == Plain(view, script)
  {
    if script != [] {
      var n := |script| - 1;
      AckedAll(view, script[..n], acks[..n]);
      if !acks[n] {
        OnlyLooked(Acked(view, script[..n], acks[..n]), script[n]);
      }
    }
  }

  /** The map after the first i operations, as far as they were acknowledged. */
  function AckedAt(view: map<Key, Value>, script: seq<Op>, acks: seq<bool>, i: nat): map<Key, Value>
    requires i <= |acks| <= |script|
  {
    Acked(view, script[..i], acks[..i])
  }

  /** No refusal so far goes beyond what a safe store takes: none went unnoticed, and if any was
      noticed, no compaction has deleted inputs. */
  predicate Steady(s0: State, s: State)
  {
    s.ignored == s0.ignored && !s.lost && (s.failures == s0.failures || s.compactions == s0.compactions)
  }

  /** The map and the answers are those of the acknowledged operations, unless tables are lost. */
  ghost predicate AnsweredSoFar(s0: State, s: State, script: seq<Op>, acks: seq<bool>, answers: seq<Option<Value>>, clear: seq<bool>)
  {
    && Standing(s0) && Standing(s) && Onward(s0, s) && |acks| == |answers| == |clear| <= |script|
    && HeldKeys(s) <= HeldKeys(s0) + KeysIn(script[..|acks|])
    && (!s.lost ==>
          && ViewOf(s) == Acked(ViewOf(s0), script[..|acks|], acks)
          && forall i :: 0 <= i < |acks| && clear[i] ==> answers[i] == PlainAnswer(AckedAt(ViewOf(s0), script, acks, i), script[i]))
  }

  /** Without refusals everything is acknowledged, and the number of tables stays bounded. */
  ghost predicate QuietSoFar(s0: State, s: State, script: seq<Op>, acks: seq<bool>, clear: seq<bool>, most: nat)
  {
    s.failures == s0.failures && s.ignored == s0.ignored && Working(s0) ==>
      && Working(s) && |acks| == |clear| <= |script|
      && (forall i :: 0 <= i < |acks| ==> clear[i] && (acks[i] || EmptyKey(script[i])))
      && (s.lost ==> s0.lost)
      && (|s0.names| <= most ==> |s.names| <= most)
  }

  /** From a safe start, as long as the run is steady the disk is safe before each operation, and
      wherever the operation is cut, recovery sees the operations acknowledged by then, or those
      and the one under way. */
  ghost predicate SafeSoFar(s0: State, s: State, script: seq<Op>, acks: seq<bool>, trace: seq<State>)
  {
    && |acks| <= |script| && |trace| == |acks| + 1 && trace[0] == s0 && trace[|acks|] == s
    && (Standing(s0) && Safe(s0) && CleanLog(s0) && (forall op :: op in script ==> Within(op)) ==>
          && (Steady(s0, s) ==> Safe(s) && CleanLog(s))
          && forall i :: 0 <= i < |acks| && Steady(s0, trace[i]) ==> StepAcked(trace[i], trace[i + 1], ViewOf(s0), script, acks, i))
  }

  /** Each acknowledged operation left what it says. */
  ghost predicate LeftSoFar(options: Options, script: seq<Op>, acks: seq<bool>, trace: seq<State>)
  {
    && |acks| < |trace| && |acks| <= |script|
    && (forall i :: 0 <= i < |acks| ==> trace[i].ignored <= trace[i + 1].ignored)
    && forall i :: 0 <= i < |acks| && (acks[i] || EmptyKey(script[i])) ==>
         Leaves(options, trace[i], trace[i + 1], script[i]) && StaysSettled(trace[i], trace[i + 1])
  }

  lemma StillLeft(options: Options, script: seq<Op>, acks: seq<bool>, ack: bool, trace: seq<State>, t: State)
    requires LeftSoFar(options, script, acks, trace) && |acks| < |script| && |trace| == |acks| + 1
    requires trace[|acks|].ignored <= t.ignored
    requires ack || EmptyKey(script[|acks|]) ==>
      Leaves(options, trace[|acks|], t, script[|acks|]) && StaysSettled(trace[|acks|], t)
    ensures LeftSoFar(options, script, acks + [ack], trace + [t])
  {
    hide Leaves, EmptyKey, StaysSettled;
  }

  lemma IgnoredOnly(s: State, t: State, op: Op, ack: bool)
    requires Acted(s, t, op, ack)
    ensures s.ignored <= t.ignored
  {
    hide Standing, HeldKeys, StoredKeys, ViewOf, Agrees, LogOf, StepRecovers, Apply, Within;
  }

  lemma {:induction false} IgnoredRises(options: Options, script: seq<Op>, acks: seq<bool>, trace: seq<State>, i: nat, j: nat)
    requires LeftSoFar(options, script, acks, trace) && i <= j <= |acks|
    ensures trace[i].ignored <= trace[j].ignored
    decreases j - i
  {
    hide Leaves, EmptyKey, StaysSettled;
    if i < j {
      IgnoredRises(options, script, acks, trace, i + 1, j);
    }
  }

  lemma {:induction false} SettledUntil(options: Options, script: seq<Op>, acks: seq<bool>, trace: seq<State>, n: nat)
    requires LeftSoFar(options, script, acks, trace) && n <= |acks| && Settled(trace[0])
    requires (forall i :: 0 <= i < |acks| ==> acks[i] || EmptyKey(script[i])) && trace[|acks|].ignored == trace[0].ignored
    ensures Settled(trace[n])
  {
    hide Leaves, EmptyKey, Settled;
    if n > 0 {
      SettledUntil(options, script, acks, trace, n - 1);
      IgnoredRises(options, script, acks, trace, 0, n - 1);
      IgnoredRises(options, script, acks, trace, n - 1, n);
      IgnoredRises(options, script, acks, trace, n, |acks|);
    }
  }

  /** Without refusals every operation left what it says. */
  lemma AllLeft(options: Options, s0: State, s: State, script: seq<Op>, acks: seq<bool>, clear: seq<bool>, most: nat,
                trace: seq<State>)
    requires LeftSoFar(options, script, acks, trace) && QuietSoFar(s0, s, script, acks, clear, most)
    requires |acks| == |script| && Working(s0) && s.failures == s0.failures && s.ignored == s0.ignored
    requires trace[0] == s0 && trace[|script|] == s && Settled(s0)
    ensures Left(options, trace, script, |script|)
  {
    hide Leaves, EmptyKey, Settled, StaysSettled;
    forall n | 0 <= n <= |script|
      ensures Settled(trace[n])
    {
      SettledUntil(options, script, acks, trace, n);
    }
  }

  ghost predicate StepAcked(s: State, t: State, view: map<Key, Value>, script: seq<Op>, acks: seq<bool>, i: nat)
    requires i < |acks| <= |script|
  {
    StepRecovers(s, t, AckedAt(view, script, acks, i), Apply(AckedAt(view, script, acks, i), script[i]))
  }

  lemma RoomInSession(options: Options, s0: State, s: State, script: seq<Op>, acks: seq<bool>, answers: seq<Option<Value>>,
                      clear: seq<bool>)
    requires AnsweredSoFar(s0, s, script, acks, answers, clear) && Roomy(options, |HeldKeys(s0) + KeysIn(script)|)
    ensures Onward(s0, s) && Standing(s0) && Standing(s) && Room(options, s)
    ensures !s.lost ==> ViewOf(s) == Acked(ViewOf(s0), script[..|acks|], acks)
  {
    hide Roomy, Standing, HeldKeys, ViewOf, Acked, AckedAt, PlainAnswer, KeysIn;
    KeysInPrefix(script, |acks|);
    FewerKeys(options, HeldKeys(s), HeldKeys(s0) + KeysIn(script));
  }

  lemma SessionStart(options: Options, s: State, script: seq<Op>, most: nat)
    requires Standing(s)
    ensures LeftSoFar(options, script, [], [s])
    ensures AnsweredSoFar(s, s, script, [], [], []) && QuietSoFar(s, s, script, [], [], most)
    ensures SafeSoFar(s, s, script, [], [s])
  {
    hide Standing, HeldKeys, ViewOf, Agrees, LogOf, StepRecovers;
    assert script[..0] == [];
  }

  lemma StillAnswered(s0: State, s: State, t: State, script: seq<Op>, acks: seq<bool>, answers: seq<Option<Value>>,
                      clear: seq<bool>, ack: bool, answer: Option<Value>)
    requires AnsweredSoFar(s0, s, script, acks, answers, clear) && |acks| < |script|
    requires Acted(s, t, script[|acks|], ack)
    requires t.failures == s.failures ==> answer == PlainAnswer(ViewOf(s), script[|acks|])
    ensures AnsweredSoFar(s0, t, script, acks + [ack], answers + [answer], clear + [t.failures == s.failures])
  {
    hide Standing, HeldKeys, StoredKeys, ViewOf, Agrees, LogOf, StepRecovers, PlainAnswer, Acked, AckedAt, KeysIn, Apply,
      Within;
    AckedNext(ViewOf(s0), script, acks, ack);
    EarlierAcked(ViewOf(s0), script, acks, ack);
  }

  lemma StillQuiet(s0: State, s: State, t: State, script: seq<Op>, acks: seq<bool>, clear: seq<bool>, ack: bool, most: nat)
    requires QuietSoFar(s0, s, script, acks, clear, most) && Onward(s0, s) && |acks| == |clear| < |script|
    requires Acted(s, t, script[|acks|], ack)
    requires ack && |s.names| <= most ==> |t.names| <= most
    requires !ack && EmptyKey(script[|acks|]) ==> t.names == s.names
    ensures QuietSoFar(s0, t, script, acks + [ack], clear + [t.failures == s.failures], most)
  {
    hide Standing, HeldKeys, StoredKeys, ViewOf, Agrees, LogOf, StepRecovers, Apply, Within, EmptyKey;
  }

  lemma StillSafe(s0: State, s: State, t: State, script: seq<Op>, acks: seq<bool>, ack: bool, trace: seq<State>)
    requires SafeSoFar(s0, s, script, acks, trace) && Onward(s0, s) && |acks| < |script|
    requires Standing(s0) && Standing(s) && Acted(s, t, script[|acks|], ack)
    requires !s.lost ==> ViewOf(s) == Acked(ViewOf(s0), script[..|acks|], acks)
    ensures SafeSoFar(s0, t, script, acks + [ack], trace + [t])
  {
    hide HeldKeys, StoredKeys, ViewOf, Agrees, LogOf, StepRecovers, Apply, Acked, AckedAt, Within, Standing;
    EarlierAcked(ViewOf(s0), script, acks, ack);
    if Safe(s0) && CleanLog(s0) && (forall op :: op in script ==> Within(op)) {
      assert script[|acks|] in script;
      var more := trace + [t];
      forall i | 0 <= i < |acks| + 1 && Steady(s0, more[i])
        ensures StepAcked(more[i], more[i + 1], ViewOf(s0), script, acks + [ack], i)
      {
        if i < |acks| {
          assert StepAcked(trace[i], trace[i + 1], ViewOf(s0), script, acks, i);
        }
      }
    }
  }

  /** Runs a script without closing to its end, whatever the file system refuses, on any open
      store: after a crash that left a torn log, with records too large for a replay, with a
      broken stream. Unless tables are lost, every answer is that of a plain map that takes the
      acknowledged operations and no others; only a look-up during which a table could not be read
      may differ. On a store that starts out safe, as long as refusals go no further than a steady
      store takes, the disk stays safe, and a crash during any operation recovers to the
      operations acknowledged by then, or those and the one under way. */
  method Session(store: KVStore, script: seq<Op>)
    returns (acks: seq<bool>, answers: seq<Option<Value>>, clear: seq<bool>, ghost trace: seq<State>)
    requires store.Valid() && store.isOpen
    requires forall op :: op in script ==> Writable(op) && !op.Reopen?
    requires Roomy(store.options, |HeldKeys(store.Now()) + KeysIn(script)|)
    modifies store, store.fs, store.memtable, store.wal, store.sstables
    ensures store.Valid() && store.isOpen && |acks| == |script|
    ensures AnsweredSoFar(old(store.Now()), store.Now(), script, acks, answers, clear)
    ensures QuietSoFar(old(store.Now()), store.Now(), script, acks, clear, MaxTables(store.options))
    ensures SafeSoFar(old(store.Now()), store.Now(), script, acks, trace)
    ensures LeftSoFar(store.options, script, acks, trace)
  {
    hide Standing, Room, Roomy, AllHold, ViewOf, HeldKeys, PlainAnswer, KeysIn, Acted, Writable, AnsweredSoFar, QuietSoFar,
      SafeSoFar, LeftSoFar, MayCompact, MaxTables, Leaves, EmptyKey, StaysSettled;
    ghost var s0 := store.Now();
    acks, answers, clear, trace := [], [], [], [s0];
    SessionStart(store.options, s0, script, MaxTables(store.options));
    for i := 0 to |script|
      invariant |acks| == |answers| == |clear| == i
      invariant store.Valid() && store.isOpen
      invariant forall i :: 0 <= i < |store.sstables| ==> store.sstables[i] in old(store.sstables) || fresh(store.sstables[i])
      invariant AnsweredSoFar(s0, store.Now(), script, acks, answers, clear)
      invariant QuietSoFar(s0, store.Now(), script, acks, clear, MaxTables(store.options))
      invariant SafeSoFar(s0, store.Now(), script, acks, trace)
      invariant LeftSoFar(store.options, script, acks, trace) && |trace| == i + 1 && trace[i] == store.Now()
    {
      ghost var s := store.Now();
      var before := store.fs.failures;
      RoomInSession(store.options, s0, s, script, acks, answers, clear);
      var ack, answer := Act(store, script[i]);
      if ack || EmptyKey(script[i]) {
        LeavesFew(store.options, s, store.Now(), script[i]);
      }
      IgnoredOnly(s, store.Now(), script[i], ack);
      StillLeft(store.options, script, acks, ack, trace, store.Now());
      StillAnswered(s0, s, store.Now(), script, acks, answers, clear, ack, answer);
      StillQuiet(s0, s, store.Now(), script, acks, clear, ack, MaxTables(store.options));
      StillSafe(s0, s, store.Now(), script, acks, ack, trace);
      acks, answers, clear := acks + [ack], answers + [answer], clear + [store.fs.failures == before];
      trace := trace + [store.Now()];
    }
  }

  lemma EarlierAcked(view: map<Key, Value>, script: seq<Op>, acks: seq<bool>, ack: bool)
    requires |acks| < |script|
    ensures forall j :: 0 <= j < |acks| ==> AckedAt(view, script, acks + [ack], j) == AckedAt(view, script, acks, j)
    ensures AckedAt(view, script, acks + [ack], |acks|) == Acked(view, script[..|acks|], acks)
  {
    hide Acked;
    assert forall j :: 0 <= j <= |acks| ==> (acks + [ack])[..j] == acks[..j];
    assert acks[..|acks|] == acks;
  }

  // ---------- from an empty directory ----------

  /** At every point of the run the manifest lists the tables being read, and the directory holds
      nothing but these, the manifest and the log. */
  ghost predicate NothingLeftBehind(trace: seq<State>)
  {
    forall i :: 0 <= i < |trace| ==> Settled(trace[i])
  }

  /** At every point of the run the number of tables and of compactions is that of the flushes so far. */
  ghost predicate TablesCounted(options: Options, trace: seq<State>, script: seq<Op>)
  {
    && |trace| == |script| + 1
    && forall n :: 0 <= n <= |script| ==>
         TablesAfter(options, FlushCount(options, trace, script, n), |trace[n].names|, trace[n].compactions)
  }

  lemma CountTables(options: Options, trace: seq<State>, script: seq<Op>)
    requires |trace| == |script| + 1 && Left(options, trace, script, |script|) && CompactAll !in script
    requires trace[0].names == [] && trace[0].compactions == 0
    ensures TablesCounted(options, trace, script)
  {
    hide Leaves, TablesAfter, FlushCount, Left;
    forall n | 0 <= n <= |script|
      ensures TablesAfter(options, FlushCount(options, trace, script, n), |trace[n].names|, trace[n].compactions)
    {
      CountAt(options, trace, script, n);
    }
  }

  lemma CountAt(options: Options, trace: seq<State>, script: seq<Op>, n: nat)
    requires |trace| == |script| + 1 && Left(options, trace, script, |script|) && CompactAll !in script && n <= |script|
    requires trace[0].names == [] && trace[0].compactions == 0
    ensures TablesAfter(options, FlushCount(options, trace, script, n), |trace[n].names|, trace[n].compactions)
  {
    hide Leaves, TablesAfter, FlushCount;
    assert forall i :: 0 <= i < n ==> script[i] in script;
    TablesOfRun(options, trace, script, n);
  }

  lemma EmptyDisk()
    ensures Recovers(map[]) && Whole(map[]) && RecoveredView(map[]) == map[] && LogOf(map[]).outcome.Clean?
    ensures Present(map[], Listed(map[])) == [] && LoggedLayer(map[]) == map[]
  {
    assert Numbered([], 0);
  }

  lemma EmptyKeys(t: State)
    requires Standing(t) && Taken(t) && t.disk == map[WAL := []]
    ensures HeldKeys(t) == StoredKeys(t) == {} && t.names == [] && Settled(t)
  {
    EmptyLog();
    assert Listed(t.disk) == [];
    assert TablesOf(t.disk, t.names) == [];
  }

  /** A new store in an empty directory behaves like a plain map that starts empty. Records too
      large for a replay are fine as long as the script does not close the store. A crash while
      the store is being opened leaves nothing to recover; a crash during any operation recovers
      to the operations acknowledged by then, or those and the one under way. */
  method RunFromEmpty(options: Options, script: seq<Op>)
    returns (store: KVStore, answers: seq<Option<Value>>, ghost trace: seq<State>)
    requires forall op :: op in script ==> Writable(op)
    requires Reopen in script ==> forall op :: op in script ==> Within(op)
    requires Roomy(options, |KeysIn(script)|)
    ensures store.fs.failures == 0 && store.fs.ignored == 0 ==>
      && |answers| == |script| && |trace| == |script| + 1
      && (forall i :: 0 <= i < |answers| ==> answers[i] == PlainAnswer(At(map[], script, i), script[i]))
      && store.Valid() && store.isOpen && store.View() == Plain(map[], script)
      && |store.book.names| <= MaxTables(options)
    ensures |answers| <= |script| && |trace| >= 1 && trace[|trace| - 1] == store.Now()
    ensures forall d :: d in trace[0].crashes ==> Exact(d, map[], map[])
    ensures (forall op :: op in script ==> Within(op)) ==> Traced(options, trace, map[], script)
    ensures store.fs.failures == 0 && store.fs.ignored == 0 ==> NothingLeftBehind(trace)
    ensures store.fs.failures == 0 && store.fs.ignored == 0 && CompactAll !in script ==> TablesCounted(options, trace, script)
  {
    hide TablesCounted, NothingLeftBehind, LeftSoFar, Left, Settled, Standing, Good, Roomy, AllHold, ViewOf, StoredKeys, HeldKeys,
      At, Within, Traced, Plain, PlainAnswer, KeysIn,
      Exact, AnsweredSoFar, QuietSoFar, SafeSoFar, Writable, Safe;
    answers := [];
    var status;
    status, store := OpenEmpty(options);
    ghost var s := store.Now();
    trace := [s];
    TraceStarts(options, s, map[], script);
    if !status.OK? {
      return;
    }
    assert StoredKeys(s) + KeysIn(script) == HeldKeys(s) + KeysIn(script) == KeysIn(script);
    if forall op :: op in script ==> Within(op) {
      answers, trace := Run(store, script);
      if store.fs.failures == 0 && store.fs.ignored == 0 {
        LeftTidy(options, trace, script);
        if CompactAll !in script {
          CountTables(options, trace, script);
        }
      }
    } else {
      var acks, clear;
      acks, answers, clear, trace := Session(store, script);
      SessionCounts(s, store.Now(), script, acks, answers, clear, trace);
      if store.fs.failures == 0 && store.fs.ignored == 0 {
        QuietSession(s, store.Now(), script, acks, answers, clear, MaxTables(options));
        AllLeft(options, s, store.Now(), script, acks, clear, MaxTables(options), trace);
        LeftTidy(options, trace, script);
        if CompactAll !in script {
          CountTables(options, trace, script);
        }
      }
    }
  }

  lemma LeftTidy(options: Options, trace: seq<State>, script: seq<Op>)
    requires |trace| == |script| + 1 && Left(options, trace, script, |script|)
    ensures NothingLeftBehind(trace)
  {
    hide Leaves, Settled;
  }

  /** A new store in an empty directory. */
  method OpenEmpty(options: Options) returns (status: Status, store: KVStore)
    ensures fresh(store) && fresh(store.fs) && fresh(store.memtable) && fresh(store.wal)
    ensures forall i :: 0 <= i < |store.sstables| ==> fresh(store.sstables[i])
    ensures store.options == options
    ensures status.OK? <==> store.fs.failures == 0
    ensures forall d :: d in store.fs.crashes ==> Exact(d, map[], map[])
    ensures status.OK? ==>
      && store.fs.ignored == 0 && store.Valid() && store.isOpen && Good(store.Now()) && Standing(store.Now())
      && Working(store.Now()) && !store.book.lost
      && store.View() == map[] && HeldKeys(store.Now()) == StoredKeys(store.Now()) == {} && store.book.names == []
      && store.book.compactions == 0 && Settled(store.Now())
  {
    hide Standing, Good, AllHold, ViewOf, StoredKeys, HeldKeys, Recovers, RecoveredView, Whole, Taken, LogOf, SomeBad, Exact,
      Present, OpenedFrom;
    var fs := new FileSystem(map[]);
    store := new KVStore(fs, options);
    EmptyDisk();
    EmptySafe();
    status := store.Open("db");
    if fs.failures == 0 {
      OpenedSafe(map[], store.Now());
      EmptyKeys(store.Now());
      GoodParts(store.Now());
    } else {
      status := IOError;
    }
  }

  lemma SessionCounts(s0: State, s: State, script: seq<Op>, acks: seq<bool>, answers: seq<Option<Value>>, clear: seq<bool>,
                      trace: seq<State>)
    requires AnsweredSoFar(s0, s, script, acks, answers, clear) && SafeSoFar(s0, s, script, acks, trace)
    ensures |answers| == |acks| && |trace| == |acks| + 1 && trace[0] == s0 && trace[|acks|] == s
  {
    hide Standing, HeldKeys, ViewOf, Acked, AckedAt, Safe, StepAcked;
  }

  lemma GoodParts(s: State)
    requires Good(s)
    ensures Working(s) && !s.lost && Standing(s)
  {
    hide Agrees, LogOf, Standing;
  }

  /** A session without refusals is a plain run. */
  lemma QuietSession(s0: State, s: State, script: seq<Op>, acks: seq<bool>, answers: seq<Option<Value>>, clear: seq<bool>, most: nat)
    requires AnsweredSoFar(s0, s, script, acks, answers, clear) && QuietSoFar(s0, s, script, acks, clear, most)
    requires |acks| == |script| && Working(s0) && !s0.lost && s.failures == s0.failures && s.ignored == s0.ignored
    ensures Standing(s0) && Standing(s) && ViewOf(s) == Plain(ViewOf(s0), script)
    ensures |answers| == |script|
    ensures forall i :: 0 <= i < |answers| ==> answers[i] == PlainAnswer(At(ViewOf(s0), script, i), script[i])
    ensures |s0.names| <= most ==> |s.names| <= most
  {
    hide Acked, Plain, ViewOf, HeldKeys, PlainAnswer, Standing, EmptyKey, KeysIn;
    assert script[..|script|] == script;
    AckedAll(ViewOf(s0), script, acks);
    forall i | 0 <= i < |answers|
      ensures answers[i] == PlainAnswer(At(ViewOf(s0), script, i), script[i])
    {
      AckedAll(ViewOf(s0), script[..i], acks[..i]);
    }
  }

  lemma EmptySafe()
    ensures Exact(map[], map[], map[]) && Exact(map[WAL := []], map[], map[])
  {
    hide RecoveredView, Recovers, Whole;
    EmptyDisk();
    LogCreated(map[], map[WAL := []]);
  }

  // ---------- after a crash ----------

  /** What is served after a crash during a step from one map to another. */
  ghost predicate Served(got: map<Key, Value>, d: Disk, from: map<Key, Value>, to: map<Key, Value>, cuts: iset<Disk>, w: Window)
  {
    || got == from || got == to
    || (!w.Shut? && InWindow(d, from, cuts, w.Orderly?) && (w.Orderly? ==> Submap(got, from)))
  }

  /** Opening whatever a crash during an operation has left serves the map before the operation or
      after it, or, in the deletions of a compaction, what the tables left by then show, which is
      a part of the map before it if no deletion was refused. Without missing tables the store is
      safe again, and if the log has no torn tail either, it is as good as new. */
  method RecoverFrom(d: Disk, options: Options, ghost s: State, ghost t: State, ghost from: map<Key, Value>, ghost to: map<Key, Value>)
    returns (store: KVStore)
    requires StepRecovers(s, t, from, to) && t.shorts == s.shorts && d in t.crashes
    ensures store.fs.failures == 0 ==>
      && store.Valid() && store.isOpen && Served(store.View(), d, from, to, t.crashes, WindowOf(s, t))
      && (Whole(d) ==> Safe(store.Now()))
      && (Whole(d) && LogOf(d).outcome.Clean? ==> Good(store.Now()))
  {
    hide Standing, Good, AllHold, ViewOf, StoredKeys, RecoveredView, Whole, Taken, LogOf, SomeBad, Submap,
      Readable, Safe, OpenedFrom, CrashSafe, InWindow, Recovers, Exact;
    CrashSafeRecovers(d, from, to, t.crashes, WindowOf(s, t));
    var fs := new FileSystem(d);
    store := new KVStore(fs, options);
    var status := store.Open("db");
    if store.fs.failures == 0 {
      OpenedSafe(d, store.Now());
    }
  }

  lemma OpenedSafe(d0: Disk, t: State)
    requires Recovers(d0) && Standing(t) && Taken(t)
    requires t.disk == if WAL in d0 then d0 else d0[WAL := []]
    ensures Whole(d0) ==> Safe(t)
    ensures Whole(d0) && LogOf(d0).outcome.Clean? ==> Good(t)
  {
    hide Standing, Recovers, RecoveredView, LogOf, Listed, Agrees, ViewOf, Present, Whole;
    LogCreated(d0, t.disk);
    Opened(t);
  }
}
