# A verified model of the LSM key-value engine

The engine keeps a map from byte-string keys to byte-string values. A write goes to a
write-ahead log and then to an in-memory table; a full memtable becomes an immutable sorted
table file; when there are enough table files they are compacted into one; a manifest names
the files that count. This project models all of that down to the bytes on disk, and proves
that the whole behaves like a plain map: while it runs, across closing and opening, when a
file-system call fails, and after a crash at any step.

The model has four layers.

1. **Bytes.** `Bytes`, `Words`, `Crc`: little-endian integers, the key order, CRC-32 given as a
   32-bit shift register fed one bit at a time and computed with the 256-entry table. `Entries`:
   records, layers of keys, the map that a stack of layers shows. `Stacks`: what a stack shows
   when some of its tables are left out. `Records`, `Logs`: the record format and what a log
   replays to.
2. **Tables.** `Blooms`, `SparseIndexes`, `TableFormat`: filter, index and footer, the file that
   a writer leaves, the checks of a reader. `Damage`: which changes of such a file are noticed, and
   when. `TableWriters`, `TableReaders`: the two classes.
3. **Store.** `Storage` is the directory: named byte strings changed in atomic steps. Creating,
   opening, reading, renaming and deleting a file, writing and flushing the log, and writing the
   manifest may be refused; appends to table files may not. `failures` counts the refusals that
   the engine looks for, `ignored` those of deletions, log flushes and manifest writes, which it
   does not. Every disk that a crash could leave is collected in the ghost set `crashes`, which a
   run starts afresh for each operation. `MemTables`, `Wals`, `Compactions`, `Names` and
   `KVStores` are the engine's parts on top of it.
4. **Recovery.** `Recovery` says what opening a disk yields. `Steps` holds the state of a store
   together with its disk and one lemma for each step of the engine. `Runs` puts whole scripts
   of operations together.

Layouts, hashes and sizes are also stated apart from the functions that compute them: as literal
bytes (`Records.RecordLayout`, `TableFormat.TableLayout`), known values (`Crc.ChecksumOfA`,
`Blooms.HashesOfA`) or by what they mean (`Bytes.LessMeans`, `Logs.DeliveredIff`,
`MemTables.SizeAsRecords`, `Blooms.MayContainIff`).

The statements to read first are `Runs.RunFromEmpty`, `Runs.Run`, `Runs.Session` and
`Runs.RecoverFrom`. Their crash clause, `Runs.StepRecovers`, is about one operation and the disks
that a crash during it can leave: recovery sees the operations acknowledged by then, or those and
the one under way. They rest on `Steps.KeepsView` (flush and compaction) and `Steps.Writes` (put
and remove), the two relations that the contracts of `KVStores.KVStore` are written in. Both say
that every crash on the way recovers exactly, unless a compaction has begun to delete its inputs;
`Steps.WindowOf` tells from two states whether that has happened, and `Recovery.InWindow` says
what such a disk is: another crash disk, which recovers exactly, less some tables that it lists.

Nine findings about the code, each with its exact condition:

- **Compaction deletes before it lists.** `README.md:96-97` says that inputs are deleted after
  the output is registered; `src/kv_store.cpp:319-342` deletes first. `Recovery.WindowLoses`
  exhibits a loss, and `Recovery.DeletedOldest` says that nothing is lost if and only if every
  key shown by the deleted tables is also bound by a newer table or by the log.
- **Deletions that fail go unnoticed.** If the system refuses to delete an older input but not a
  newer one, a deleted key can come back in that window (`Recovery.WindowRevives`).
  `Recovery.DeletedSome` says that what is recovered is a part of the truth if and only if no
  key whose deciding table is gone is shown otherwise by the tables left.
- **A second crash after such a window can keep the store from opening.** When every listed input
  is gone, numbering starts again at one, and the next table gets a name that the manifest still
  lists (`Recovery.RestartCollides`). A crash while that table is being written recovers if and
  only if its name is not listed (`Recovery.NewFileRecoversIff`).
- **A manifest that is written only in part goes unnoticed.** It is renamed into place all the
  same, and the log is truncated. It lists the tables if and only if at most its last newline is
  missing (`Names.ManifestCutIff`, `Steps.ListedIffCut`); `Steps.ShortManifestLoses` is a flush
  whose record a crash loses.
- **A failing flush of the log goes unnoticed.** The record is acknowledged all the same. It is
  in the log if and only if neither the write nor the flush was refused
  (`Wals.Wal.AppendRecord`); `Steps.RecoverableIffFlushed` says when recovery sees it, and
  `Steps.UnflushedIsLost` is a put that a crash loses.
- **A torn log tail is not cut off.** Records acknowledged behind it are recovered if and only if
  there is no tail (`Logs.DurableIffNoTail`).
- **Large records are acknowledged but not recoverable.** The next replay delivers a record if
  and only if it is within 16 MiB for the key and 64 MiB for the value
  (`Logs.RecoverableIffInLimits`).
- **The log sizes its buffer in 32 bits.** `src/wal.cpp:64` adds the two lengths as 32-bit
  numbers, so that the buffer is too small if and only if they add up to 2^32 or more
  (`Wals.BufferFitsIff`, `Wals.BufferTooSmall`); the contracts ask for less.
- **Unreadable is taken for empty.** `get` passes over a table that cannot be read, and `open`
  treats a manifest or a log that exists but cannot be read as empty. The answer of `get` is then
  the true one if and only if the table that decides was read or the older ones show the same
  (`Stacks.SearchPastIff`), and what `open` serves is the true map if and only if no key is missed
  (`Recovery.UnreadIff`). In both cases a deleted key can come back (`Stacks.DeletedKeyReturns`,
  `Recovery.UnreadLogRevives`).

## Model

| member | source | states |
|---|---|---|
| Runs.RunFromEmpty | src/kv_store.cpp:29-207 | For every script of put, remove, get, flush, compact and close-then-open on a new store in an empty directory, with automatic flushes and compactions wherever they fire: if the file system refuses nothing, every answer is that of a plain map, the final map is the plain one, at every point the manifest lists the tables being read and no other file is left behind, and, without explicit compactions, the k flushes of a non-empty memtable so far have left (k - 1) mod (t - 1) + 1 tables and run (k - 1) div (t - 1) compactions, for a threshold t of two or more; records beyond the replay limits are excluded only if the script closes the store. A crash during any operation recovers to the operations acknowledged by then, or those and the one under way, except in the deletions of a compaction of that operation |
| Runs.Session | src/kv_store.cpp:125-199 | For every script without closing, on any open store, with records that fit the log's buffer and whatever the file system refuses: unless tables are lost, the map and every answer are those of a plain map that takes exactly the acknowledged operations (a look-up that met an unreadable table excepted); without refusals all are acknowledged; from a safe start and while the run is steady the disk stays safe, and a crash during any operation recovers to the operations acknowledged by then, or those and the one under way |
| Runs.Run | src/kv_store.cpp:125-199 | The same from any store in working order, up to the first refusal; during each operation a crash recovers to the operations acknowledged by then, or those and the one under way, exactly so unless that operation itself runs a compaction |
| Runs.RecoverFrom | src/kv_store.cpp:29-113 | Opening any disk that a crash during an operation can leave serves the map before the operation or after it, or in the deletions of a compaction what the tables left show, a part of the map before it if no deletion was refused; with no table missing the store is safe again, and without a torn tail as good as new |
| Runs.Perform | src/kv_store.cpp:115-199 | One operation: answer and new map are those of a plain map unless the file system refused something, and every crash during it, from the disk it starts on, recovers to the map before or after it, exactly so unless it runs a compaction |
| Runs.TablesOfRun | src/kv_store.cpp:289-295 | The number of tables and of compactions in a run without explicit compactions depends on the number of flushes only, in that closed form |
| Runs.ReopenRests | src/kv_store.cpp:29-113 | Closing and opening again after a complete manifest brings back the same tables and the same memtable |
| KVStores.KVStore.Open | src/kv_store.cpp:29-113 | Opening a recoverable disk serves exactly the recovered map, or that without manifest or log if those could not be read; it continues the file numbers and changes nothing on disk but a missing log file. Without refusals it reports corruption if and only if the log is corrupt or a listed table fails a check; an I/O error is only ever due to a refusal, an invalid argument only to an empty path |
| KVStores.KVStore.OpenTables | src/kv_store.cpp:61-84 | Readers for exactly the listed files that exist, in order, none for the others; the next number is one above the highest in use, or one |
| KVStores.SplitLines | src/kv_store.cpp:51-59 | Reading line by line yields the non-empty lines, with or without a final newline |
| KVStores.KVStore.ReplayLog | src/kv_store.cpp:88-103 | The memtable becomes what the log's records leave behind, or empty if the log cannot be read; only corruption other than truncation is an error |
| KVStores.KVStore.Close | src/kv_store.cpp:115-123 | Closing drops the memory and leaves the disk alone |
| KVStores.KVStore.Put | src/kv_store.cpp:125-142 | A put of a record that fits the log's buffer updates the map or leaves it alone, according to its status; empty keys are refused, and any other failure is an I/O error or corruption, below the memtable threshold an I/O error; crashes recover the old map or the new one, exactly so unless the flush compacts; the disk stays safe unless the log flush was refused, and then it recovers to the old map. On success the record is on top of the memtable, which has been flushed first if and only if it was full |
| KVStores.KVStore.Remove | src/kv_store.cpp:173-189 | The same for deletions |
| KVStores.KVStore.Get | src/kv_store.cpp:144-171 | Memtable, then tables newest first with a stop at a tombstone, finds exactly what the served map holds; and if tables could not be read, what the stack without so many tables shows |
| KVStores.KVStore.SearchNewestFirst | src/kv_store.cpp:158-170 | The loop over the readers answers like the stack of tables without those that could not be read |
| KVStores.KVStore.Flush | src/kv_store.cpp:191-194 | Flushing keeps the map if it succeeds and, unless readers cannot be opened again after a compaction, if it fails at any step; then a part of the stack of tables and memtable is served. A successful flush of a non-empty memtable over n tables leaves n + 1 tables and no compaction if n + 1 is below two or below the compaction threshold, and one table after one compaction otherwise; it leaves a clean log even behind a torn tail, and a safe disk if the manifest is complete |
| KVStores.KVStore.FlushInternal | src/kv_store.cpp:254-298 | The same for the step itself; crashes are exact below the compaction threshold |
| KVStores.KVStore.MakeRoom | src/kv_store.cpp:129-132 | The memtable is flushed if and only if it has reached its threshold |
| KVStores.KVStore.WriteTable | src/kv_store.cpp:259-274 | Writing and reading the new table keeps the map, the new file never replaces an active one, and on success the newest table holds what is unflushed |
| KVStores.KVStore.MoveMemtable | src/kv_store.cpp:259-287 | A flush up to the truncated log keeps the map at every failure; on success the tables are those before and one made of the memtable, and the disk is safe if the manifest is complete |
| KVStores.KVStore.DropMemtable | src/kv_store.cpp:283-287 | Dropping the memtable after its table has been made keeps the map, and, once the table is listed, so does a crash before the log is truncated |
| KVStores.KVStore.UpdateManifest | src/kv_store.cpp:230-252 | The manifest lists exactly the tables being read, in order, or the first bytes of that list if the system refused the others, or is untouched; crashes see the old manifest or the new one |
| KVStores.KVStore.CompactInternal | src/kv_store.cpp:300-343 | Compaction keeps the map if it succeeds, and if it fails and the inputs can be opened again; otherwise what is served is the stack of tables and memtable without those not opened; with two tables or more success leaves one, and of the files no more than that unless a deletion is refused; with fewer nothing happens |
| KVStores.KVStore.ReopenInputs | src/kv_store.cpp:320-331 | After a failed compaction either every input is read again in order, or a subsequence of them is, the loss is recorded, and it is due to a further refusal |
| KVStores.KVStore.AdoptOutput | src/kv_store.cpp:333-342 | The output is read instead of its inputs and listed; if it cannot be opened nothing is served any more |
| KVStores.KVStore.GenerateFilename | src/kv_store.cpp:224-228 | The next number is used once |
| Steps.KeepsViewChain | src/kv_store.cpp:254-298 | Keeping the map, safety of the disk, safety of all crashes and blame of the file system for failures compose along the steps of a flush |
| Steps.TableWritten | src/kv_store.cpp:262-274 | A table of the unflushed layer on top of the stack, written or not, changes neither the served nor the recovered map |
| Steps.ManifestReplaced | src/kv_store.cpp:276-280 | Replacing the manifest by the list of tables read keeps both maps, at every crash point |
| Steps.ListedIffCut | src/kv_store.cpp:237-245 | After a successful rename the manifest lists the tables being read if and only if at most its last newline was refused |
| Steps.ShortManifestLoses | src/kv_store.cpp:237-284 | A concrete flush that succeeds with an empty manifest and whose record a crash loses |
| Steps.LogCleared | src/kv_store.cpp:282-287 | Truncating the log keeps the served map; if the flushed table is listed it keeps the recovered one too, and if it fails, the log overlaid on the table just flushed changes nothing |
| Steps.CompactionFailed | src/kv_store.cpp:320-331 | A failed compaction keeps the map and the safety of the disk unless an input cannot be opened again |
| Steps.OutputListed | src/kv_store.cpp:333-342 | The whole of a compaction with its deletions and the manifest: map kept, every crash disk with all its listed tables recovers exactly, and so does the disk from the new manifest on; any other is the one after the rename less listed tables |
| Steps.RecordLogged | src/kv_store.cpp:135-140 | Log first, memtable second: at every byte of the append the disk recovers to the old map, and at the last one to the new map; a record whose flush was refused is acknowledged while the disk still recovers to the old map |
| Steps.WritesAfterFlush | src/kv_store.cpp:130-141 | A put that first flushes is still one atomic change of the map |
| Steps.CutAppendSafe | src/wal.cpp:83-92 | The disk after any prefix of the record recovers exactly to the old map, and after the whole record to the new one |
| Steps.RecoverableIffFlushed | src/wal.cpp:83-92 | Recovery sees an acknowledged record if and only if the flush was not refused, or the record changes nothing |
| Steps.UnflushedIsLost | src/wal.cpp:90-92 | A concrete put that is acknowledged and that a crash loses |
| Steps.ServesPartOfFlushed | src/kv_store.cpp:289-295 | What is served when a compaction after a flush fails for good is a part of what was served before the flush |
| Steps.Opened | src/kv_store.cpp:61-103 | A store just opened serves the recovered map, and is safe if no listed table was missing |
| Steps.OpenedState | src/kv_store.cpp:48-103 | A store opened with manifest or log unread serves what the files that were read hold |
| Recovery.Unseen | src/kv_store.cpp:64-84 | Files that are neither manifest, log nor listed do not influence recovery |
| Recovery.FlushedTwice | src/kv_store.cpp:276-287 | Overlaying a log on a table flushed from the same records changes nothing |
| Recovery.AgreesAfterAppend | src/wal.cpp:83-92 | Any proper prefix of an appended record leaves recovery as it was; the whole record updates it |
| Recovery.CompactionCrashSafe | src/compaction.cpp:51-87 | Wherever a compaction is cut, recovery yields the true map, or a listed table is missing and the disk is the one after the rename less some listed tables, the oldest ones if no deletion was refused |
| Recovery.DeletedOldest | src/compaction.cpp:80-87 | After the j oldest listed tables are gone, recovery yields a part of the true map, and all of it if and only if every key that they show is bound by what is left |
| Recovery.DeletedSome | src/compaction.cpp:80-87 | After any listed tables are gone, recovery yields a part of the true map if and only if nothing stale is uncovered, and all of it if and only if for every key the deciding table is left or the older ones left show the same |
| Recovery.WindowLoses | src/kv_store.cpp:319-342 | A crash after the first deletion of a concrete compaction loses a live key |
| Recovery.WindowRevives | src/compaction.cpp:80-87 | A concrete compaction in which the deletion of the older input is refused and a crash brings a deleted key back |
| Recovery.NewFileRecoversIff | src/kv_store.cpp:61-73 | A crash while a new table file is being written recovers if and only if the manifest does not list that name, and then exactly; if it does, opening finds a bad file |
| Recovery.RestartCollides | src/kv_store.cpp:61-84 | A concrete compaction, cut after its deletions, whose disk opens with the next number one, which names a listed file |
| Recovery.UnreadIff | src/kv_store.cpp:48-103 | What is served with manifest or log unread is the recovered map if and only if no key is missed; with the log read it is always a part of it |
| Recovery.UnreadLogRevives | src/kv_store.cpp:90-103 | A concrete disk on which a deleted key comes back because the log could not be read |
| Compactions.Compact | src/compaction.cpp:9-90 | On success the output is the table of the purged merge and exactly the inputs are gone, except those that the system refused to delete; every failure precedes the first deletion and touches only the temporary file; an empty input list is an invalid argument |
| Compactions.CompactionMeaning | src/compaction.cpp:19-60 | For every stack of tables the output is strictly sorted, accepted by the writer, free of tombstones, and answers every key like newest-first search over the stack |
| Compactions.MergeTables | src/compaction.cpp:19-39 | Reading oldest first with overwriting yields the overlay of the tables |
| Compactions.SurvivorsOfListing | src/compaction.cpp:41-49 | Dropping tombstones from the ordered map gives the ordered listing of the purged layer |
| Compactions.RemoveInputs | src/compaction.cpp:80-87 | The deletion loop removes the inputs other than the output, oldest first, one crash point after each, and passes over refused deletions |
| Entries.SearchIsMerge | src/kv_store.cpp:158-168 | Newest-first search that stops at a tombstone equals look-up in the oldest-first overlay |
| Stacks.KeptSearch | src/kv_store.cpp:158-168 | With tables left out, the newest table that knows the key still answers if it is kept, and otherwise the older ones that are kept do |
| Stacks.SearchPastIff | src/kv_store.cpp:158-168 | A look-up past unreadable tables shows the truth if and only if the deciding table was read or the older ones show the same; it shows nothing stale if and only if those show the same or nothing |
| Stacks.ViewPastIff | src/kv_store.cpp:320-331 | The same for the whole map that is served without some tables |
| Stacks.DeletedKeyReturns | src/kv_store.cpp:158-168 | A concrete stack on which passing over one table brings a deleted key back |
| Entries.PurgeInvisible | src/compaction.cpp:41-49 | Purging tombstones of the bottom layer is invisible under any newer layers |
| Entries.PurgeAboveIff | src/kv_store.cpp:305-308 | Above older tables purging is invisible if and only if no dropped tombstone hides a live key, which is why all tables are inputs |
| Names.NumberRoundTrip | src/kv_store.cpp:75-79 | Parsing a generated file name gives back its number, for every number |
| Names.FileNameShape | src/kv_store.cpp:224-228 | A generated name is the prefix, the number in decimal filled up with zeros to six digits and no further, and the suffix |
| Names.LinesMean | src/kv_store.cpp:51-59 | Each line of a text that is not empty counts, the last one even without its newline |
| Names.NumberedNext | src/kv_store.cpp:224-228 | The next name is new and keeps the numbers strictly increasing |
| Names.ManifestRoundTrip | src/kv_store.cpp:237-242 | The lines read from a manifest are the names written to it |
| Names.ManifestCutIff | src/kv_store.cpp:237-242 | The first k bytes of a manifest list the same names if and only if at most the last newline is missing |
| Names.TableNamesApart | src/kv_store.cpp:49-87 | Table files and their temporary versions never collide with manifest, its temporary version or log |
| Logs.TornTail | src/wal.cpp:147-226 | For every list of in-limit records and every byte cut, replay delivers exactly the records wholly before the cut, and ends clean if and only if the cut is a record boundary, truncated otherwise |
| Logs.DeliveredIff | src/wal.cpp:147-220 | On any bytes, replay delivers a record if and only if they start with the bytes of that record, within 16 MiB for the key and 64 MiB for the value |
| Logs.ShortIff | src/wal.cpp:147-205 | On any bytes, replay reports a truncated record if and only if the header is incomplete or is that of a record within the limits that is longer than what is left |
| Logs.CleanLogExtends | src/wal.cpp:147-226 | Replaying a clean log followed by anything is replaying the two one after the other |
| Logs.RecoverableIffInLimits | src/wal.cpp:170-176 | An appended record is delivered if and only if it is within the size limits; otherwise replay reports corruption |
| Logs.BurstStopsReplay | src/wal.cpp:207-223 | A change within four consecutive bytes of key, value and checksum of a record makes replay deliver exactly the earlier records and report corruption, not truncation |
| Logs.DurableIffNoTail | src/wal.cpp:26-35 | Records appended behind leftover bytes are always recovered if and only if there are none |
| Wals.NextRecord | src/wal.cpp:147-220 | The stream reads with their checks in the engine's order recognise exactly the record at the position |
| Wals.ReplayInto | src/wal.cpp:124-227 | The replay loop rebuilds exactly the layer and the size that the log's records leave, with status and truncation flag |
| Wals.Wal.AppendRecord | src/wal.cpp:54-93 | A record that fits the buffer is acknowledged unless the write is refused, whether or not the flush is; all of it is in the file if and only if neither was, and otherwise a proper prefix; a broken stream accepts nothing more |
| Wals.BufferFitsIff | src/wal.cpp:59-67 | The buffer has the size of the record if and only if the two lengths add up to less than 2^32, and is too small otherwise |
| Wals.BufferTooSmall | src/wal.cpp:64-65 | A concrete record for which the buffer has room for the header only |
| Wals.Wal.Clear | src/wal.cpp:104-112 | The log is empty and open, or unchanged and closed |
| MemTables.MemTable.Put | src/memtable.cpp:8-25 | The table gets the value, and the running size is the bytes of all entries as records plus 59 bytes each |
| MemTables.MemTable.Remove | src/memtable.cpp:43-59 | The table gets a tombstone without value, and the running size is exact in the same way |
| MemTables.MemTable.Get | src/memtable.cpp:27-41 | Value, tombstone and absence are told apart |
| MemTables.TotalSizeUpdate | src/memtable.cpp:8-59 | How the sum over all entries changes when one of them does |
| MemTables.SizeAsRecords | include/lsm/memtable.h:60-74 | The sum over all entries is the size of the log that holds just them, plus 59 bytes for each |
| MemTables.SubtractionNeverClamps | include/lsm/memtable.h:68-74 | The branch that clamps the size at zero is never taken |
| TableWriters.SSTableWriter.Append | src/sstable.cpp:227-267 | After a non-empty key exactly the keys are accepted that come after it in the order of unsigned bytes, and others are corruption; file, offset, count, index and filter stay functions of the records written |
| TableWriters.SSTableWriter.Finish | src/sstable.cpp:269-314 | The finished file is the table of the records written |
| TableWriters.WriteEntries | src/sstable.cpp:333-348 | Sorted records become their table file; only the system can refuse, and no other file is touched |
| TableWriters.OrderCheckIsSorted | src/sstable.cpp:230-232 | A list is strictly sorted if and only if the pairwise check accepts it and no key but the first is empty |
| TableWriters.EmptyKeyIsNotChecked | src/sstable.cpp:230-232 | With a second empty key it accepts an unsorted list |
| TableFormat.TableRoundTrip | src/sstable.cpp:198-314 | For every strictly sorted list of records that fits the fields, the file written from it opens and holds exactly that list |
| TableFormat.TableLayout | src/sstable.cpp:198-314 | Byte for byte: magic number, version, records, index block, filter block with checksum, and a footer that says where they are |
| TableFormat.FilterHolds | src/sstable.cpp:234-234 | The filter of a table has exactly the bits that the keys of its records probe |
| TableFormat.WrittenTableLoads | src/sstable.cpp:389-482 | A written file passes every check and gives back its index, filter and footer |
| TableFormat.ContentsUnique | src/sstable.cpp:579-628 | A file is the table of one list of records only |
| TableFormat.FooterRoundTrip | src/sstable.cpp:149-183 | A footer is read back as it was written |
| TableFormat.LookupIsExact | src/sstable.cpp:484-577 | For every key and interval, index range and byte scan answer like a search of the whole record list |
| TableFormat.FilterExcludes | src/sstable.cpp:487-490 | A key that the filter excludes is not in the table |
| TableFormat.ScanOfEncoded | src/sstable.cpp:513-573 | Scanning the bytes of a run of records is scanning the records |
| Damage.DamageOnOpening | src/sstable.cpp:389-482 | For every written table and every change within four consecutive bytes: it is refused if the change is in a magic number, the version, the index, the filter or the offsets of the footer, and opens with the same index and filter if it is in the records |
| Damage.DamagedLookup | src/sstable.cpp:499-577 | With a record damaged within four consecutive bytes of key, value and checksum, the scan of a look-up gives the true answer or is broken off; it is for the key of that record, and is not for keys up to the record before |
| Damage.OffsetsSurvive | src/sstable.cpp:434-440 | Whatever four consecutive bytes of a file are changed, offsets that still tile it are what they were |
| TableReaders.SSTableReader.Open | src/sstable.cpp:389-482 | A file is opened exactly if it can be read and passes header, version, footer, offset, index and filter checks |
| TableReaders.SSTableReader.Get | src/sstable.cpp:484-497 | On an intact file the answer is that of searching its whole record list, with the filter on or off; on a file with a record damaged within four consecutive bytes it is that or corruption, for the key of that record corruption, and for keys up to the record before never corruption; a key that the filter excludes is not found whatever the records hold |
| TableReaders.SSTableReader.ScanRange | src/sstable.cpp:499-577 | The scan loop reports value, tombstone, absence or corruption as the byte range says, and the checksum of every record it passes is checked |
| TableReaders.SSTableReader.ReadAllRecords | src/sstable.cpp:579-628 | On an intact file exactly its records are handed back, although lengths of reads go unchecked; on a file with a record damaged within four consecutive bytes the records before it and corruption |
| SparseIndexes.IndexShape | src/sstable.cpp:236-239 | The index entries are exactly the keys and byte offsets of records 0, N, 2N and so on |
| SparseIndexes.UpperBound | src/sstable.cpp:121-128 | Binary search finds the split between keys up to the target and keys above it |
| SparseIndexes.RangeSuffices | src/sstable.cpp:109-143 | Each range begins and ends on record boundaries, holds at most N records, and scanning it answers like scanning the whole table |
| SparseIndexes.IndexRoundTrip | src/sstable.cpp:48-107 | A serialized index is parsed back unchanged |
| SparseIndexes.IndexLayout | src/sstable.cpp:48-71 | Byte for byte: the count, for each entry length, key and offset, and the checksum of all that |
| SparseIndexes.DeserializeIndex | src/sstable.cpp:73-107 | The cursor loop with its checks parses exactly the blocks with a right checksum whose entries fit |
| Blooms.NoFalseNegatives | src/bloom_filter.cpp:57-82 | After any additions to any bit array, every added key may be contained |
| Blooms.WithProbesBits | src/bloom_filter.cpp:63-66 | Adding a key sets exactly the probed bits |
| Blooms.AddKeyBits | src/bloom_filter.cpp:57-67 | Adding a key sets the bits at the first hash plus multiples of the second, modulo the number of bits, and no others |
| Blooms.BloomRoundTrip | src/bloom_filter.cpp:84-112 | A serialized filter is parsed back unchanged when its bytes can be counted in 32 bits |
| Blooms.BloomLayout | src/bloom_filter.cpp:84-92 | Byte for byte: number of hashes, number of bytes, the bytes |
| Blooms.ByteCountLeast | src/bloom_filter.cpp:22-31 | The bit array has the least number of bytes for the bits per key, and for 64 bits at least |
| Blooms.HashesOfA | src/bloom_filter.cpp:33-55 | Both hashes of the empty string and of "a" are those of FNV-1a and of Jenkins one-at-a-time |
| Blooms.ProbeNeverWraps | src/bloom_filter.cpp:64-64 | The probe sum stays below 2^64 for all 32-bit hashes and rounds |
| Blooms.PossiblyContains | src/bloom_filter.cpp:69-82 | The query loop answers true if and only if adding the key would change nothing |
| Blooms.MayContainIff | src/bloom_filter.cpp:57-82 | All probed bits are set if and only if adding the key changes nothing |
| Records.FrontOfEncoded | src/sstable.cpp:246-261 | Whatever follows, an encoded record is read back from the front with an intact checksum |
| Records.RecordLayout | src/sstable.cpp:246-261 | Byte for byte: 1 or 2, the lengths with the lowest byte first, key, value, and the checksum of all that; a deletion has no value |
| Records.TamperedIsBroken | src/sstable.cpp:546-555 | A change within four consecutive bytes of key, value and checksum of a record is noticed |
| Records.BuildRecord | src/wal.cpp:59-84 | A buffer of the size of the record filled in place is its encoding; tombstones lose their value |
| Crc.ComputeCrc | include/lsm/types.h:59-63 | The table-driven loop computes the bit-serial CRC for every input and starting value (section 8 of RFC 1952) |
| Crc.TableIsExact | include/lsm/types.h:24-57 | Every one of the 256 literals is eight register steps of its index |
| Crc.Chaining | include/lsm/types.h:23-23 | The CRC of a concatenation is the CRC of the second part continued from that of the first |
| Crc.SealedResidue | include/lsm/types.h:59-63 | Every block followed by its own checksum has the same checksum |
| Crc.SealedBurstDetected | include/lsm/types.h:59-63 | A change within four consecutive bytes of a block, of the checksum behind it or across the two never leaves the right checksum |
| Crc.ChecksumOfA | include/lsm/types.h:59-63 | The checksum of the one byte "a" is E8B7BE43 |
| Crc.BitBurstDetected | include/lsm/types.h:59-63 | Two inputs that differ only inside a window of at most 32 bits have different checksums |
| Crc.BurstDetected | include/lsm/types.h:59-63 | The same for at most four consecutive bytes |
| Bytes.LessTotal | src/compaction.cpp:19-21 | Keys are totally ordered, as the ordered map needs |
| Bytes.LessMeans | src/sstable.cpp:230-230 | One key is below another if and only if at the first place where they differ its byte is smaller, or it ends there |

## Left out

- KVStores.KVStore.Put: is asked only for records whose lengths add up to less than 2^32, because the log's buffer is too small for others; its promise about crashes and later recovery holds from a safe disk with a clean log, for records within the replay limits.
- KVStores.KVStore.Open: its promises about the map require that listed tables which exist are intact and numbered upwards.
- Runs.Session: its promise about crashes ends where a refused flush of the log has acknowledged a record, a refused manifest has left the output of a compaction unlisted, or a manifest was written only in part.
- Runs.Run: says nothing about a crash during an operation that leaves a manifest written only in part, which is the last operation of the run.
- Runs.RunFromEmpty: asks for room, at most 2^28 keys in a table and a filter below 4 GiB, because the counters of the engine are 32 and 64 bits wide; the file number is taken to stay below 2^64, and the sparse interval to be above zero.
- TableReaders.SSTableReader.Open: refuses a filter block whose byte count wraps the 32-bit length check, where the engine would copy past its buffer.
- TableReaders.SSTableReader.ReadAllRecords: says nothing about files that no writer produced, where unread bytes are arbitrary.
- Damage.DamageOnOpening: leaves out changes of record count and reserved words, which the engine does not read, and changes of more than four bytes or in several places, which a 32-bit checksum cannot promise to notice.
- Damage.DamagedLookup: leaves out changes of the two lengths in the header of a record, after which the bytes taken for the record are others.
- Tables that are damaged while a store has them open: what a look-up reports then is stated for the table, not for the store.
- Blooms.ParseBloom: refuses a block whose byte count wraps the 32-bit length check, where the engine would copy past its buffer.
- Parsing of file numbers accepts digits only; signs and blanks that the library parser would also take do not occur in generated names.
- Silent short writes of table streams, which the engine does not check before it opens the file.
- A log append that is refused although all of its bytes have reached the file, and a broken log stream that tries once more to write what is left when it is closed.
- Writes that reach the disk in another order, and data that a stream flush leaves in the cache of the operating system.
- Directory creation and path prefixes: a store works in one directory, and files go by their names in it.
- Memory: exhausted allocation, the tree inside the ordered map, move constructors; readers and serialized blocks hold their index and filter as values.
- What replay makes of bytes appended behind an untrimmed torn tail, beyond the condition under which they are recovered.
- False-positive rate of the filter and quality of the hashes.
- Command line, benchmark and test programs; status messages.
- `contains`, `setSizeThreshold` and the other accessors of the memtable, and the log's `flush`, which the store never calls.
