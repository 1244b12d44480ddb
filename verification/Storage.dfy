/** The directory that the engine works in: named byte strings, changed in atomic steps, most
    of which may be refused, and every one of which may be the last before a crash. */
module Storage {
  import opened Bytes

  type Name = string

  type Disk = map<Name, Bytes>

  datatype Status = OK | NotFound | IOError | Corruption | InvalidArgument

  /** after is before, except for what happened to the named files. */
  ghost predicate OnlyTouches(before: Disk, after: Disk, names: set<Name>)
  {
    forall n :: n !in names ==> (n in before <==> n in after) && (n in before ==> after[n] == before[n])
  }

  /** What a crash during an append of data to the file name can leave: any prefix. */
  ghost function TornAppends(disk: Disk, name: Name, data: Bytes): iset<Disk>
    requires name in disk
  {
    iset k | 0 <= k <= |data| :: disk[name := disk[name] + data[..k]]
  }

  /** An append in two parts can be torn like one append. */
  lemma TornInTwo(disk: Disk, name: Name, data: Bytes, reached: nat, d: Disk)
    requires name in disk && reached <= |data|
    requires var between := disk[name := disk[name] + data[..reached]];
             d in TornAppends(disk, name, data[..reached]) || d in TornAppends(between, name, data[reached..])
    ensures d in TornAppends(disk, name, data)
  {
    if d in TornAppends(disk, name, data[..reached]) {
      var k :| 0 <= k <= reached && d == disk[name := disk[name] + data[..reached][..k]];
      assert data[..reached][..k] == data[..k];
    } else {
      var between := disk[name := disk[name] + data[..reached]];
      var k :| 0 <= k <= |data[reached..]| && d == between[name := between[name] + data[reached..][..k]];
      assert data[..reached] + data[reached..][..k] == data[..reached + k];
      assert between[name] + data[reached..][..k] == disk[name] + data[..reached + k];
      assert d == disk[name := disk[name] + data[..reached + k]];
    }
  }

  /** The step from one disk to the next, and every crash on the way, leaves every file but
      the named one alone. */
  ghost predicate Confined(disk0: Disk, crashes0: iset<Disk>, disk1: Disk, crashes1: iset<Disk>, name: Name)
  {
    && OnlyTouches(disk0, disk1, {name})
    && (forall d :: d in crashes0 ==> d in crashes1)
    && (forall d :: d in crashes1 ==> d in crashes0 || OnlyTouches(disk0, d, {name}))
  }

  lemma ConfinedNothing(disk: Disk, crashes: iset<Disk>, name: Name)
    ensures Confined(disk, crashes, disk, crashes, name)
  {
  }

  lemma ConfinedChain(disk0: Disk, crashes0: iset<Disk>, disk1: Disk, crashes1: iset<Disk>,
                     disk2: Disk, crashes2: iset<Disk>, name: Name)
    requires Confined(disk0, crashes0, disk1, crashes1, name)
    requires Confined(disk1, crashes1, disk2, crashes2, name)
    ensures Confined(disk0, crashes0, disk2, crashes2, name)
  {
  }

  /** How much of the data a stream passes on is up to the system. */
  method AnyLength(data: Bytes) returns (reached: nat)
    ensures reached <= |data|
  {
    var any: int := *;
    reached := if 0 <= any <= |data| then any else |data|;
  }

  class FileSystem {
    var files: Disk
    /** Every disk that a crash up to now could have left behind. */
    ghost var crashes: iset<Disk>
    /** How many steps the system underneath has refused so far, where the engine looks at the
        outcome, and where it does not. */
    var failures: nat
    var ignored: nat

    constructor (disk: Disk)
      ensures files == disk && crashes == iset{disk} && failures == 0 && ignored == 0
    {
      failures := 0;
      ignored := 0;
      files := disk;
      crashes := iset{disk};
    }

    /** Opens a file for writing from scratch. */
    method Create(name: Name) returns (ok: bool)
      modifies `files, `crashes, `failures
      ensures files == if ok then old(files)[name := []] else old(files)
      ensures crashes == old(crashes) + iset{files}
      ensures failures == if ok then old(failures) else old(failures) + 1
      ensures Confined(old(files), old(crashes), files, crashes, name)
    {
      ok := *;
      if ok {
        files := files[name := []];
      }
      failures := if ok then failures else failures + 1;
      crashes := crashes + iset{files};
    }

    /** Opens a file for appending, creating it when it is missing. */
    method OpenAppend(name: Name) returns (ok: bool)
      modifies `files, `crashes, `failures
      ensures ok ==> name in files
      ensures files == if ok && name !in old(files) then old(files)[name := []] else old(files)
      ensures crashes == old(crashes) + iset{files}
      ensures failures == if ok then old(failures) else old(failures) + 1
    {
      ok := *;
      failures := if ok then failures else failures + 1;
      if ok && name !in files {
        files := files[name := []];
      }
      crashes := crashes + iset{files};
    }

    /** Appends all of data. */
    method Append(name: Name, data: Bytes)
      requires name in files
      modifies `files, `crashes
      ensures files == old(files)[name := old(files)[name] + data]
      ensures crashes == old(crashes) + TornAppends(old(files), name, data)
      ensures Confined(old(files), old(crashes), files, crashes, name)
    {
      crashes := crashes + TornAppends(files, name, data);
      files := files[name := files[name] + data];
    }

    /** Hands data to the buffer of a stream that is appended to the file: any part of it may
        reach the file at once, and if that is refused, only a proper part of it. */
    method WriteChecked(name: Name, data: Bytes) returns (ok: bool, reached: nat)
      requires name in files
      modifies `files, `crashes, `failures
      ensures reached <= |data| && (!ok ==> reached < |data|)
      ensures files == old(files)[name := old(files)[name] + data[..reached]]
      ensures crashes == old(crashes) + TornAppends(old(files), name, data[..reached])
      ensures failures == if ok then old(failures) else old(failures) + 1
    {
      reached := AnyLength(data);
      ok := *;
      ok := ok || reached == |data|;
      failures := if ok then failures else failures + 1;
      crashes := crashes + TornAppends(files, name, data[..reached]);
      files := files[name := files[name] + data[..reached]];
    }

    /** Appends data where nobody asks for the outcome; if that is refused, only a proper part of
        it reaches the file. */
    method WriteUnchecked(name: Name, data: Bytes) returns (ok: bool, reached: nat)
      requires name in files
      modifies `files, `crashes, `ignored
      ensures reached <= |data| && (ok <==> reached == |data|)
      ensures files == old(files)[name := old(files)[name] + data[..reached]]
      ensures crashes == old(crashes) + TornAppends(old(files), name, data)
      ensures ignored == if ok then old(ignored) else old(ignored) + 1
      ensures Confined(old(files), old(crashes), files, crashes, name)
    {
      reached := AnyLength(data);
      ok := reached == |data|;
      ignored := if ok then ignored else ignored + 1;
      crashes := crashes + TornAppends(files, name, data);
      files := files[name := files[name] + data[..reached]];
    }

    method Rename(from: Name, to: Name) returns (ok: bool)
      requires from != to
      modifies `files, `crashes, `failures
      ensures ok ==> from in old(files)
      ensures files == if ok then (old(files) - {from})[to := old(files)[from]] else old(files)
      ensures crashes == old(crashes) + iset{files}
      ensures failures == if ok || from !in old(files) then old(failures) else old(failures) + 1
    {
      ok := *;
      failures := if ok || from !in files then failures else failures + 1;
      ok := ok && from in files;
      if ok {
        files := (files - {from})[to := files[from]];
      }
      crashes := crashes + iset{files};
    }

    /** Deletes a file; a refusal goes unnoticed, because no caller asks. */
    method Remove(name: Name) returns (ok: bool)
      modifies `files, `crashes, `ignored
      ensures files == if ok then old(files) - {name} else old(files)
      ensures !ok ==> name in files
      ensures crashes == old(crashes) + iset{files}
      ensures ignored == if ok then old(ignored) else old(ignored) + 1
      ensures Confined(old(files), old(crashes), files, crashes, name)
    {
      ok := *;
      ok := ok || name !in files;
      ignored := if ok then ignored else ignored + 1;
      if ok {
        files := files - {name};
      }
      crashes := crashes + iset{files};
    }

    method Exists(name: Name) returns (found: bool)
      ensures found == (name in files)
    {
      found := name in files;
    }

    /** Opens a file for reading and hands back its content. */
    method Read(name: Name) returns (ok: bool, content: Bytes)
      modifies `failures
      ensures ok ==> name in files && content == files[name]
      ensures failures == if ok || name !in files then old(failures) else old(failures) + 1
    {
      ok := *;
      failures := if ok || name !in files then failures else failures + 1;
      ok := ok && name in files;
      content := if ok then files[name] else [];
    }
  }
}
