/** Replace-with-rollback installation, installer/installer.go, over a file system in which any operation may
    fail and the machine may stop at any moment. */
module Installer {
  import opened Prelude

  /** The files below a directory, by relative path. */
  type Tree = map<string, string>

  /** Directories that do not contain one another, by path. */
  type Disk = map<string, Tree>

  datatype StatResult = Exists | NotExist | StatError

  class FileSystem {
    var dirs: Disk
    /** Which operations fail, by the number of operations before them. */
    const fails: nat -> bool
    var clock: nat
    /** Every state the disk has been in, in order: what a crash can leave behind. */
    ghost var history: seq<Disk>

    ghost predicate Valid()
      reads this
    {
      history != [] && history[|history| - 1] == dirs
    }

    constructor (dirs: Disk, fails: nat -> bool)
      ensures Valid() && this.dirs == dirs && this.fails == fails && clock == 0 && history == [dirs]
    {
      this.dirs, this.fails, clock, history := dirs, fails, 0, [dirs];
    }

    /** Since the n-th state, nothing but this path has differed from base. */
    ghost predicate OnlySince(n: nat, path: string, base: Disk)
      reads this
    {
      forall k :: n <= k < |history| ==> history[k] - {path} == base
    }

    /** None of the n operations from the start-th on fails. */
    ghost predicate QuietFrom(start: nat, n: nat) {
      forall k :: start <= k < start + n ==> !fails(k)
    }

    ghost predicate FaultBetween(start: nat, end: nat) {
      exists k :: start <= k < end && fails(k)
    }

    /** No operation after the first failing one fails. */
    ghost predicate AtMostOneFault(start: nat) {
      forall j, k :: start <= j < k && fails(j) ==> !fails(k)
    }

    ghost predicate NoFault(start: nat) {
      forall k :: start <= k ==> !fails(k)
    }

    method Attempt() returns (ok: bool)
      modifies this`clock
      ensures ok == !fails(old(clock)) && clock == old(clock) + 1
    {
      ok := !fails(clock);
      clock := clock + 1;
    }

    method Put(path: string, tree: Tree)
      requires Valid()
      modifies this`dirs, this`history
      ensures Valid()
      ensures dirs == old(dirs)[path := tree] && history == old(history) + [dirs]
      ensures dirs - {path} == old(dirs) - {path}
    {
      dirs := dirs[path := tree];
      history := history + [dirs];
    }

    /** Removes an empty directory. */
    method Drop(path: string)
      requires Valid() && path in dirs && dirs[path] == map[]
      modifies this`dirs, this`history
      ensures Valid()
      ensures dirs == old(dirs) - {path} && history == old(history) + [dirs]
    {
      dirs := dirs - {path};
      history := history + [dirs];
    }

    method Stat(path: string) returns (r: StatResult)
      modifies this`clock
      ensures clock == old(clock) + 1
      ensures r == if fails(old(clock)) then StatError else if path in dirs then Exists else NotExist
    {
      var ok := Attempt();
      return if !ok then StatError else if path in dirs then Exists else NotExist;
    }

    /** Creates an unused directory. */
    method MkdirTemp(path: string) returns (ok: bool)
      requires Valid() && path !in dirs
      modifies this`dirs, this`history, this`clock
      ensures Valid()
      ensures ok == !fails(old(clock)) && clock == old(clock) + 1
      ensures dirs == if ok then old(dirs)[path := map[]] else old(dirs)
      ensures dirs - {path} == old(dirs) - {path}
      ensures history == if ok then old(history) + [dirs] else old(history)
    {
      ok := Attempt();
      if ok {
        Put(path, map[]);
      }
    }

    /** Moves a directory in one step; refuses when the target exists. */
    method Rename(src: string, dst: string) returns (ok: bool)
      requires Valid() && src != dst
      modifies this`dirs, this`history, this`clock
      ensures Valid()
      ensures clock == old(clock) + 1
      ensures ok <==> !fails(old(clock)) && src in old(dirs) && dst !in old(dirs)
      ensures dirs == if ok then old(dirs)[dst := old(dirs)[src]] - {src} else old(dirs)
      ensures history == if ok then old(history) + [dirs] else old(history)
    {
      ok := Attempt();
      if !ok || src !in dirs || dst in dirs {
        return false;
      }
      dirs := dirs[dst := dirs[src]] - {src};
      history := history + [dirs];
    }

    /** Removes a directory file by file; a failure leaves the rest. Nothing else changes at any point. */
    method RemoveAll(path: string) returns (ok: bool)
      requires Valid()
      modifies this`dirs, this`history, this`clock
      ensures Valid() && clock >= old(clock)
      ensures ok ==> path !in dirs
      ensures !ok ==> path in old(dirs) && path in dirs
      ensures path !in old(dirs) ==> ok && history == old(history)
      ensures ok <==> !FaultBetween(old(clock), clock)
      ensures NoFault(old(clock)) ==> ok
      ensures dirs - {path} == old(dirs) - {path}
      ensures old(history) <= history && OnlySince(|old(history)|, path, old(dirs) - {path})
    {
      if path !in dirs {
        return true;
      }
      ok := RemoveFiles(path);
      if !ok {
        return;
      }
      ok := Attempt();
      if ok {
        Drop(path);
      }
    }

    method RemoveFiles(path: string) returns (ok: bool)
      requires Valid() && path in dirs
      modifies this`dirs, this`history, this`clock
      ensures Valid() && path in dirs && clock >= old(clock)
      ensures ok ==> dirs[path] == map[]
      ensures ok <==> !FaultBetween(old(clock), clock)
      ensures dirs - {path} == old(dirs) - {path}
      ensures old(history) <= history && OnlySince(|old(history)|, path, old(dirs) - {path})
    {
      var left := dirs[path];
      ghost var others := dirs - {path};
      while left != map[]
        invariant Valid() && path in dirs && dirs[path] == left && clock >= old(clock)
        invariant !FaultBetween(old(clock), clock)
        invariant dirs - {path} == others
        invariant old(history) <= history && OnlySince(|old(history)|, path, others)
        decreases |left|
      {
        ok := Attempt();
        if !ok {
          return false;
        }
        var file :| file in left;
        left := left - {file};
        Put(path, left);
      }
      return true;
    }
  }

  /** What is to be installed and where. */
  datatype Job = Job(
    installDir: string,
    stagingDir: string,   // the unused name MkdirTemp picks
    stamp: string,        // the time stamp of the backup
    payload: seq<(string, string)>,
    appExecutable: string,
    selfInstaller: Option<(string, string)>)
  {
    function BackupDir(): string {
      installDir + ".backup-" + stamp
    }
  }

  /** The tree a payload extracts to. */
  function Extracted(payload: seq<(string, string)>): Tree {
    if payload == [] then map[]
    else Extracted(payload[..|payload| - 1])[payload[|payload| - 1].0 := payload[|payload| - 1].1]
  }

  function NewVersion(job: Job): Tree {
    match job.selfInstaller
    case None => Extracted(job.payload)
    case Some(self) => Extracted(job.payload)[self.0 := self.1]
  }

  predicate PayloadHas(payload: seq<(string, string)>, name: string) {
    exists i :: 0 <= i < |payload| && payload[i].0 == name
  }

  /** No later entry has the name of the i-th. */
  predicate IsLastOfItsName(payload: seq<(string, string)>, i: nat) {
    i < |payload| && forall j :: i < j < |payload| ==> payload[j].0 != payload[i].0
  }

  lemma {:induction false} ExtractedNames(payload: seq<(string, string)>, name: string)
    ensures name in Extracted(payload) <==> PayloadHas(payload, name)
  {
    if payload != [] {
      var n := |payload| - 1;
      ExtractedNames(payload[..n], name);
      if PayloadHas(payload, name) && name != payload[n].0 {
        var i :| 0 <= i < |payload| && payload[i].0 == name;
        assert payload[..n][i].0 == name;
      }
      if PayloadHas(payload[..n], name) {
        var i :| 0 <= i < n && payload[..n][i].0 == name;
        assert payload[i].0 == name;
      }
    }
  }

  /** Of entries of one name the last one wins. */
  lemma {:induction false} LastEntryWins(payload: seq<(string, string)>, i: nat)
    requires IsLastOfItsName(payload, i)
    ensures payload[i].0 in Extracted(payload) && Extracted(payload)[payload[i].0] == payload[i].1
  {
    var n := |payload| - 1;
    if i < n {
      assert forall j :: i < j < n ==> payload[..n][j].0 == payload[j].0;
      assert payload[n].0 != payload[i].0;
      LastEntryWins(payload[..n], i);
    }
  }

  predicate IsSelf(job: Job, name: string) {
    job.selfInstaller.Some? && name == job.selfInstaller.value.0
  }

  /** The directory holds the payload's files, each with the content of its last entry, the installer itself under
      its own name, and nothing else. */
  ghost predicate HoldsPayload(job: Job, tree: Tree) {
    && (forall name :: name in tree <==> PayloadHas(job.payload, name) || IsSelf(job, name))
    && (job.selfInstaller.Some? ==> tree[job.selfInstaller.value.0] == job.selfInstaller.value.1)
    && (forall i: nat :: IsLastOfItsName(job.payload, i) && !IsSelf(job, job.payload[i].0) ==>
          job.payload[i].0 in tree && tree[job.payload[i].0] == job.payload[i].1)
  }

  lemma NewVersionHoldsPayload(job: Job)
    ensures HoldsPayload(job, NewVersion(job))
  {
    forall name
      ensures name in Extracted(job.payload) <==> PayloadHas(job.payload, name)
    {
      ExtractedNames(job.payload, name);
    }
    forall i: nat | IsLastOfItsName(job.payload, i)
      ensures job.payload[i].0 in Extracted(job.payload)
      ensures Extracted(job.payload)[job.payload[i].0] == job.payload[i].1
    {
      LastEntryWins(job.payload, i);
    }
  }

  /** The previous version, if there was one, is intact under the install or the backup name. */
  predicate OldIntact(job: Job, before: Disk, now: Disk) {
    job.installDir in before ==>
      || (job.installDir in now && now[job.installDir] == before[job.installDir])
      || (job.BackupDir() in now && now[job.BackupDir()] == before[job.installDir])
  }

  predicate NewInstalled(job: Job, now: Disk) {
    job.installDir in now && now[job.installDir] == NewVersion(job)
  }

  /** Directories the installation does not own. */
  predicate OthersUntouched(job: Job, before: Disk, now: Disk) {
    var own := {job.installDir, job.BackupDir(), job.stagingDir};
    now - own == before - own
  }

  /** The three directories are different, and the staging name is unused. */
  predicate NamesApart(job: Job, disk: Disk) {
    && job.stagingDir !in disk
    && job.stagingDir != job.installDir
    && job.stagingDir != job.BackupDir()
  }

  lemma BackupIsNotInstall(job: Job)
    ensures job.BackupDir() != job.installDir
  {
    assert |job.BackupDir()| > |job.installDir|;
  }

  /** Make the directory, write each entry, look for the main program, open, create and copy the installer. */
  function StageSteps(job: Job): nat {
    1 + |job.payload| + 1 + if job.selfInstaller.Some? then 3 else 0
  }

  /** Fills the staging directory: extract, check the main program is there, copy the installer itself. */
  method Stage(fs: FileSystem, job: Job) returns (ok: bool)
    requires fs.Valid() && NamesApart(job, fs.dirs)
    modifies fs
    ensures fs.Valid() && fs.clock >= old(fs.clock)
    ensures fs.dirs - {job.stagingDir} == old(fs.dirs) - {job.stagingDir}
    ensures old(fs.history) <= fs.history
    ensures fs.OnlySince(|old(fs.history)|, job.stagingDir, old(fs.dirs) - {job.stagingDir})
    ensures ok <==> fs.QuietFrom(old(fs.clock), StageSteps(job)) && job.appExecutable in Extracted(job.payload)
    ensures ok ==> fs.clock == old(fs.clock) + StageSteps(job)
    ensures !ok && job.appExecutable in Extracted(job.payload) ==> fs.FaultBetween(old(fs.clock), fs.clock)
    ensures ok ==> job.stagingDir in fs.dirs && fs.dirs[job.stagingDir] == NewVersion(job)
  {
    ok := fs.MkdirTemp(job.stagingDir);
    if !ok {
      return;
    }
    ok := Extract(fs, job.stagingDir, job.payload);
    if !ok {
      return;
    }
    ok := fs.Attempt();
    if !ok || job.appExecutable !in fs.dirs[job.stagingDir] {
      return false;
    }
    if job.selfInstaller.Some? {
      ok := CopySelfInstaller(fs, job.stagingDir, job.selfInstaller.value);
    }
  }

  method Extract(fs: FileSystem, dir: string, payload: seq<(string, string)>) returns (ok: bool)
    requires fs.Valid() && dir in fs.dirs && fs.dirs[dir] == map[]
    modifies fs
    ensures fs.Valid() && fs.clock >= old(fs.clock)
    ensures fs.dirs - {dir} == old(fs.dirs) - {dir}
    ensures old(fs.history) <= fs.history && fs.OnlySince(|old(fs.history)|, dir, old(fs.dirs) - {dir})
    ensures ok <==> fs.QuietFrom(old(fs.clock), |payload|)
    ensures !ok ==> fs.FaultBetween(old(fs.clock), fs.clock)
    ensures ok ==> fs.clock == old(fs.clock) + |payload| && dir in fs.dirs && fs.dirs[dir] == Extracted(payload)
  {
    ghost var others := fs.dirs - {dir};
    for n := 0 to |payload|
      invariant fs.Valid() && fs.clock == old(fs.clock) + n && fs.QuietFrom(old(fs.clock), n)
      invariant dir in fs.dirs && fs.dirs[dir] == Extracted(payload[..n])
      invariant fs.dirs - {dir} == others
      invariant old(fs.history) <= fs.history && fs.OnlySince(|old(fs.history)|, dir, others)
    {
      ok := fs.Attempt();
      if !ok {
        return;
      }
      assert payload[..n + 1][..n] == payload[..n];
      fs.Put(dir, fs.dirs[dir][payload[n].0 := payload[n].1]);
    }
    assert payload[..|payload|] == payload;
    return true;
  }

  /** Opens the running installer, creates the target empty, and then copies. */
  method CopySelfInstaller(fs: FileSystem, dir: string, self: (string, string)) returns (ok: bool)
    requires fs.Valid() && dir in fs.dirs
    modifies fs
    ensures fs.Valid() && fs.clock >= old(fs.clock)
    ensures fs.dirs - {dir} == old(fs.dirs) - {dir}
    ensures old(fs.history) <= fs.history && fs.OnlySince(|old(fs.history)|, dir, old(fs.dirs) - {dir})
    ensures ok <==> fs.QuietFrom(old(fs.clock), 3)
    ensures !ok ==> fs.FaultBetween(old(fs.clock), fs.clock)
    ensures ok ==>
      fs.clock == old(fs.clock) + 3 && dir in fs.dirs && fs.dirs[dir] == old(fs.dirs)[dir][self.0 := self.1]
  {
    ok := fs.Attempt();
    if !ok {
      return;
    }
    ok := fs.Attempt();
    if !ok {
      return;
    }
    fs.Put(dir, fs.dirs[dir][self.0 := ""]);
    ok := fs.Attempt();
    if !ok {
      return;
    }
    fs.Put(dir, fs.dirs[dir][self.0 := self.1]);
  }

  /** Every disk state since the n-th has the old version intact and leaves other directories alone. */
  ghost predicate SafeSince(fs: FileSystem, n: nat, job: Job, before: Disk)
    reads fs
  {
    forall k :: n <= k < |fs.history| ==>
      OldIntact(job, before, fs.history[k]) && OthersUntouched(job, before, fs.history[k])
  }

  /** A change under the staging name only is safe. */
  lemma StagingIsSafe(job: Job, before: Disk, base: Disk, now: Disk)
    requires job.stagingDir != job.installDir && job.stagingDir != job.BackupDir()
    requires OldIntact(job, before, base) && OthersUntouched(job, before, base)
    requires now - {job.stagingDir} == base - {job.stagingDir}
    ensures OldIntact(job, before, now) && OthersUntouched(job, before, now)
  {
    OnlyDiffers(base, now, job.stagingDir);
  }

  lemma OnlyDiffers(base: Disk, now: Disk, path: string)
    requires now - {path} == base - {path}
    ensures forall p :: p != path ==> (p in now <==> p in base)
    ensures forall p :: p != path && p in now ==> now[p] == base[p]
  {
    forall p | p != path
      ensures p in now <==> p in base
      ensures p in now ==> now[p] == base[p]
    {
      assert p in now <==> p in now - {path};
      assert p in base <==> p in base - {path};
      if p in now {
        assert (now - {path})[p] == (base - {path})[p];
      }
    }
  }

  /** The disk with the old version, if any, moved to the backup name. */
  function BackedUp(job: Job, before: Disk): Disk {
    if job.installDir in before then before[job.BackupDir() := before[job.installDir]] - {job.installDir}
    else before
  }

  lemma BackedUpIsSafe(job: Job, before: Disk, now: Disk)
    requires job.stagingDir !in before && job.stagingDir != job.BackupDir()
    requires now - {job.installDir, job.stagingDir} == BackedUp(job, before)
    ensures job.installDir in before ==> job.BackupDir() in now && now[job.BackupDir()] == before[job.installDir]
    ensures OldIntact(job, before, now) && OthersUntouched(job, before, now)
  {
    BackupIsNotInstall(job);
    var own := {job.installDir, job.BackupDir(), job.stagingDir};
    var kept := now - {job.installDir, job.stagingDir};
    if job.installDir in before {
      assert kept[job.BackupDir()] == before[job.installDir];
    }
    assert now - own == kept - own;
    assert BackedUp(job, before) - own == before - own;
  }

  /** Moving the backup back restores the disk. */
  lemma RestoredIsSafe(job: Job, before: Disk, now: Disk)
    requires now - {job.stagingDir} == before && job.stagingDir != job.installDir
    ensures OldIntact(job, before, now) && OthersUntouched(job, before, now)
  {
    var own := {job.installDir, job.BackupDir(), job.stagingDir};
    assert now - own == (now - {job.stagingDir}) - own;
    if job.installDir in before {
      assert (now - {job.stagingDir})[job.installDir] == before[job.installDir];
    }
  }

  /** Removes whatever is under the install name and moves the backup, if one was made, to it. */
  method RollbackInstall(fs: FileSystem, job: Job, ghost before: Disk, backedUp: bool) returns (ghost clean: bool)
    requires fs.Valid() && backedUp == (job.installDir in before) && (backedUp ==> job.BackupDir() !in before)
    requires job.stagingDir !in before && job.stagingDir != job.installDir && job.stagingDir != job.BackupDir()
    requires fs.dirs - {job.installDir, job.stagingDir} == BackedUp(job, before)
    modifies fs
    ensures fs.Valid() && fs.clock >= old(fs.clock)
    ensures old(fs.history) <= fs.history && SafeSince(fs, |old(fs.history)|, job, before)
    ensures OldIntact(job, before, fs.dirs) && OthersUntouched(job, before, fs.dirs)
    ensures clean ==> fs.dirs - {job.stagingDir} == before
    ensures fs.NoFault(old(fs.clock)) ==> clean
  {
    BackupIsNotInstall(job);
    ghost var base, n := fs.dirs, |fs.history|;
    clean := fs.RemoveAll(job.installDir);
    forall k | n <= k < |fs.history|
      ensures OldIntact(job, before, fs.history[k]) && OthersUntouched(job, before, fs.history[k])
    {
      SameKept(job, base, fs.history[k]);
      BackedUpIsSafe(job, before, fs.history[k]);
    }
    SameKept(job, base, fs.dirs);
    BackedUpIsSafe(job, before, fs.dirs);
    ghost var cleared, past := fs.dirs, fs.history;
    if backedUp {
      var moved := fs.Rename(job.BackupDir(), job.installDir);
      assert forall k :: n <= k < |past| ==> fs.history[k] == past[k];
      if moved {
        MovedBack(job, before, cleared, fs.dirs);
        RestoredIsSafe(job, before, fs.dirs);
      }
      clean := clean && moved;
    } else if clean {
      assert fs.dirs - {job.stagingDir} == fs.dirs - {job.installDir, job.stagingDir};
    }
  }

  lemma SameKept(job: Job, base: Disk, now: Disk)
    requires now - {job.installDir} == base - {job.installDir}
    ensures now - {job.installDir, job.stagingDir} == base - {job.installDir, job.stagingDir}
  {
    assert now - {job.installDir, job.stagingDir} == (now - {job.installDir}) - {job.stagingDir};
    assert base - {job.installDir, job.stagingDir} == (base - {job.installDir}) - {job.stagingDir};
  }

  lemma MovedBack(job: Job, before: Disk, cleared: Disk, now: Disk)
    requires job.installDir in before && job.BackupDir() !in before
    requires job.stagingDir !in before && job.stagingDir != job.installDir && job.stagingDir != job.BackupDir()
    requires cleared - {job.installDir, job.stagingDir} == BackedUp(job, before)
    requires job.installDir !in cleared && job.BackupDir() in cleared
    requires now == cleared[job.installDir := cleared[job.BackupDir()]] - {job.BackupDir()}
    ensures now - {job.stagingDir} == before
  {
    BackupIsNotInstall(job);
    var kept := cleared - {job.installDir, job.stagingDir};
    assert kept[job.BackupDir()] == before[job.installDir];
    assert forall p :: p != job.stagingDir && p != job.installDir ==> (p in cleared <==> p in kept);
    assert forall p :: p in kept ==> cleared[p] == kept[p];
    assert forall p :: p in before && p != job.installDir ==> p in kept && kept[p] == before[p];
    assert forall p :: p in kept && p != job.BackupDir() ==> p in before;
  }

  /** Stop the program, look for an old version, back it up, move the new one in, write the uninstall entry and
      the shortcuts. */
  function ReplaceSteps(job: Job, before: Disk): nat {
    2 + (if job.installDir in before then 1 else 0) + 3
  }

  predicate BackupNameFree(job: Job, before: Disk) {
    job.installDir in before ==> job.BackupDir() !in before
  }

  /** From the staged version to the integrated one: stop the program, back the old version up, move the new one
      in, write the system integration; on failure after the backup, roll back. */
  method Replace(fs: FileSystem, job: Job, ghost before: Disk) returns (ok: bool, backedUp: bool, ghost clean: bool)
    requires fs.Valid() && NamesApart(job, before)
    requires fs.dirs == before[job.stagingDir := NewVersion(job)]
    modifies fs
    ensures fs.Valid() && fs.clock >= old(fs.clock)
    ensures old(fs.history) <= fs.history && SafeSince(fs, |old(fs.history)|, job, before)
    ensures OldIntact(job, before, fs.dirs) && OthersUntouched(job, before, fs.dirs)
    ensures ok ==> fs.dirs == BackedUp(job, before)[job.installDir := NewVersion(job)] && clean
    ensures ok ==> backedUp == (job.installDir in before)
    ensures !ok && clean ==> fs.dirs - {job.stagingDir} == before
    ensures ok <==> fs.QuietFrom(old(fs.clock), ReplaceSteps(job, before)) && BackupNameFree(job, before)
    ensures !ok && BackupNameFree(job, before) ==> fs.FaultBetween(old(fs.clock), fs.clock)
    ensures fs.AtMostOneFault(old(fs.clock)) ==> clean
  {
    BackupIsNotInstall(job);
    assert fs.dirs - {job.stagingDir} == before;
    RestoredIsSafe(job, before, fs.dirs);
    ok := fs.Attempt();
    if !ok {
      return false, false, true;
    }
    var found := fs.Stat(job.installDir);
    if found == StatError {
      return false, false, true;
    }
    if found == Exists {
      ghost var past := fs.history;
      ok := fs.Rename(job.installDir, job.BackupDir());
      if !ok {
        return false, false, true;
      }
      MovedAway(job, before, fs.dirs);
      BackedUpIsSafe(job, before, fs.dirs);
      assert fs.history == past + [fs.dirs];
    } else {
      assert fs.dirs - {job.installDir, job.stagingDir} == before;
    }
    backedUp := found == Exists;
    ok, clean := PutInPlace(fs, job, before, backedUp);
  }

  lemma MovedAway(job: Job, before: Disk, now: Disk)
    requires NamesApart(job, before) && job.installDir in before && job.BackupDir() !in before
    requires now
      == before[job.stagingDir := NewVersion(job)][job.BackupDir() := before[job.installDir]] - {job.installDir}
    ensures now - {job.installDir, job.stagingDir} == BackedUp(job, before)
    ensures now == BackedUp(job, before)[job.stagingDir := NewVersion(job)]
  {
    BackupIsNotInstall(job);
  }

  /** Move the staged version in and write the integration, rolling back when either fails. */
  method PutInPlace(fs: FileSystem, job: Job, ghost before: Disk, backedUp: bool) returns (ok: bool, ghost clean: bool)
    requires fs.Valid() && NamesApart(job, before)
    requires backedUp == (job.installDir in before) && (backedUp ==> job.BackupDir() !in before)
    requires fs.dirs == BackedUp(job, before)[job.stagingDir := NewVersion(job)]
    modifies fs
    ensures fs.Valid() && fs.clock >= old(fs.clock)
    ensures old(fs.history) <= fs.history && SafeSince(fs, |old(fs.history)|, job, before)
    ensures OldIntact(job, before, fs.dirs) && OthersUntouched(job, before, fs.dirs)
    ensures ok <==> fs.QuietFrom(old(fs.clock), 3)
    ensures !ok ==> fs.FaultBetween(old(fs.clock), fs.clock)
    ensures ok ==> fs.dirs == BackedUp(job, before)[job.installDir := NewVersion(job)] && clean
    ensures !ok && clean ==> fs.dirs - {job.stagingDir} == before
    ensures fs.AtMostOneFault(old(fs.clock)) ==> clean
  {
    BackupIsNotInstall(job);
    assert fs.dirs - {job.installDir, job.stagingDir} == BackedUp(job, before);
    ghost var n := |fs.history|;
    ok := fs.Rename(job.stagingDir, job.installDir);
    if !ok {
      clean := RollbackInstall(fs, job, before, backedUp);
      return;
    }
    ghost var past := fs.history;
    assert fs.dirs == BackedUp(job, before)[job.installDir := NewVersion(job)];
    ok, clean := Integrate(fs, job, before, backedUp);
    assert fs.history[n] == past[n];
  }

  /** Write the uninstall entry and the shortcuts of the version in place, rolling back when either fails. */
  method Integrate(fs: FileSystem, job: Job, ghost before: Disk, backedUp: bool) returns (ok: bool, ghost clean: bool)
    requires fs.Valid() && NamesApart(job, before) && fs.history != []
    requires backedUp == (job.installDir in before) && (backedUp ==> job.BackupDir() !in before)
    requires fs.dirs == BackedUp(job, before)[job.installDir := NewVersion(job)]
    modifies fs
    ensures fs.Valid() && fs.clock >= old(fs.clock)
    ensures old(fs.history) <= fs.history && SafeSince(fs, |old(fs.history)| - 1, job, before)
    ensures OldIntact(job, before, fs.dirs) && OthersUntouched(job, before, fs.dirs)
    ensures ok <==> fs.QuietFrom(old(fs.clock), 2)
    ensures !ok ==> fs.FaultBetween(old(fs.clock), fs.clock)
    ensures ok ==> fs.dirs == old(fs.dirs) && clean
    ensures !ok && clean ==> fs.dirs - {job.stagingDir} == before
    ensures fs.AtMostOneFault(old(fs.clock)) ==> clean
  {
    BackupIsNotInstall(job);
    assert fs.dirs - {job.installDir, job.stagingDir} == BackedUp(job, before);
    BackedUpIsSafe(job, before, fs.dirs);
    ghost var past := fs.history;
    ok := fs.Attempt();
    if ok {
      ok := fs.Attempt();
    }
    if !ok {
      clean := RollbackInstall(fs, job, before, backedUp);
      assert fs.history[|past| - 1] == past[|past| - 1];
      return;
    }
    return true, true;
  }

  datatype InstallResult = Failure | Installed(launched: bool)

  /** Manifest, install directory, elevation, payload, payload hash, cancellation, parent directory. */
  const PREFLIGHT_CHECKS: nat := 7

  method Preflight(fs: FileSystem) returns (ok: bool)
    modifies fs`clock
    ensures ok <==> fs.QuietFrom(old(fs.clock), PREFLIGHT_CHECKS)
    ensures !ok ==> fs.FaultBetween(old(fs.clock), fs.clock)
    ensures fs.clock >= old(fs.clock) && (ok ==> fs.clock == old(fs.clock) + PREFLIGHT_CHECKS)
  {
    for i := 0 to PREFLIGHT_CHECKS
      invariant fs.clock == old(fs.clock) + i && fs.QuietFrom(old(fs.clock), i)
    {
      ok := fs.Attempt();
      if !ok {
        return;
      }
    }
    return true;
  }

  /** commit is the number of disk states before the new version counts as installed: in every state before it
      the old version is intact under the install or the backup name, and in every later one the new version is
      installed. Other directories are never touched. */
  ghost predicate CrashSafe(fs: FileSystem, n: nat, commit: nat, job: Job, before: Disk)
    reads fs
  {
    && n <= commit <= |fs.history|
    && (forall k :: n <= k < |fs.history| ==> OthersUntouched(job, before, fs.history[k]))
    && (forall k :: n <= k < commit ==> OldIntact(job, before, fs.history[k]))
    && (forall k :: commit <= k < |fs.history| ==> NewInstalled(job, fs.history[k]))
  }

  /** The whole installation; a crash lands in one of the states of the history. A failed installation never
      commits, and when its clean-up operations succeed it leaves the disk as it was. */
  method Install(fs: FileSystem, job: Job, launch: bool)
    returns (r: InstallResult, ghost clean: bool, ghost commit: nat)
    requires fs.Valid() && NamesApart(job, fs.dirs)
    modifies fs
    ensures fs.Valid() && old(fs.history) <= fs.history
    ensures CrashSafe(fs, |old(fs.history)|, commit, job, old(fs.dirs))
    ensures r == Failure ==> commit == |fs.history| && OldIntact(job, old(fs.dirs), fs.dirs)
    ensures r == Failure && clean ==> fs.dirs == old(fs.dirs)
    ensures r.Installed? ==> NewInstalled(job, fs.dirs) && OthersUntouched(job, old(fs.dirs), fs.dirs)
    ensures r.Installed? ==> HoldsPayload(job, fs.dirs[job.installDir])
    // Launching comes last; when it fails the installation stands.
    ensures r.Installed? ==> (r.launched <==> !launch || (fs.clock > 0 && !fs.fails(fs.clock - 1)))
    ensures r.Installed? && clean ==>
      job.stagingDir !in fs.dirs && (job.installDir in old(fs.dirs) ==> job.BackupDir() !in fs.dirs)
    // It succeeds exactly when none of its steps up to the shortcuts fails, the payload has the main program,
    // and the backup name is free if it is needed.
    ensures r.Installed? <==>
      && fs.QuietFrom(old(fs.clock), PrepareSteps(job) + ReplaceSteps(job, old(fs.dirs)))
      && PayloadHas(job.payload, job.appExecutable) && BackupNameFree(job, old(fs.dirs))
    // A single fault never keeps a failed installation from cleaning up.
    ensures r == Failure ==> PayloadHas(job.payload, job.appExecutable) ==> BackupNameFree(job, old(fs.dirs)) ==>
      fs.AtMostOneFault(old(fs.clock)) ==> clean
    ensures fs.NoFault(old(fs.clock)) ==> clean
  {
    var ok;
    ok, clean, commit := InstallVersion(fs, job);
    assert PayloadHas(job.payload, job.appExecutable) <==> job.appExecutable in Extracted(job.payload) by {
      ExtractedNames(job.payload, job.appExecutable);
    }
    if !ok {
      return Failure, clean, commit;
    }
    assert HoldsPayload(job, fs.dirs[job.installDir]) by {
      NewVersionHoldsPayload(job);
    }
    var launched := Launch(fs, launch);
    return Installed(launched), clean, commit;
  }

  method Launch(fs: FileSystem, launch: bool) returns (launched: bool)
    modifies fs`clock
    ensures launched <==> !launch || (fs.clock > 0 && !fs.fails(fs.clock - 1))
  {
    launched := true;
    if launch {
      launched := fs.Attempt();
    }
  }

  /** Everything but launching the program. */
  method InstallVersion(fs: FileSystem, job: Job) returns (ok: bool, ghost clean: bool, ghost commit: nat)
    requires fs.Valid() && NamesApart(job, fs.dirs)
    modifies fs
    ensures fs.Valid() && old(fs.history) <= fs.history
    ensures CrashSafe(fs, |old(fs.history)|, commit, job, old(fs.dirs))
    ensures !ok ==> commit == |fs.history| && OldIntact(job, old(fs.dirs), fs.dirs)
    ensures !ok && clean ==> fs.dirs == old(fs.dirs)
    ensures ok ==> NewInstalled(job, fs.dirs) && OthersUntouched(job, old(fs.dirs), fs.dirs)
    ensures ok && clean ==>
      job.stagingDir !in fs.dirs && (job.installDir in old(fs.dirs) ==> job.BackupDir() !in fs.dirs)
    ensures ok <==>
      && fs.QuietFrom(old(fs.clock), PrepareSteps(job) + ReplaceSteps(job, old(fs.dirs)))
      && job.appExecutable in Extracted(job.payload) && BackupNameFree(job, old(fs.dirs))
    ensures !ok && job.appExecutable in Extracted(job.payload) && BackupNameFree(job, old(fs.dirs)) ==>
      fs.AtMostOneFault(old(fs.clock)) ==> clean
    ensures fs.NoFault(old(fs.clock)) ==> clean
  {
    ghost var before, n := fs.dirs, |fs.history|;
    ok, clean := Prepare(fs, job);
    if !ok {
      return false, clean, |fs.history|;
    }
    ok, clean, commit := InstallStaged(fs, n, job, before);
  }

  function PrepareSteps(job: Job): nat {
    PREFLIGHT_CHECKS + StageSteps(job) + 1
  }

  /** Everything before the replacement: the checks, the staging directory, a last look for cancellation. */
  method Prepare(fs: FileSystem, job: Job) returns (ok: bool, ghost clean: bool)
    requires fs.Valid() && NamesApart(job, fs.dirs)
    modifies fs
    ensures fs.Valid() && fs.clock >= old(fs.clock)
    ensures old(fs.history) <= fs.history && SafeSince(fs, |old(fs.history)|, job, old(fs.dirs))
    ensures ok <==> fs.QuietFrom(old(fs.clock), PrepareSteps(job)) && job.appExecutable in Extracted(job.payload)
    ensures ok ==> fs.clock == old(fs.clock) + PrepareSteps(job)
    ensures ok ==> fs.dirs == old(fs.dirs)[job.stagingDir := NewVersion(job)]
    ensures !ok ==> OldIntact(job, old(fs.dirs), fs.dirs)
    ensures !ok && clean ==> fs.dirs == old(fs.dirs)
    ensures job.appExecutable in Extracted(job.payload) && fs.AtMostOneFault(old(fs.clock)) ==> clean
    ensures fs.NoFault(old(fs.clock)) ==> clean
  {
    ghost var before, n := fs.dirs, |fs.history|;
    assert before - {job.stagingDir} == before;
    RestoredIsSafe(job, before, before);
    ok := Preflight(fs);
    if !ok {
      return false, true;
    }
    ok := Stage(fs, job);
    StagedIsSafe(fs, n, job, before);
    if ok {
      ok := fs.Attempt();
    }
    if !ok {
      clean := RemoveStaging(fs, n, job, before);
      return false, clean;
    }
    assert fs.dirs == before[job.stagingDir := NewVersion(job)];
    return true, true;
  }

  method InstallStaged(fs: FileSystem, ghost n: nat, job: Job, ghost before: Disk)
    returns (ok: bool, ghost clean: bool, ghost commit: nat)
    requires fs.Valid() && NamesApart(job, before) && n <= |fs.history|
    requires fs.dirs == before[job.stagingDir := NewVersion(job)] && SafeSince(fs, n, job, before)
    modifies fs
    ensures fs.Valid() && old(fs.history) <= fs.history
    ensures CrashSafe(fs, n, commit, job, before)
    ensures !ok ==> commit == |fs.history| && OldIntact(job, before, fs.dirs)
    ensures !ok && clean ==> fs.dirs == before
    ensures ok ==> NewInstalled(job, fs.dirs) && OthersUntouched(job, before, fs.dirs) && job.stagingDir !in fs.dirs
    ensures ok && clean && job.installDir in before ==> job.BackupDir() !in fs.dirs
    ensures ok <==> fs.QuietFrom(old(fs.clock), ReplaceSteps(job, before)) && BackupNameFree(job, before)
    ensures !ok && BackupNameFree(job, before) && fs.AtMostOneFault(old(fs.clock)) ==> clean
    ensures fs.NoFault(old(fs.clock)) ==> clean
  {
    ghost var staged := fs.history;
    var backedUp;
    ok, backedUp, clean := Replace(fs, job, before);
    assert forall k :: n <= k < |staged| ==> fs.history[k] == staged[k];
    if !ok {
      ghost var restored := clean;
      clean := RemoveStaging(fs, n, job, before);
      clean := clean && restored;
      commit := |fs.history|;
      return;
    }
    commit := |fs.history|;
    BackupIsNotInstall(job);
    if backedUp {
      clean := RemoveBackup(fs, n, job, before);
    }
  }

  /** Staging has only touched the staging directory, so every state is safe. */
  lemma StagedIsSafe(fs: FileSystem, n: nat, job: Job, before: Disk)
    requires NamesApart(job, before)
    requires fs.dirs - {job.stagingDir} == before - {job.stagingDir}
    requires fs.OnlySince(n, job.stagingDir, before - {job.stagingDir})
    ensures SafeSince(fs, n, job, before)
    ensures fs.dirs - {job.stagingDir} == before
    ensures OldIntact(job, before, fs.dirs) && OthersUntouched(job, before, fs.dirs)
  {
    assert before - {job.stagingDir} == before;
    forall k | n <= k < |fs.history|
      ensures OldIntact(job, before, fs.history[k]) && OthersUntouched(job, before, fs.history[k])
    {
      RestoredIsSafe(job, before, fs.history[k]);
    }
    RestoredIsSafe(job, before, fs.dirs);
  }

  /** The deferred clean-up of a failed installation. */
  method RemoveStaging(fs: FileSystem, ghost n: nat, job: Job, ghost before: Disk) returns (ghost clean: bool)
    requires fs.Valid() && NamesApart(job, before) && SafeSince(fs, n, job, before)
    requires OldIntact(job, before, fs.dirs) && OthersUntouched(job, before, fs.dirs)
    modifies fs
    ensures fs.Valid() && fs.clock >= old(fs.clock)
    ensures old(fs.history) <= fs.history && SafeSince(fs, n, job, before)
    ensures OldIntact(job, before, fs.dirs) && OthersUntouched(job, before, fs.dirs)
    ensures clean && old(fs.dirs) - {job.stagingDir} == before ==> fs.dirs == before
    ensures fs.NoFault(old(fs.clock)) ==> clean
  {
    ghost var base, past := fs.dirs, fs.history;
    clean := fs.RemoveAll(job.stagingDir);
    forall k | n <= k < |fs.history|
      ensures OldIntact(job, before, fs.history[k]) && OthersUntouched(job, before, fs.history[k])
    {
      if k < |past| {
        assert fs.history[k] == past[k];
      } else {
        StagingIsSafe(job, before, base, fs.history[k]);
      }
    }
    StagingIsSafe(job, before, base, fs.dirs);
    if clean {
      assert fs.dirs - {job.stagingDir} == fs.dirs;
    }
  }

  /** Removing the backup of a completed installation. */
  method RemoveBackup(fs: FileSystem, ghost n: nat, job: Job, ghost before: Disk) returns (ghost clean: bool)
    requires fs.Valid() && NamesApart(job, before) && SafeSince(fs, n, job, before) && n <= |fs.history|
    requires job.installDir in before
    requires fs.dirs == BackedUp(job, before)[job.installDir := NewVersion(job)]
    modifies fs
    ensures fs.Valid() && fs.clock >= old(fs.clock)
    ensures old(fs.history) <= fs.history
    ensures forall k :: n <= k < |old(fs.history)| ==> OldIntact(job, before, fs.history[k])
    ensures forall k :: |old(fs.history)| <= k < |fs.history| ==> NewInstalled(job, fs.history[k])
    ensures forall k :: n <= k < |fs.history| ==> OthersUntouched(job, before, fs.history[k])
    ensures NewInstalled(job, fs.dirs) && OthersUntouched(job, before, fs.dirs) && job.stagingDir !in fs.dirs
    ensures clean ==> job.BackupDir() !in fs.dirs
    ensures fs.NoFault(old(fs.clock)) ==> clean
  {
    BackupIsNotInstall(job);
    ghost var base, past := fs.dirs, fs.history;
    assert fs.dirs - {job.installDir, job.stagingDir} == BackedUp(job, before);
    BackedUpIsSafe(job, before, base);
    clean := fs.RemoveAll(job.BackupDir());
    forall k | n <= k < |fs.history|
      ensures k < |past| ==> OldIntact(job, before, fs.history[k])
      ensures |past| <= k ==> NewInstalled(job, fs.history[k])
      ensures OthersUntouched(job, before, fs.history[k])
    {
      if k < |past| {
        assert fs.history[k] == past[k];
      } else {
        BackupGoneIsSafe(job, before, base, fs.history[k]);
      }
    }
    BackupGoneIsSafe(job, before, base, fs.dirs);
  }

  lemma BackupGoneIsSafe(job: Job, before: Disk, base: Disk, now: Disk)
    requires OthersUntouched(job, before, base) && NewInstalled(job, base) && job.stagingDir !in base
    requires job.stagingDir != job.BackupDir()
    requires now - {job.BackupDir()} == base - {job.BackupDir()}
    ensures OthersUntouched(job, before, now) && NewInstalled(job, now) && job.stagingDir !in now
  {
    BackupIsNotInstall(job);
    OnlyDiffers(base, now, job.BackupDir());
  }
}
