/**
 * `BackupServiceImpl`: backing up the game files a mod replaces and restoring them, with the
 * "smart" skips that avoid copying a file whose state is already known. The file service is a
 * `Store`: a map from a path to its content digest (its MD5), plus the directories and copies the
 * storage refuses; the clock is a parameter. Each flow's emitted events are a sequence.
 */
module Backup {
  import opened Wrappers
  import opened Lists
  import opened Strings
  import JavaFile

  /** The storage as the file service sees it. A file that does not exist, or whose digest
    * cannot be computed, has the digest "". */
  datatype Store = Store(
    files: map<string, string>,
    failingDirs: set<string>,
    failingCopies: set<(string, string)>)

  function Md5(st: Store, p: string): string
  {
    if p in st.files then st.files[p] else ""
  }

  /** A successful `copyFile`. */
  function Copy(st: Store, src: string, dst: string): (r: Store)
    requires src in st.files
    ensures r.files == st.files[dst := st.files[src]]
  {
    st.(files := st.files[dst := st.files[src]])
  }

  datatype BackupBean = BackupBean(
    modId: int,
    filename: string,
    gamePath: string,
    gameFilePath: string,
    backupPath: string,
    gamePackageName: string,
    backupTime: int,
    copyTime: int,
    originalMd5: string)

  datatype AppError = FileMissing(path: string) | CreateDirectoryFailed(dir: string) | CopyFailed(file: string)

  datatype BackupEvent =
    | FileProgress(fileName: string, current: nat, total: nat)
    | Success(backups: seq<BackupBean>)
    | Failed(error: AppError)

  /** What a backup is for: the mod and the game; `clock` gives the time of the copy of the
    * file at each index; `dirOf` and `nameOf` place each game file's backup (`JobFor` gives the
    * service's own placement). */
  datatype Job = Job(
    modId: int,
    gamePath: string,
    packageName: string,
    currentTime: int,
    clock: nat -> int,
    dirOf: string -> string,
    nameOf: string -> string)

  /** `getBackupDir`: the game file's directory below the game's data directory, put under the
    * game's backup directory; the latter itself when the file is not below a data directory. */
  function BackupDir(backupRoot: string, gameFilePath: string, packageName: string): string
  {
    var dataPrefix := "/Android/data/" + packageName + "/";
    var relativePath :=
      if Contains(gameFilePath, dataPrefix) then
        var startIndex := IndexOf(gameFilePath, dataPrefix) + |dataPrefix|;
        JavaFile.Parent(gameFilePath[startIndex..]).GetOr("")
      else "";
    if relativePath != [] then backupRoot + "/" + packageName + "/" + relativePath
    else backupRoot + "/" + packageName + "/"
  }

  function BackupPath(backupRoot: string, gameFilePath: string, packageName: string): string
  {
    BackupDir(backupRoot, gameFilePath, packageName) + "/" + JavaFile.Name(gameFilePath)
  }

  /** The job the service runs: backups under `backupRoot`, placed by `getBackupDir` and named
    * after the game file. */
  function JobFor(modId: int, gamePath: string, packageName: string, backupRoot: string, currentTime: int, clock: nat -> int): Job
  {
    Job(modId, gamePath, packageName, currentTime, clock,
        (p: string) => BackupDir(backupRoot, p, packageName), (p: string) => JavaFile.Name(p))
  }

  /** Where a job puts the backup of a game file. */
  function BackupPathOf(job: Job, p: string): string
  {
    job.dirOf(p) + "/" + job.nameOf(p)
  }

  /** The service's job puts each backup at `getBackupDir`'s directory, under the game file's
    * own name. */
  lemma JobForPlacement(modId: int, gamePath: string, packageName: string, backupRoot: string, currentTime: int, clock: nat -> int, p: string)
    ensures var job := JobFor(modId, gamePath, packageName, backupRoot, currentTime, clock);
      job.dirOf(p) == BackupDir(backupRoot, p, packageName) &&
      BackupPathOf(job, p) == BackupPath(backupRoot, p, packageName) &&
      StartsWith(BackupPathOf(job, p), backupRoot + "/" + packageName + "/")
  {
    BackupDirMeaning(backupRoot, p, packageName);
  }

  /** Every backup lies in the game's own backup directory; a file outside any data directory,
    * or directly in it, is backed up at the top of that directory. */
  lemma BackupDirMeaning(backupRoot: string, gameFilePath: string, packageName: string)
    ensures StartsWith(BackupDir(backupRoot, gameFilePath, packageName), backupRoot + "/" + packageName + "/")
    ensures var dataPrefix := "/Android/data/" + packageName + "/";
      var i := IndexOf(gameFilePath, dataPrefix);
      (i < 0 || (var rest := gameFilePath[i + |dataPrefix|..]; rest != [] && '/' !in rest)) ==>
        BackupDir(backupRoot, gameFilePath, packageName) == backupRoot + "/" + packageName + "/"
  {
    var dataPrefix := "/Android/data/" + packageName + "/";
    var i := IndexOf(gameFilePath, dataPrefix);
    if i >= 0 {
      var rest := gameFilePath[i + |dataPrefix|..];
      if rest != [] && '/' !in rest {
        JavaFile.PlainName(rest);
      }
    }
  }

  // ---------------------------------------------------------------------------------------
  // Backup
  // ---------------------------------------------------------------------------------------

  /** The state of a flow after some of its files: the events emitted, the records made, the
    * storage, and whether it has stopped on a failure. */
  datatype BackupRun = BackupRun(events: seq<BackupEvent>, backups: seq<BackupBean>, store: Store, stopped: bool)

  function NewBackup(job: Job, index: nat, gameFilePath: string, md5: string): BackupBean
  {
    BackupBean(job.modId, job.nameOf(gameFilePath), job.gamePath, gameFilePath,
               BackupPathOf(job, gameFilePath), job.packageName,
               job.currentTime, job.clock(index), md5)
  }

  /** What happens to one game file: the failure that stops the flow, or the digest its record
    * takes and the storage after any copy. */
  datatype FileOutcome = Stop(error: AppError) | Record(md5: string, store: Store)

  /** One game file. `replaced` holds the digest recorded when a mod replaced the file. */
  function BackupFile(st: Store, job: Job, replaced: map<string, string>, gameFilePath: string): FileOutcome
  {
    var backupDir := job.dirOf(gameFilePath);
    var backupPath := backupDir + "/" + job.nameOf(gameFilePath);
    if gameFilePath !in st.files then Stop(FileMissing(gameFilePath))
    else if gameFilePath in replaced && Md5(st, gameFilePath) == replaced[gameFilePath] && backupPath in st.files then
      Record(Md5(st, backupPath), st)
    else if backupDir in st.failingDirs then Stop(CreateDirectoryFailed(backupDir))
    else if (gameFilePath, backupPath) in st.failingCopies then Stop(CopyFailed(gameFilePath))
    else Record(Md5(st, gameFilePath), Copy(st, gameFilePath, backupPath))
  }

  /** One game file's progress event, then its record or its failure. */
  function BackupStep(r: BackupRun, job: Job, replaced: map<string, string>, index: nat, total: nat, gameFilePath: string): BackupRun
  {
    var events := r.events + [FileProgress(job.nameOf(gameFilePath), index + 1, total)];
    match BackupFile(r.store, job, replaced, gameFilePath)
    case Stop(e) => BackupRun(events + [Failed(e)], r.backups, r.store, true)
    case Record(md5, st) => BackupRun(events, r.backups + [NewBackup(job, index, gameFilePath, md5)], st, false)
  }

  /** The files of `paths` in turn, stopping at the first failure. */
  function BackupFiles(paths: seq<string>, job: Job, replaced: map<string, string>, st: Store, total: nat): BackupRun
  {
    if paths == [] then BackupRun([], [], st, false)
    else
      var r := BackupFiles(paths[..|paths| - 1], job, replaced, st, total);
      if r.stopped then r else BackupStep(r, job, replaced, |paths| - 1, total, paths[|paths| - 1])
  }

  /** `backupGameFiles`: the events emitted and the storage afterwards. */
  function BackupSpec(paths: seq<string>, job: Job, replaced: map<string, string>, st: Store): (seq<BackupEvent>, Store)
  {
    if paths == [] then ([Success([])], st)
    else
      var r := BackupFiles(paths, job, replaced, st, |paths|);
      (if r.stopped then r.events else r.events + [Success(r.backups)], r.store)
  }

  lemma {:induction false} BackupStoppedStays(paths: seq<string>, k: nat, job: Job, replaced: map<string, string>, st: Store, total: nat)
    requires k <= |paths| && BackupFiles(paths[..k], job, replaced, st, total).stopped
    ensures BackupFiles(paths, job, replaced, st, total) == BackupFiles(paths[..k], job, replaced, st, total)
    decreases |paths|
  {
    if |paths| > k {
      var front := paths[..|paths| - 1];
      assert front[..k] == paths[..k];
      BackupStoppedStays(front, k, job, replaced, st, total);
    } else {
      assert paths[..k] == paths;
    }
  }

  /** `backupGameFiles` as the loop it is. */
  method BackupGameFiles(paths: seq<string>, job: Job, replaced: map<string, string>, st: Store)
    returns (events: seq<BackupEvent>, store: Store)
    ensures (events, store) == BackupSpec(paths, job, replaced, st)
  {
    if |paths| == 0 {
      return [Success([])], st;
    }
    var backups: seq<BackupBean> := [];
    var total := |paths|;
    events := [];
    store := st;
    for i := 0 to |paths|
      invariant BackupFiles(paths[..i], job, replaced, st, total) == BackupRun(events, backups, store, false)
    {
      var gameFilePath := paths[i];
      var fileName := job.nameOf(gameFilePath);
      var backupDir := job.dirOf(gameFilePath);
      var backupPath := backupDir + "/" + fileName;
      assert paths[..i + 1][..i] == paths[..i];
      var outcome := BackupFile(store, job, replaced, gameFilePath);
      events := events + [FileProgress(fileName, i + 1, total)];
      if gameFilePath !in store.files {
        assert outcome == Stop(FileMissing(gameFilePath));
        events := events + [Failed(FileMissing(gameFilePath))];
        BackupStoppedStays(paths, i + 1, job, replaced, st, total);
        return;
      }
      var currentMd5 := Md5(store, gameFilePath);
      if gameFilePath in replaced && currentMd5 == replaced[gameFilePath] && backupPath in store.files {
        var existingBackupMd5 := Md5(store, backupPath);
        assert outcome == Record(existingBackupMd5, store);
        backups := backups + [NewBackup(job, i, gameFilePath, existingBackupMd5)];
        continue;
      }
      if backupDir in store.failingDirs {
        assert outcome == Stop(CreateDirectoryFailed(backupDir));
        events := events + [Failed(CreateDirectoryFailed(backupDir))];
        BackupStoppedStays(paths, i + 1, job, replaced, st, total);
        return;
      }
      if (gameFilePath, backupPath) in store.failingCopies {
        assert outcome == Stop(CopyFailed(gameFilePath));
        events := events + [Failed(CopyFailed(gameFilePath))];
        BackupStoppedStays(paths, i + 1, job, replaced, st, total);
        return;
      }
      assert outcome == Record(currentMd5, Copy(store, gameFilePath, backupPath));
      store := Copy(store, gameFilePath, backupPath);
      backups := backups + [NewBackup(job, i, gameFilePath, currentMd5)];
    }
    assert paths[..|paths|] == paths;
    events := events + [Success(backups)];
  }

  /** One file adds its progress event and either one record or one failure. */
  lemma BackupStepShape(r: BackupRun, job: Job, replaced: map<string, string>, index: nat, total: nat, p: string)
    ensures var r' := BackupStep(r, job, replaced, index, total, p);
      var events := r.events + [FileProgress(job.nameOf(p), index + 1, total)];
      (r'.stopped ==>
        |r'.events| == |events| + 1 && r'.events[..|events|] == events && r'.events[|events|].Failed?) &&
      (!r'.stopped ==> r'.events == events && r'.backups == r.backups + [NewBackup(job, index, p, r'.backups[|r.backups|].originalMd5)])
  {
  }

  /** A run emits no success. */
  lemma {:induction false} BackupNoSuccess(paths: seq<string>, job: Job, replaced: map<string, string>, st: Store, total: nat)
    ensures forall k :: 0 <= k < |BackupFiles(paths, job, replaced, st, total).events| ==>
      !BackupFiles(paths, job, replaced, st, total).events[k].Success?
  {
    if paths != [] {
      var front := paths[..|paths| - 1];
      var x := paths[|paths| - 1];
      BackupNoSuccess(front, job, replaced, st, total);
      var r0 := BackupFiles(front, job, replaced, st, total);
      var r := BackupFiles(paths, job, replaced, st, total);
      if !r0.stopped {
        BackupStepShape(r0, job, replaced, |paths| - 1, total, x);
        var events := r0.events + [FileProgress(job.nameOf(x), |paths|, total)];
        assert r.events[..|events|] == events;
        forall k | 0 <= k < |r.events| ensures !r.events[k].Success? {
          if k < |events| {
            assert r.events[k] == r.events[..|events|][k] == events[k];
            if k < |r0.events| {
              assert events[k] == r0.events[k];
            } else {
              assert events[k].FileProgress?;
            }
          } else {
            assert r.stopped && k == |events|;
            assert r.events[k].Failed?;
          }
        }
      }
    }
  }

  /** A stopped run ends with its one failure, and an unstopped run has no failure. */
  lemma {:induction false} BackupFailedLast(paths: seq<string>, job: Job, replaced: map<string, string>, st: Store, total: nat)
    ensures var r := BackupFiles(paths, job, replaced, st, total);
      (forall k :: 0 <= k < |r.events| - 1 ==> !r.events[k].Failed?) &&
      (r.stopped ==> r.events != [] && r.events[|r.events| - 1].Failed?) &&
      (!r.stopped ==> forall k :: 0 <= k < |r.events| ==> !r.events[k].Failed?)
  {
    if paths != [] {
      var front := paths[..|paths| - 1];
      var x := paths[|paths| - 1];
      BackupFailedLast(front, job, replaced, st, total);
      var r0 := BackupFiles(front, job, replaced, st, total);
      var r := BackupFiles(paths, job, replaced, st, total);
      if !r0.stopped {
        BackupStepShape(r0, job, replaced, |paths| - 1, total, x);
        var events := r0.events + [FileProgress(job.nameOf(x), |paths|, total)];
        assert forall k :: 0 <= k < |events| ==> !events[k].Failed? by {
          forall k | 0 <= k < |events| ensures !events[k].Failed? {
            if k < |r0.events| {
              assert events[k] == r0.events[k];
            }
          }
        }
        if r.stopped {
          forall k | 0 <= k < |r.events| - 1 ensures !r.events[k].Failed? {
            assert r.events[k] == r.events[..|events|][k];
          }
        }
      }
    }
  }

  /** A run that has not stopped made one record per file, in order, each naming its game file
    * and its backup. */
  lemma {:induction false} BackupRecords(paths: seq<string>, job: Job, replaced: map<string, string>, st: Store, total: nat)
    ensures var r := BackupFiles(paths, job, replaced, st, total);
      !r.stopped ==>
        |r.backups| == |paths| &&
        forall i :: 0 <= i < |paths| ==>
          r.backups[i].gameFilePath == paths[i] && r.backups[i].modId == job.modId &&
          r.backups[i].backupPath == BackupPathOf(job, paths[i])
  {
    if paths != [] {
      var front := paths[..|paths| - 1];
      var x := paths[|paths| - 1];
      BackupRecords(front, job, replaced, st, total);
      var r0 := BackupFiles(front, job, replaced, st, total);
      var r := BackupFiles(paths, job, replaced, st, total);
      if !r.stopped {
        assert !r0.stopped;
        BackupStepShape(r0, job, replaced, |paths| - 1, total, x);
        var b := NewBackup(job, |paths| - 1, x, r.backups[|r0.backups|].originalMd5);
        assert r.backups == r0.backups + [b];
        forall i | 0 <= i < |paths|
          ensures r.backups[i].gameFilePath == paths[i] && r.backups[i].modId == job.modId
          ensures r.backups[i].backupPath == BackupPathOf(job, paths[i])
        {
          if i < |front| {
            assert r.backups[i] == r0.backups[i] && paths[i] == front[i];
          } else {
            assert r.backups[i] == b;
          }
        }
      }
    }
  }

  /** `backupGameFiles` ends with exactly one outcome: a success holding one record per game
    * file, or a failure, after which no record list is emitted at all. */
  lemma BackupOutcome(paths: seq<string>, job: Job, replaced: map<string, string>, st: Store)
    ensures var events := BackupSpec(paths, job, replaced, st).0;
      events != [] &&
      (forall k :: 0 <= k < |events| - 1 ==> !events[k].Success? && !events[k].Failed?) &&
      (events[|events| - 1].Success? || events[|events| - 1].Failed?) &&
      (events[|events| - 1].Success? ==>
        var bs := events[|events| - 1].backups;
        |bs| == |paths| &&
        forall i :: 0 <= i < |paths| ==>
          bs[i].gameFilePath == paths[i] && bs[i].backupPath == BackupPathOf(job, paths[i])) &&
      (paths == [] ==> events == [Success([])])
  {
    if paths != [] {
      BackupNoSuccess(paths, job, replaced, st, |paths|);
      BackupFailedLast(paths, job, replaced, st, |paths|);
      BackupRecords(paths, job, replaced, st, |paths|);
    }
  }

  /** The smart skip: a replaced file still in its replaced state whose backup exists is not
    * copied, and its record takes the backup's digest; any other present file is copied to
    * its backup path (unless the storage refuses) and its record takes the file's digest; a
    * missing file stops the flow. */
  lemma SmartBackup(st: Store, job: Job, replaced: map<string, string>, p: string)
    ensures var backupPath := BackupPathOf(job, p);
      var dir := job.dirOf(p);
      var o := BackupFile(st, job, replaced, p);
      (p !in st.files ==> o == Stop(FileMissing(p))) &&
      (p in st.files && p in replaced && st.files[p] == replaced[p] && backupPath in st.files ==>
        o == Record(st.files[backupPath], st)) &&
      (p in st.files && !(p in replaced && st.files[p] == replaced[p] && backupPath in st.files) &&
       dir !in st.failingDirs && (p, backupPath) !in st.failingCopies ==>
        o.Record? && o.md5 == st.files[p] && o.store.files == st.files[backupPath := st.files[p]])
  {
  }

  // ---------------------------------------------------------------------------------------
  // Restore
  // ---------------------------------------------------------------------------------------

  datatype RestoreRun = RestoreRun(events: seq<BackupEvent>, restored: seq<BackupBean>, store: Store, stopped: bool)

  /** One backup. */
  function RestoreStep(r: RestoreRun, replaced: map<string, string>, index: nat, total: nat, b: BackupBean): RestoreRun
  {
    var st := r.store;
    var events := r.events + [FileProgress(b.filename, index + 1, total)];
    var currentMd5 := Md5(st, b.gameFilePath);
    if b.gameFilePath in replaced && currentMd5 != [] && currentMd5 != replaced[b.gameFilePath] then
      RestoreRun(events, r.restored + [b], st, false)
    else if b.backupPath in st.files then
      if (b.backupPath, b.gameFilePath) in st.failingCopies then
        RestoreRun(events + [Failed(CopyFailed(b.backupPath))], r.restored, st, true)
      else
        RestoreRun(events, r.restored + [b], Copy(st, b.backupPath, b.gameFilePath), false)
    else
      RestoreRun(events, r.restored + [b], st, false)
  }

  function RestoreFiles(backups: seq<BackupBean>, replaced: map<string, string>, st: Store, total: nat): RestoreRun
  {
    if backups == [] then RestoreRun([], [], st, false)
    else
      var r := RestoreFiles(backups[..|backups| - 1], replaced, st, total);
      if r.stopped then r else RestoreStep(r, replaced, |backups| - 1, total, backups[|backups| - 1])
  }

  /** `restoreBackups`: the events emitted and the storage afterwards. */
  function RestoreSpec(backups: seq<BackupBean>, replaced: map<string, string>, st: Store): (seq<BackupEvent>, Store)
  {
    if backups == [] then ([Success([])], st)
    else
      var r := RestoreFiles(backups, replaced, st, |backups|);
      (if r.stopped then r.events else r.events + [Success(r.restored)], r.store)
  }

  lemma {:induction false} RestoreStoppedStays(backups: seq<BackupBean>, k: nat, replaced: map<string, string>, st: Store, total: nat)
    requires k <= |backups| && RestoreFiles(backups[..k], replaced, st, total).stopped
    ensures RestoreFiles(backups, replaced, st, total) == RestoreFiles(backups[..k], replaced, st, total)
    decreases |backups|
  {
    if |backups| > k {
      var front := backups[..|backups| - 1];
      assert front[..k] == backups[..k];
      RestoreStoppedStays(front, k, replaced, st, total);
    } else {
      assert backups[..k] == backups;
    }
  }

  /** `restoreBackups` as the loop it is. */
  method RestoreBackups(backups: seq<BackupBean>, replaced: map<string, string>, st: Store)
    returns (events: seq<BackupEvent>, store: Store)
    ensures (events, store) == RestoreSpec(backups, replaced, st)
  {
    if |backups| == 0 {
      return [Success([])], st;
    }
    var total := |backups|;
    var restoredBackups: seq<BackupBean> := [];
    events := [];
    store := st;
    for i := 0 to |backups|
      invariant RestoreFiles(backups[..i], replaced, st, total) == RestoreRun(events, restoredBackups, store, false)
    {
      var backup := backups[i];
      assert backups[..i + 1][..i] == backups[..i];
      events := events + [FileProgress(backup.filename, i + 1, total)];
      if backup.gameFilePath in replaced {
        var currentMd5 := Md5(store, backup.gameFilePath);
        if currentMd5 != [] && currentMd5 != replaced[backup.gameFilePath] {
          restoredBackups := restoredBackups + [backup];
          continue;
        }
      }
      if backup.backupPath in store.files {
        if (backup.backupPath, backup.gameFilePath) in store.failingCopies {
          events := events + [Failed(CopyFailed(backup.backupPath))];
          RestoreStoppedStays(backups, i + 1, replaced, st, total);
          return;
        }
        store := Copy(store, backup.backupPath, backup.gameFilePath);
        restoredBackups := restoredBackups + [backup];
      } else {
        restoredBackups := restoredBackups + [backup];
      }
    }
    assert backups[..|backups|] == backups;
    events := events + [Success(restoredBackups)];
  }

  /** Every backup an unstopped run goes through counts as restored, whether it was copied,
    * skipped because the game file changed since, or missing. */
  lemma {:induction false} RestoreAllCounted(backups: seq<BackupBean>, replaced: map<string, string>, st: Store, total: nat)
    ensures var r := RestoreFiles(backups, replaced, st, total);
      (!r.stopped ==> r.restored == backups) &&
      (forall e :: e in r.events ==> !e.Success?) &&
      (r.stopped ==> r.events != [] && r.events[|r.events| - 1] .Failed?)
  {
    if backups != [] {
      var front := backups[..|backups| - 1];
      RestoreAllCounted(front, replaced, st, total);
      SnocSplit(backups);
    }
  }

  /** A successful restore reports every backup it was given, in order. */
  lemma RestoreOutcome(backups: seq<BackupBean>, replaced: map<string, string>, st: Store)
    ensures var events := RestoreSpec(backups, replaced, st).0;
      events != [] &&
      (events[|events| - 1].Success? ==> events[|events| - 1].backups == backups) &&
      (events[|events| - 1].Failed? ==> forall e :: e in events ==> !e.Success?)
  {
    if backups != [] {
      RestoreAllCounted(backups, replaced, st, |backups|);
    }
  }

  /** The smart restore of one backup: a replaced game file changed since (a non-empty digest
    * other than the recorded one) is left alone, and so is one whose backup is missing; either
    * way the backup counts as restored. Otherwise the backup is copied back, or the copy
    * failure stops the flow. */
  lemma SmartRestore(r: RestoreRun, replaced: map<string, string>, index: nat, total: nat, b: BackupBean)
    ensures var st := r.store;
      var r' := RestoreStep(r, replaced, index, total, b);
      var events := r.events + [FileProgress(b.filename, index + 1, total)];
      var current := Md5(st, b.gameFilePath);
      var changed := b.gameFilePath in replaced && current != [] && current != replaced[b.gameFilePath];
      (changed || b.backupPath !in st.files ==>
        r' == RestoreRun(events, r.restored + [b], st, false)) &&
      (!changed && b.backupPath in st.files && (b.backupPath, b.gameFilePath) in st.failingCopies ==>
        r'.stopped && r'.events == events + [Failed(CopyFailed(b.backupPath))] && r'.restored == r.restored) &&
      (!changed && b.backupPath in st.files && (b.backupPath, b.gameFilePath) !in st.failingCopies ==>
        !r'.stopped && r'.events == events && r'.restored == r.restored + [b] &&
        r'.store.files == st.files[b.gameFilePath := st.files[b.backupPath]])
  {
  }

  /** The round trip for one file with no replacement record: backing it up, overwriting the
    * game file, and restoring the record puts the original content back. */
  lemma BackupRestoreRoundTrip(job: Job, st: Store, p: string, modded: string)
    requires p in st.files
    requires var backupPath := BackupPathOf(job, p);
      backupPath != p && job.dirOf(p) !in st.failingDirs &&
      (p, backupPath) !in st.failingCopies && (backupPath, p) !in st.failingCopies
    ensures var (events, st1) := BackupSpec([p], job, map[], st);
      events != [] && events[|events| - 1].Success? && |events[|events| - 1].backups| == 1 &&
      var b := events[|events| - 1].backups[0];
      var st2 := st1.(files := st1.files[p := modded]);
      var (_, st3) := RestoreSpec([b], map[], st2);
      p in st3.files && st3.files[p] == st.files[p] && b.originalMd5 == st.files[p]
  {
    var backupPath := BackupPathOf(job, p);
    var r0 := BackupRun([], [], st, false);
    assert [p][..0] == [];
    assert BackupFiles([p][..0], job, map[], st, 1) == r0;
    var b := NewBackup(job, 0, p, st.files[p]);
    var r := BackupStep(r0, job, map[], 0, 1, p);
    assert r == BackupRun([FileProgress(job.nameOf(p), 1, 1)], [b], Copy(st, p, backupPath), false);
    assert BackupFiles([p], job, map[], st, 1) == r;
    var st2 := r.store.(files := r.store.files[p := modded]);
    assert b.backupPath == backupPath && st2.files[backupPath] == st.files[p];
    var q0 := RestoreRun([], [], st2, false);
    assert [b][..0] == [];
    assert RestoreFiles([b][..0], map[], st2, 1) == q0;
    var q := RestoreStep(q0, map[], 0, 1, b);
    assert q.store == Copy(st2, backupPath, p);
    assert RestoreFiles([b], map[], st2, 1) == q;
  }
}
