/**
 * The database side of `ScanAndSyncModsUseCase`: the diff `syncToDatabase` computes between the
 * freshly scanned mods and the stored ones, the `needsUpdate` test it uses, and the
 * `shouldSkipScan` test that lets an unchanged archive go unscanned.
 */
module ScanSync {
  import opened Wrappers
  import opened Lists
  import opened Strings
  import opened DomainMod

  /** The identity of a mod, `"${path}|${name}|${virtualPaths}"`; a null `virtualPaths` prints
    * as `null`. */
  function Key(m: Mod): string
  {
    m.path + "|" + m.name + "|" + (match m.virtualPaths case None => "null" case Some(v) => v)
  }

  /** `associateBy(Key)`: a later mod with the same key replaces an earlier one. (The key order
    * of the resulting map is `KeysInOrder(ms, Key)`.) */
  function AssociateBy(ms: seq<Mod>): map<string, Mod>
  {
    if ms == [] then map[] else AssociateBy(ms[..|ms| - 1])[Key(ms[|ms| - 1]) := ms[|ms| - 1]]
  }

  /** `x` occurs in `ms` and no later mod has its key. */
  predicate LastWithKey(ms: seq<Mod>, x: Mod)
  {
    exists i :: 0 <= i < |ms| && ms[i] == x && forall j :: i < j < |ms| ==> Key(ms[j]) != Key(x)
  }

  /** Some mod of `ms` has key `k`. */
  predicate HasKey(ms: seq<Mod>, k: string)
  {
    exists x :: x in ms && Key(x) == k
  }

  /** The keys of `associateBy` are the keys of the list, and each maps to the last mod
    * carrying it. */
  lemma {:induction false} AssociateByMember(ms: seq<Mod>, k: string)
    ensures k in AssociateBy(ms) <==> HasKey(ms, k)
    ensures k in AssociateBy(ms) ==> Key(AssociateBy(ms)[k]) == k && LastWithKey(ms, AssociateBy(ms)[k])
  {
    if ms != [] {
      var front := ms[..|ms| - 1];
      var last := ms[|ms| - 1];
      AssociateByMember(front, k);
      assert forall x :: x in ms <==> x in front || x == last;
      if Key(last) == k {
        assert ms[|ms| - 1] == last;
      } else if k in AssociateBy(front) {
        var v := AssociateBy(front)[k];
        var i :| 0 <= i < |front| && front[i] == v && forall j :: i < j < |front| ==> Key(front[j]) != Key(v);
        assert ms[i] == v;
        forall j | i < j < |ms| ensures Key(ms[j]) != Key(v) {
          if j < |front| {
            assert ms[j] == front[j];
          }
        }
      }
    }
  }

  /** Only one mod of a list is the last with a given key. */
  lemma LastWithKeyUnique(ms: seq<Mod>, x: Mod, y: Mod)
    requires LastWithKey(ms, x) && LastWithKey(ms, y) && Key(x) == Key(y)
    ensures x == y
  {
    var i :| 0 <= i < |ms| && ms[i] == x && forall j :: i < j < |ms| ==> Key(ms[j]) != Key(x);
    var i' :| 0 <= i' < |ms| && ms[i'] == y && forall j :: i' < j < |ms| ==> Key(ms[j]) != Key(y);
    assert Key(ms[i']) == Key(x) && Key(ms[i]) == Key(y);
    assert i == i';
  }

  /** `needsUpdate`: any change in date, mod files, game file paths, name, author, version or
    * config; then, for an encrypted mod, a changed icon or description but only while the stored
    * password is empty, and for any other mod a changed icon. */
  predicate NeedsUpdate(existing: Mod, scanned: Mod)
  {
    existing.date != scanned.date
    || existing.modFiles != scanned.modFiles
    || existing.gameFilesPath != scanned.gameFilesPath
    || existing.name != scanned.name
    || existing.author != scanned.author
    || existing.version != scanned.version
    || existing.modConfig != scanned.modConfig
    || (if existing.isEncrypted
        then (existing.icon != scanned.icon || existing.description != scanned.description)
             && existing.password == ""
        else existing.icon != scanned.icon)
  }

  /** The record written for an update: the scanned mod, keeping the user's id, switch state and
    * password. */
  function Refreshed(scanned: Mod, existing: Mod): (r: Mod)
    ensures r.id == existing.id && r.isEnable == existing.isEnable && r.password == existing.password
    ensures r.(id := scanned.id, isEnable := scanned.isEnable, password := scanned.password) == scanned
  {
    scanned.(id := existing.id, isEnable := existing.isEnable, password := existing.password)
  }

  /** Which changes `needsUpdate` sees: none without a change, every change in the compared
    * fields, and never a new description of an unencrypted mod or a new icon or description
    * of an encrypted mod whose password is stored. */
  lemma NeedsUpdateMeaning(existing: Mod, icon: Option<string>, description: Option<string>)
    ensures !NeedsUpdate(existing, existing)
    ensures !existing.isEncrypted ==> !NeedsUpdate(existing, existing.(description := description))
    ensures !existing.isEncrypted ==> (NeedsUpdate(existing, existing.(icon := icon)) <==> icon != existing.icon)
    ensures existing.isEncrypted && existing.password != "" ==>
      !NeedsUpdate(existing, existing.(icon := icon, description := description))
    ensures existing.isEncrypted && existing.password == "" ==>
      (NeedsUpdate(existing, existing.(icon := icon, description := description)) <==>
        icon != existing.icon || description != existing.description)
  {
  }

  /** A stored record refreshed by a sync needs no further update against the same scan. */
  lemma RefreshedSettles(scanned: Mod, existing: Mod)
    ensures !NeedsUpdate(Refreshed(scanned, existing), scanned)
  {
  }

  // ---------------------------------------------------------------------------------------
  // The diff
  // ---------------------------------------------------------------------------------------

  /** Every key of `keys` is in `mp`. */
  predicate Covers(keys: seq<string>, mp: map<string, Mod>)
  {
    forall i :: 0 <= i < |keys| ==> keys[i] in mp
  }

  /** `toAdd` after the loop over `keys`: the scanned mods whose key is not stored. */
  function Added(keys: seq<string>, scanned: map<string, Mod>, existing: map<string, Mod>): seq<Mod>
    requires Covers(keys, scanned)
  {
    if keys == [] then []
    else
      var k := keys[|keys| - 1];
      Added(keys[..|keys| - 1], scanned, existing) + (if k !in existing then [scanned[k]] else [])
  }

  /** `toUpdate` after the loop over `keys`: refreshed copies where the stored mod is outdated. */
  function Updates(keys: seq<string>, scanned: map<string, Mod>, existing: map<string, Mod>): seq<Mod>
    requires Covers(keys, scanned)
  {
    if keys == [] then []
    else
      var k := keys[|keys| - 1];
      Updates(keys[..|keys| - 1], scanned, existing)
        + (if k in existing && NeedsUpdate(existing[k], scanned[k]) then [Refreshed(scanned[k], existing[k])] else [])
  }

  /** `path` lies under one of the skipped paths. */
  predicate InSkipped(path: string, skippedPaths: seq<string>)
  {
    exists i :: 0 <= i < |skippedPaths| && StartsWith(path, skippedPaths[i])
  }

  /** One stored mod is gone from the scan and is to be reported: not under a skipped path, and
    * enabled (`enabled`) or not. */
  predicate Gone(k: string, existing: map<string, Mod>, scanned: map<string, Mod>, skippedPaths: seq<string>, enabled: bool)
    requires k in existing
  {
    k !in scanned && !InSkipped(existing[k].path, skippedPaths) && existing[k].isEnable == enabled
  }

  /** `toDelete` (`enabled` false) or `deletedEnabledMods` (`enabled` true) after the loop over
    * the stored `keys`. */
  function Removed(keys: seq<string>, existing: map<string, Mod>, scanned: map<string, Mod>,
                   skippedPaths: seq<string>, enabled: bool): seq<Mod>
    requires Covers(keys, existing)
  {
    if keys == [] then []
    else
      var k := keys[|keys| - 1];
      Removed(keys[..|keys| - 1], existing, scanned, skippedPaths, enabled)
        + (if Gone(k, existing, scanned, skippedPaths, enabled) then [existing[k]] else [])
  }

  lemma KeysCovered(ms: seq<Mod>)
    ensures Covers(KeysInOrder(ms, Key), AssociateBy(ms))
  {
    var keys := KeysInOrder(ms, Key);
    forall i | 0 <= i < |keys| ensures keys[i] in AssociateBy(ms) {
      AssociateByMember(ms, keys[i]);
    }
  }

  /** `DatabaseSyncResult`. */
  datatype SyncResult = SyncResult(addedCount: int, updatedCount: int, deletedCount: int,
                                   errors: seq<string>, deletedEnabledMods: seq<Mod>)

  /** What the database writes of a sync are and what it reports. `dbError` is the message of
    * the exception the database raises on a write, if it does. */
  datatype Sync = Sync(toAdd: seq<Mod>, toUpdate: seq<Mod>, toDelete: seq<Mod>, result: SyncResult)

  /** The error list: one message when a write was attempted and the database failed. */
  function SyncErrors(toAdd: seq<Mod>, toUpdate: seq<Mod>, toDelete: seq<Mod>, dbError: Option<string>): seq<string>
  {
    if dbError.Some? && (toAdd != [] || toUpdate != [] || toDelete != []) then ["数据库操作失败: " + dbError.value]
    else []
  }

  /** `syncToDatabase` on the scanned and the stored mods of the selected game. */
  function SyncToDatabase(scannedMods: seq<Mod>, existingMods: seq<Mod>, skippedPaths: seq<string>,
                          dbError: Option<string>): Sync
  {
    var scanned := AssociateBy(scannedMods);
    var existing := AssociateBy(existingMods);
    KeysCovered(scannedMods);
    KeysCovered(existingMods);
    var sKeys := KeysInOrder(scannedMods, Key);
    var eKeys := KeysInOrder(existingMods, Key);
    var toAdd := Added(sKeys, scanned, existing);
    var toUpdate := Updates(sKeys, scanned, existing);
    var toDelete := Removed(eKeys, existing, scanned, skippedPaths, false);
    var deletedEnabled := Removed(eKeys, existing, scanned, skippedPaths, true);
    Sync(toAdd, toUpdate, toDelete,
      SyncResult(|toAdd|, |toUpdate|, |toDelete|, SyncErrors(toAdd, toUpdate, toDelete, dbError), deletedEnabled))
  }

  /** `syncToDatabase`: the two loops over the keys, then the database writes. */
  method Diff(scannedMods: seq<Mod>, existingMods: seq<Mod>, skippedPaths: seq<string>, dbError: Option<string>)
    returns (r: Sync)
    ensures r == SyncToDatabase(scannedMods, existingMods, skippedPaths, dbError)
  {
    var existingMap := AssociateBy(existingMods);
    var scannedMap := AssociateBy(scannedMods);
    KeysCovered(scannedMods);
    KeysCovered(existingMods);
    var toAdd, toUpdate := AddOrUpdate(KeysInOrder(scannedMods, Key), scannedMap, existingMap);
    var toDelete, deletedEnabled := DeleteMissing(KeysInOrder(existingMods, Key), existingMap, scannedMap, skippedPaths);
    var errors: seq<string> := [];
    if dbError.Some? && (toAdd != [] || toUpdate != [] || toDelete != []) {
      errors := errors + ["数据库操作失败: " + dbError.value];
    }
    return Sync(toAdd, toUpdate, toDelete, SyncResult(|toAdd|, |toUpdate|, |toDelete|, errors, deletedEnabled));
  }

  /** The loop over the scanned mods: new ones to add, outdated stored ones to update. */
  method AddOrUpdate(sKeys: seq<string>, scannedMap: map<string, Mod>, existingMap: map<string, Mod>)
    returns (toAdd: seq<Mod>, toUpdate: seq<Mod>)
    requires Covers(sKeys, scannedMap)
    ensures toAdd == Added(sKeys, scannedMap, existingMap)
    ensures toUpdate == Updates(sKeys, scannedMap, existingMap)
  {
    toAdd, toUpdate := [], [];
    for i := 0 to |sKeys|
      invariant toAdd == Added(sKeys[..i], scannedMap, existingMap)
      invariant toUpdate == Updates(sKeys[..i], scannedMap, existingMap)
    {
      assert sKeys[..i + 1][..i] == sKeys[..i];
      var key := sKeys[i];
      var scannedMod := scannedMap[key];
      if key !in existingMap {
        toAdd := toAdd + [scannedMod];
      } else {
        var existingMod := existingMap[key];
        if NeedsUpdate(existingMod, scannedMod) {
          toUpdate := toUpdate + [Refreshed(scannedMod, existingMod)];
        }
      }
    }
    assert sKeys[..|sKeys|] == sKeys;
  }

  /** The loop over the stored mods the scan no longer has, outside the skipped paths: enabled
    * ones are reported, the others deleted. */
  method DeleteMissing(eKeys: seq<string>, existingMap: map<string, Mod>, scannedMap: map<string, Mod>,
                       skippedPaths: seq<string>)
    returns (toDelete: seq<Mod>, deletedEnabled: seq<Mod>)
    requires Covers(eKeys, existingMap)
    ensures toDelete == Removed(eKeys, existingMap, scannedMap, skippedPaths, false)
    ensures deletedEnabled == Removed(eKeys, existingMap, scannedMap, skippedPaths, true)
  {
    toDelete, deletedEnabled := [], [];
    for i := 0 to |eKeys|
      invariant toDelete == Removed(eKeys[..i], existingMap, scannedMap, skippedPaths, false)
      invariant deletedEnabled == Removed(eKeys[..i], existingMap, scannedMap, skippedPaths, true)
    {
      assert eKeys[..i + 1][..i] == eKeys[..i];
      var key := eKeys[i];
      var existingMod := existingMap[key];
      if key !in scannedMap {
        if !InSkipped(existingMod.path, skippedPaths) {
          if existingMod.isEnable {
            deletedEnabled := deletedEnabled + [existingMod];
          } else {
            toDelete := toDelete + [existingMod];
          }
        }
      }
    }
    assert eKeys[..|eKeys|] == eKeys;
  }

  // ---------------------------------------------------------------------------------------
  // What the diff holds
  // ---------------------------------------------------------------------------------------

  lemma {:induction false} AddedMember(keys: seq<string>, scanned: map<string, Mod>, existing: map<string, Mod>, m: Mod)
    requires Covers(keys, scanned)
    ensures m in Added(keys, scanned, existing) <==>
      exists i :: 0 <= i < |keys| && keys[i] !in existing && scanned[keys[i]] == m
  {
    if keys != [] {
      var front := keys[..|keys| - 1];
      AddedMember(front, scanned, existing, m);
      if exists i :: 0 <= i < |keys| && keys[i] !in existing && scanned[keys[i]] == m {
        var i :| 0 <= i < |keys| && keys[i] !in existing && scanned[keys[i]] == m;
        if i < |front| {
          assert front[i] == keys[i];
        }
      }
      if exists i :: 0 <= i < |front| && front[i] !in existing && scanned[front[i]] == m {
        var i :| 0 <= i < |front| && front[i] !in existing && scanned[front[i]] == m;
        assert keys[i] == front[i];
      }
    }
  }

  /** `x` is the update written for key `k`. */
  predicate UpdateOf(k: string, scanned: map<string, Mod>, existing: map<string, Mod>, x: Mod)
    requires k in scanned
  {
    k in existing && NeedsUpdate(existing[k], scanned[k]) && x == Refreshed(scanned[k], existing[k])
  }

  lemma {:induction false} UpdatesMember(keys: seq<string>, scanned: map<string, Mod>, existing: map<string, Mod>, x: Mod)
    requires Covers(keys, scanned)
    ensures x in Updates(keys, scanned, existing) <==>
      exists i :: 0 <= i < |keys| && UpdateOf(keys[i], scanned, existing, x)
  {
    if keys != [] {
      var front := keys[..|keys| - 1];
      UpdatesMember(front, scanned, existing, x);
      if exists i :: 0 <= i < |keys| && UpdateOf(keys[i], scanned, existing, x) {
        var i :| 0 <= i < |keys| && UpdateOf(keys[i], scanned, existing, x);
        if i < |front| {
          assert front[i] == keys[i];
        }
      }
      if exists i :: 0 <= i < |front| && UpdateOf(front[i], scanned, existing, x) {
        var i :| 0 <= i < |front| && UpdateOf(front[i], scanned, existing, x);
        assert keys[i] == front[i];
      }
    }
  }

  lemma {:induction false} RemovedMember(keys: seq<string>, existing: map<string, Mod>, scanned: map<string, Mod>,
                                         skippedPaths: seq<string>, enabled: bool, x: Mod)
    requires Covers(keys, existing)
    ensures x in Removed(keys, existing, scanned, skippedPaths, enabled) <==>
      exists i :: 0 <= i < |keys| && Gone(keys[i], existing, scanned, skippedPaths, enabled) && existing[keys[i]] == x
  {
    if keys != [] {
      var front := keys[..|keys| - 1];
      RemovedMember(front, existing, scanned, skippedPaths, enabled, x);
      if exists i :: 0 <= i < |keys| && Gone(keys[i], existing, scanned, skippedPaths, enabled) && existing[keys[i]] == x {
        var i :| 0 <= i < |keys| && Gone(keys[i], existing, scanned, skippedPaths, enabled) && existing[keys[i]] == x;
        if i < |front| {
          assert front[i] == keys[i];
        }
      }
      if exists i :: 0 <= i < |front| && Gone(front[i], existing, scanned, skippedPaths, enabled) && existing[front[i]] == x {
        var i :| 0 <= i < |front| && Gone(front[i], existing, scanned, skippedPaths, enabled) && existing[front[i]] == x;
        assert keys[i] == front[i];
      }
    }
  }

  /** The mod a key stands for in a list: the last one carrying it. */
  lemma KeyedMod(ms: seq<Mod>, m: Mod)
    requires LastWithKey(ms, m)
    ensures Key(m) in KeysInOrder(ms, Key) && Key(m) in AssociateBy(ms) && AssociateBy(ms)[Key(m)] == m
  {
    var i :| 0 <= i < |ms| && ms[i] == m && forall j :: i < j < |ms| ==> Key(ms[j]) != Key(m);
    assert m in ms;
    AssociateByMember(ms, Key(m));
    LastWithKeyUnique(ms, AssociateBy(ms)[Key(m)], m);
  }

  /** The position of a key in the key order. */
  lemma KeyIndex(keys: seq<string>, k: string) returns (i: nat)
    requires k in keys
    ensures i < |keys| && keys[i] == k
  {
    i :| 0 <= i < |keys| && keys[i] == k;
  }

  /** `toAdd` holds exactly the scanned mods whose identity is not stored (for repeated
    * identities, the last scanned one). */
  lemma SyncAdds(scannedMods: seq<Mod>, existingMods: seq<Mod>, skippedPaths: seq<string>, dbError: Option<string>, m: Mod)
    ensures m in SyncToDatabase(scannedMods, existingMods, skippedPaths, dbError).toAdd <==>
      LastWithKey(scannedMods, m) && !HasKey(existingMods, Key(m))
  {
    var scanned := AssociateBy(scannedMods);
    var existing := AssociateBy(existingMods);
    var sKeys := KeysInOrder(scannedMods, Key);
    KeysCovered(scannedMods);
    AddedMember(sKeys, scanned, existing, m);
    if m in Added(sKeys, scanned, existing) {
      var i :| 0 <= i < |sKeys| && sKeys[i] !in existing && scanned[sKeys[i]] == m;
      AssociateByMember(scannedMods, sKeys[i]);
      AssociateByMember(existingMods, sKeys[i]);
    }
    if LastWithKey(scannedMods, m) && !HasKey(existingMods, Key(m)) {
      KeyedMod(scannedMods, m);
      AssociateByMember(existingMods, Key(m));
      var i := KeyIndex(sKeys, Key(m));
    }
  }

  /** `toUpdate` holds exactly the refreshed copies of the stored mods that a scanned mod with
    * the same identity makes outdated. */
  lemma SyncUpdates(scannedMods: seq<Mod>, existingMods: seq<Mod>, skippedPaths: seq<string>, dbError: Option<string>, x: Mod)
    ensures x in SyncToDatabase(scannedMods, existingMods, skippedPaths, dbError).toUpdate <==>
      exists sm, em :: LastWithKey(scannedMods, sm) && LastWithKey(existingMods, em) && Key(sm) == Key(em)
        && NeedsUpdate(em, sm) && x == Refreshed(sm, em)
  {
    var scanned := AssociateBy(scannedMods);
    var existing := AssociateBy(existingMods);
    var sKeys := KeysInOrder(scannedMods, Key);
    KeysCovered(scannedMods);
    UpdatesMember(sKeys, scanned, existing, x);
    if x in Updates(sKeys, scanned, existing) {
      var i :| 0 <= i < |sKeys| && UpdateOf(sKeys[i], scanned, existing, x);
      AssociateByMember(scannedMods, sKeys[i]);
      AssociateByMember(existingMods, sKeys[i]);
      var sm, em := scanned[sKeys[i]], existing[sKeys[i]];
      assert LastWithKey(scannedMods, sm) && LastWithKey(existingMods, em) && Key(sm) == Key(em);
    }
    if exists sm, em :: LastWithKey(scannedMods, sm) && LastWithKey(existingMods, em) && Key(sm) == Key(em)
        && NeedsUpdate(em, sm) && x == Refreshed(sm, em) {
      var sm, em :| LastWithKey(scannedMods, sm) && LastWithKey(existingMods, em) && Key(sm) == Key(em)
        && NeedsUpdate(em, sm) && x == Refreshed(sm, em);
      KeyedMod(scannedMods, sm);
      KeyedMod(existingMods, em);
      var i := KeyIndex(sKeys, Key(sm));
      assert UpdateOf(sKeys[i], scanned, existing, x);
    }
  }

  /** `toDelete` (`enabled` false) and `deletedEnabledMods` (`enabled` true) hold exactly the
    * stored mods, disabled or enabled, whose identity the scan no longer has and whose path is
    * under no skipped path. */
  lemma SyncRemoves(scannedMods: seq<Mod>, existingMods: seq<Mod>, skippedPaths: seq<string>, dbError: Option<string>,
                    enabled: bool, x: Mod)
    ensures var r := SyncToDatabase(scannedMods, existingMods, skippedPaths, dbError);
      x in (if enabled then r.result.deletedEnabledMods else r.toDelete) <==>
        LastWithKey(existingMods, x) && !HasKey(scannedMods, Key(x)) && !InSkipped(x.path, skippedPaths)
        && x.isEnable == enabled
  {
    var scanned := AssociateBy(scannedMods);
    var existing := AssociateBy(existingMods);
    var eKeys := KeysInOrder(existingMods, Key);
    KeysCovered(existingMods);
    RemovedMember(eKeys, existing, scanned, skippedPaths, enabled, x);
    if x in Removed(eKeys, existing, scanned, skippedPaths, enabled) {
      var i :| 0 <= i < |eKeys| && Gone(eKeys[i], existing, scanned, skippedPaths, enabled) && existing[eKeys[i]] == x;
      AssociateByMember(existingMods, eKeys[i]);
      AssociateByMember(scannedMods, eKeys[i]);
    }
    if LastWithKey(existingMods, x) && !HasKey(scannedMods, Key(x)) && !InSkipped(x.path, skippedPaths)
        && x.isEnable == enabled {
      KeyedMod(existingMods, x);
      AssociateByMember(scannedMods, Key(x));
      var i := KeyIndex(eKeys, Key(x));
    }
  }

  /** A stored mod under a skipped path is neither deleted nor reported as lost. */
  lemma SkippedNeverDeleted(scannedMods: seq<Mod>, existingMods: seq<Mod>, skippedPaths: seq<string>,
                            dbError: Option<string>, x: Mod)
    requires InSkipped(x.path, skippedPaths)
    ensures x !in SyncToDatabase(scannedMods, existingMods, skippedPaths, dbError).toDelete
    ensures x !in SyncToDatabase(scannedMods, existingMods, skippedPaths, dbError).result.deletedEnabledMods
  {
    SyncRemoves(scannedMods, existingMods, skippedPaths, dbError, false, x);
    SyncRemoves(scannedMods, existingMods, skippedPaths, dbError, true, x);
  }

  /** A failing database changes nothing but the error list: the writes and the counts are those
    * of a database that works, and at most one message is added. */
  lemma SyncFailureOnlyReports(scannedMods: seq<Mod>, existingMods: seq<Mod>, skippedPaths: seq<string>, dbError: Option<string>)
    ensures var r := SyncToDatabase(scannedMods, existingMods, skippedPaths, dbError);
      var ok := SyncToDatabase(scannedMods, existingMods, skippedPaths, None);
      r.toAdd == ok.toAdd && r.toUpdate == ok.toUpdate && r.toDelete == ok.toDelete
      && r.result == ok.result.(errors := r.result.errors) && ok.result.errors == [] && |r.result.errors| <= 1
      && r.result.addedCount == |r.toAdd| && r.result.updatedCount == |r.toUpdate|
      && r.result.deletedCount == |r.toDelete|
  {
  }

  // ---------------------------------------------------------------------------------------
  // Skipping unchanged files
  // ---------------------------------------------------------------------------------------

  /** The stored record of a scanned file (`ScanFileBean`). */
  datatype ScanFile = ScanFile(path: string, name: string, modifyTime: int, size: int, isDirectory: bool,
                               md5: string, gamePackageName: string)

  /** `shouldSkipScan`: `record` is the stored record of the file, and `lastModified`, `length`
    * and `md5` what the file service reports now (None: it reported an error). */
  function ShouldSkipScan(record: Option<ScanFile>, lastModified: Option<int>, length: Option<int>,
                          md5: Option<string>): (r: bool)
    ensures record.None? || lastModified.None? || length.None? ==> !r
    ensures record.Some? && lastModified == Some(record.value.modifyTime) && length == Some(record.value.size) ==> r
    ensures r ==> record.Some? && ((lastModified == Some(record.value.modifyTime) && length == Some(record.value.size))
                                   || (md5 == Some(record.value.md5) && record.value.md5 != ""))
    ensures record.Some? && lastModified.Some? && length.Some? && md5 == Some(record.value.md5) && record.value.md5 != "" ==> r
  {
    match record
    case None => false
    case Some(rec) =>
      if lastModified.None? then false
      else if length.None? then false
      else if rec.modifyTime == lastModified.value && rec.size == length.value then true
      else
        var currentMd5 := md5.GetOr("");
        currentMd5 != "" && currentMd5 == rec.md5
  }
}
