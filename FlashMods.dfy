/**
 * The refresh logic of `FlashModsUserCase`: database de-duplication (one mod kept per group),
 * the comparison of stored mods with a fresh scan (deleted, updated and new mods) and the
 * clean-up of scan records whose files changed.
 */
module FlashMods {
  import opened Wrappers
  import opened Lists
  import opened ModBean

  // ---------------------------------------------------------------------------------------
  // De-duplication
  // ---------------------------------------------------------------------------------------

  /** The mod a group keeps: the latest enabled one when the group has an enabled mod,
    * otherwise the latest one; the first of equally late mods wins. */
  function Chosen(group: seq<Mod>): Option<Mod>
  {
    var enabled := Filter(group, (m: Mod) => m.isEnable);
    if enabled != [] then MaxBy(enabled, (m: Mod) => m.date) else MaxBy(group, (m: Mod) => m.date)
  }

  /** The mods of `mods` whose key is `k` (one `groupBy` group). */
  function Group<K(==,!new)>(mods: seq<Mod>, key: Mod -> K, k: K): seq<Mod>
  {
    Filter(mods, (m: Mod) => key(m) == k)
  }

  /** `filteredMods`: the chosen mod of every group, in order of the groups. */
  function Kept<K(==,!new)>(mods: seq<Mod>, key: Mod -> K): seq<Mod>
  {
    MapNotNull(KeysInOrder(mods, key), (k: K) => Chosen(Group(mods, key, k)))
  }

  /** `allMods - filteredMods`: every mod not equal to a kept one. */
  function Duplicates<K(==,!new)>(mods: seq<Mod>, key: Mod -> K): seq<Mod>
  {
    var kept := Kept(mods, key);
    Filter(mods, (m: Mod) => m !in kept)
  }

  /** The grouping key of `delRepeatModsByPathAndName`. */
  function PathNameKey(m: Mod): (Option<string>, Option<string>)
  {
    (m.path, m.name)
  }

  /** The grouping key of `delDuplicateModsByPathAndVirtualPathsAndModType`: an empty or
    * missing `virtualPaths` groups as null. */
  function PathVirtualTypeKey(m: Mod): (Option<string>, Option<string>, Option<string>)
  {
    (m.path, if m.virtualPaths.None? || m.virtualPaths.value == "" then None else m.virtualPaths,
     m.modType)
  }

  /** `delRepeatModsByPathAndName`: the mods it deletes. */
  function DelRepeatModsByPathAndName(allMods: seq<Mod>): (duplicates: seq<Mod>)
    ensures forall m :: m in duplicates ==> m in allMods && m !in Kept(allMods, PathNameKey)
    ensures forall m :: m in allMods && m !in Kept(allMods, PathNameKey) ==> m in duplicates
  {
    Duplicates(allMods, PathNameKey)
  }

  /** `delDuplicateModsByPathAndVirtualPathsAndModType`: the mods it deletes. */
  function DelDuplicateModsByPathAndVirtualPathsAndModType(allMods: seq<Mod>): (duplicates: seq<Mod>)
    ensures forall m :: m in duplicates ==> m in allMods && m !in Kept(allMods, PathVirtualTypeKey)
    ensures forall m :: m in allMods && m !in Kept(allMods, PathVirtualTypeKey) ==> m in duplicates
  {
    Duplicates(allMods, PathVirtualTypeKey)
  }

  /** A non-empty group always has a chosen mod; it belongs to the group, it is enabled when
    * the group has an enabled mod, and no mod it is preferred over is later. */
  lemma ChosenIsLatest(group: seq<Mod>)
    requires group != []
    ensures Chosen(group).Some?
    ensures Chosen(group).value in group
    ensures (exists m :: m in group && m.isEnable) ==>
      Chosen(group).value.isEnable
      && forall m :: m in group && m.isEnable ==> m.date <= Chosen(group).value.date
    ensures (forall m :: m in group ==> !m.isEnable) ==>
      forall m :: m in group ==> m.date <= Chosen(group).value.date
  {
    var enabled := Filter(group, (m: Mod) => m.isEnable);
    if exists m :: m in group && m.isEnable {
      var m :| m in group && m.isEnable;
      assert m in enabled;
    } else {
      assert enabled == [];
    }
  }

  lemma GroupHasKey<K(!new)>(mods: seq<Mod>, key: Mod -> K, k: K)
    requires k in KeysInOrder(mods, key)
    ensures Group(mods, key, k) != []
    ensures forall m :: m in Group(mods, key, k) ==> key(m) == k
  {
    var x :| x in mods && key(x) == k;
    assert x in Group(mods, key, k);
  }

  lemma {:induction false} KeptKeys<K(!new)>(mods: seq<Mod>, key: Mod -> K, ks: seq<K>)
    requires forall k :: k in ks ==> k in KeysInOrder(mods, key)
    ensures Map(MapNotNull(ks, (k: K) => Chosen(Group(mods, key, k))), key) == ks
  {
    if ks != [] {
      var front, last := ks[..|ks| - 1], ks[|ks| - 1];
      assert forall k :: k in front ==> k in ks;
      KeptKeys(mods, key, front);
      GroupHasKey(mods, key, last);
      ChosenIsLatest(Group(mods, key, last));
      var f := (k: K) => Chosen(Group(mods, key, k));
      var c := Chosen(Group(mods, key, last)).value;
      assert MapNotNull(ks, f) == MapNotNull(front, f) + [c];
      MapSnoc(MapNotNull(front, f), c, key);
      assert key(c) == last;
      SnocSplit(ks);
    }
  }

  /** Exactly one mod is kept per group: the kept mods' keys are the groups' keys, once each
    * and in order of first occurrence, and each kept mod is its group's choice. */
  lemma OnePerGroup<K(!new)>(mods: seq<Mod>, key: Mod -> K)
    ensures Map(Kept(mods, key), key) == KeysInOrder(mods, key)
    ensures forall m :: m in Kept(mods, key) ==>
      m in mods && Chosen(Group(mods, key, key(m))) == Some(m)
  {
    var ks := KeysInOrder(mods, key);
    KeptKeys(mods, key, ks);
    forall m | m in Kept(mods, key)
      ensures m in mods && Chosen(Group(mods, key, key(m))) == Some(m)
    {
      var k :| k in ks && Chosen(Group(mods, key, k)) == Some(m);
      GroupHasKey(mods, key, k);
      ChosenIsLatest(Group(mods, key, k));
    }
  }

  // ---------------------------------------------------------------------------------------
  // Comparison with a fresh scan
  // ---------------------------------------------------------------------------------------

  /** The mods `checkDelMods` reports deleted, in order. */
  function DelMods(mods: seq<Mod>, modsScan: seq<Mod>): seq<Mod>
  {
    MapNotNull(mods, (m: Mod) => IsDelete(m, modsScan))
  }

  /** The copies `checkUpdateMods` reports, in order. */
  function UpdatedMods(mods: seq<Mod>, modsScan: seq<Mod>): seq<Mod>
  {
    MapNotNull(mods, (m: Mod) => IsUpdate(m, modsScan))
  }

  /** The scanned mods `getNewMods` reports, in order. */
  function NewMods(mods: seq<Mod>, modsScan: seq<Mod>): seq<Mod>
  {
    MapNotNull(modsScan, (m: Mod) => IsNew(m, mods))
  }

  /** `checkDelMods`: the deleted mods and, of those, the enabled ones. */
  method CheckDelMods(mods: seq<Mod>, modsScan: seq<Mod>) returns (delMods: seq<Mod>, delEnableMods: seq<Mod>)
    ensures delMods == DelMods(mods, modsScan)
    ensures delEnableMods == Filter(delMods, (m: Mod) => m.isEnable)
  {
    delMods := [];
    for i := 0 to |mods|
      invariant delMods == DelMods(mods[..i], modsScan)
    {
      assert mods[..i + 1][..i] == mods[..i];
      var mod := IsDelete(mods[i], modsScan);
      if mod.Some? {
        delMods := delMods + [mod.value];
      }
    }
    assert mods[..|mods|] == mods;
    delEnableMods := Filter(delMods, (m: Mod) => m.isEnable);
  }

  /** `checkUpdateMods`. */
  method CheckUpdateMods(mods: seq<Mod>, modsScan: seq<Mod>) returns (updatedMods: seq<Mod>)
    ensures updatedMods == UpdatedMods(mods, modsScan)
  {
    updatedMods := [];
    for i := 0 to |mods|
      invariant updatedMods == UpdatedMods(mods[..i], modsScan)
    {
      assert mods[..i + 1][..i] == mods[..i];
      var mod1 := IsUpdate(mods[i], modsScan);
      if mod1.Some? {
        updatedMods := updatedMods + [mod1.value];
      }
    }
    assert mods[..|mods|] == mods;
  }

  /** `getNewMods`. */
  method GetNewMods(mods: seq<Mod>, modsScan: seq<Mod>) returns (newMods: seq<Mod>)
    ensures newMods == NewMods(mods, modsScan)
  {
    newMods := [];
    for i := 0 to |modsScan|
      invariant newMods == NewMods(mods, modsScan[..i])
    {
      assert modsScan[..i + 1][..i] == modsScan[..i];
      var m := IsNew(modsScan[i], mods);
      if m.Some? {
        newMods := newMods + [m.value];
      }
    }
    assert modsScan[..|modsScan|] == modsScan;
  }

  /** What the three reports hold: the deleted mods are the stored mods no scanned mod matches,
    * the deleted-and-enabled ones are those that are enabled, and the new mods are the scanned
    * mods no stored mod matches. */
  lemma ReportsMeaning(mods: seq<Mod>, modsScan: seq<Mod>)
    ensures forall m :: m in DelMods(mods, modsScan) <==> m in mods && NoneMatches(m, modsScan)
    ensures forall m :: m in Filter(DelMods(mods, modsScan), (x: Mod) => x.isEnable) <==>
      m in mods && NoneMatches(m, modsScan) && m.isEnable
    ensures forall m :: m in NewMods(mods, modsScan) <==> m in modsScan && NoneMatches(m, mods)
  {
  }

  /** The reports keep their source list's order: each is computed piece by piece. */
  lemma ReportsKeepOrder(a: seq<Mod>, b: seq<Mod>, modsScan: seq<Mod>)
    ensures DelMods(a + b, modsScan) == DelMods(a, modsScan) + DelMods(b, modsScan)
    ensures UpdatedMods(a + b, modsScan) == UpdatedMods(a, modsScan) + UpdatedMods(b, modsScan)
    ensures NewMods(modsScan, a + b) == NewMods(modsScan, a) + NewMods(modsScan, b)
  {
    MapNotNullConcat(a, b, (m: Mod) => IsDelete(m, modsScan));
    MapNotNullConcat(a, b, (m: Mod) => IsUpdate(m, modsScan));
    MapNotNullConcat(a, b, (m: Mod) => IsNew(m, modsScan));
  }

  /** A stored mod with an update is not deleted, and no new mod shares path and name with a
    * deleted one. */
  lemma ReportsAgree(mods: seq<Mod>, modsScan: seq<Mod>)
    ensures forall m :: m in mods && IsUpdate(m, modsScan).Some? ==> m !in DelMods(mods, modsScan)
    ensures forall x, y :: x in NewMods(mods, modsScan) && y in DelMods(mods, modsScan) ==>
      !SameMod(x, y)
  {
    forall m | m in mods && IsUpdate(m, modsScan).Some? ensures m !in DelMods(mods, modsScan) {
      var i :| 0 <= i < |modsScan| && Hit(m, modsScan[i]);
      assert !NoneMatches(m, modsScan);
    }
    forall x, y | x in NewMods(mods, modsScan) && y in DelMods(mods, modsScan)
      ensures !SameMod(x, y)
    {
      var i :| 0 <= i < |modsScan| && modsScan[i] == x;
      assert !SameMod(modsScan[i], y);
    }
  }

  // ---------------------------------------------------------------------------------------
  // Scan records
  // ---------------------------------------------------------------------------------------

  /** A scan record: a file with the modification time and size it had when scanned. */
  datatype ScanRecord = ScanRecord(path: string, modifyTime: int, size: int)

  /** The file system as the refresh sees it: path to (lastModified, length) of each file. */
  type FileStats = map<string, (int, int)>

  /** The file still exists, unmodified. */
  predicate Unchanged(rec: ScanRecord, fs: FileStats)
  {
    rec.path in fs && fs[rec.path] == (rec.modifyTime, rec.size)
  }

  /** The records the refresh goes on with. */
  function KeptRecords(recs: seq<ScanRecord>, fs: FileStats): seq<ScanRecord>
  {
    Filter(recs, (r: ScanRecord) => Unchanged(r, fs))
  }

  /** The records the source deletes: it filters the already reduced list. */
  function StaleRecordsAsWritten(recs: seq<ScanRecord>, fs: FileStats): seq<ScanRecord>
  {
    Filter(KeptRecords(recs, fs), (r: ScanRecord) => !Unchanged(r, fs))
  }

  /** The records of missing or modified files, which the clean-up is there to delete. */
  function StaleRecords(recs: seq<ScanRecord>, fs: FileStats): seq<ScanRecord>
  {
    Filter(recs, (r: ScanRecord) => !Unchanged(r, fs))
  }

  /** As written, over one view of the files, the clean-up deletes nothing. */
  lemma StaleRecordsAsWrittenEmpty(recs: seq<ScanRecord>, fs: FileStats)
    ensures StaleRecordsAsWritten(recs, fs) == []
  {
    FilterNone(KeptRecords(recs, fs), (r: ScanRecord) => !Unchanged(r, fs));
  }

  /** A record whose file is gone: the source keeps it, the intended clean-up deletes it. */
  lemma StaleRecordsExample()
    ensures StaleRecordsAsWritten([ScanRecord("/mods/a.zip", 1, 2)], map[]) == []
    ensures StaleRecords([ScanRecord("/mods/a.zip", 1, 2)], map[]) == [ScanRecord("/mods/a.zip", 1, 2)]
  {
    StaleRecordsAsWrittenEmpty([ScanRecord("/mods/a.zip", 1, 2)], map[]);
  }

  /** With the intended clean-up every record is either kept or deleted, never both. */
  lemma RecordsPartition(recs: seq<ScanRecord>, fs: FileStats)
    ensures forall r :: r in recs ==> (r in KeptRecords(recs, fs) <==> r !in StaleRecords(recs, fs))
    ensures |KeptRecords(recs, fs)| + |StaleRecords(recs, fs)| == |recs|
  {
    PartitionSizes(recs, fs);
  }

  lemma {:induction false} PartitionSizes(recs: seq<ScanRecord>, fs: FileStats)
    ensures |KeptRecords(recs, fs)| + |StaleRecords(recs, fs)| == |recs|
  {
    if recs != [] {
      PartitionSizes(recs[..|recs| - 1], fs);
    }
  }
}
