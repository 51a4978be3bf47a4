/**
 * The stored mod record of the Kotlin tree (`bean/ModBean.kt`) and its change detection
 * against a fresh scan: `isDelete`, `isNew` and `isUpdate`.
 */
module ModBean {
  import opened Wrappers

  /** One mod row. Kotlin nullable fields are `Option`s; `date` is a Long timestamp. */
  datatype Mod = Mod(
    id: int,
    name: Option<string>,
    version: Option<string>,
    description: Option<string>,
    author: Option<string>,
    date: int,
    path: Option<string>,
    virtualPaths: Option<string>,
    icon: Option<string>,
    images: Option<seq<string>>,
    modFiles: Option<seq<string>>,
    isEncrypted: bool,
    password: Option<string>,
    readmePath: Option<string>,
    fileReadmePath: Option<string>,
    gamePackageName: Option<string>,
    gameModPath: Option<string>,
    modType: Option<string>,
    isEnable: bool,
    isZipFile: bool)

  /** Two records describe the same mod: equal path and equal name. */
  predicate SameMod(a: Mod, b: Mod)
  {
    a.path == b.path && a.name == b.name
  }

  /** `scanMods.none { it.path == path && it.name == name }`. */
  predicate NoneMatches(m: Mod, mods: seq<Mod>)
  {
    forall i :: 0 <= i < |mods| ==> !SameMod(mods[i], m)
  }

  /** `isDelete`: the mod itself when the scan no longer holds it, else null. */
  function IsDelete(m: Mod, scanMods: seq<Mod>): (r: Option<Mod>)
    ensures r.Some? <==> forall i :: 0 <= i < |scanMods| ==> !SameMod(scanMods[i], m)
    ensures r.Some? ==> r.value == m
  {
    if NoneMatches(m, scanMods) then Some(m) else None
  }

  /** `isNew`: the scanned mod itself when the database does not hold it yet, else null. */
  function IsNew(m: Mod, mods: seq<Mod>): (r: Option<Mod>)
    ensures r.Some? <==> forall i :: 0 <= i < |mods| ==> !SameMod(mods[i], m)
    ensures r.Some? ==> r.value == m
  {
    if NoneMatches(m, mods) then Some(m) else None
  }

  /** A mod is never reported deleted by a scan that found it. */
  lemma ScannedNotDeleted(m: Mod, scanMods: seq<Mod>)
    requires m in scanMods
    ensures IsDelete(m, scanMods) == None
  {
    var i :| 0 <= i < |scanMods| && scanMods[i] == m;
    assert SameMod(scanMods[i], m);
  }

  /** Deletion and novelty are the two sides of one test: a stored mod is kept exactly when
    * some scanned mod is not new with respect to it. */
  lemma DeleteNewDual(stored: Mod, scanMods: seq<Mod>)
    ensures IsDelete(stored, scanMods) == None <==>
      exists i :: 0 <= i < |scanMods| && IsNew(scanMods[i], [stored]) == None
  {
    if IsDelete(stored, scanMods) == None {
      var i :| 0 <= i < |scanMods| && SameMod(scanMods[i], stored);
      assert SameMod([stored][0], scanMods[i]);
    }
  }

  /** The fields `isUpdate` compares; `date` is not among them. */
  predicate Differs(m: Mod, scanned: Mod)
  {
    scanned.version != m.version || scanned.description != m.description
    || scanned.author != m.author || scanned.icon != m.icon || scanned.images != m.images
    || scanned.modFiles != m.modFiles || scanned.readmePath != m.readmePath
    || scanned.fileReadmePath != m.fileReadmePath || scanned.gameModPath != m.gameModPath
    || scanned.modType != m.modType || scanned.isZipFile != m.isZipFile
  }

  /** The copy `isUpdate` returns: the scanned values, the stored identity. */
  function Updated(m: Mod, scanned: Mod): (r: Mod)
    ensures r.id == m.id && r.name == m.name && r.path == m.path && r.password == m.password
    ensures r.isEnable == m.isEnable && r.gamePackageName == m.gamePackageName
    ensures r.date == scanned.date && r.isEncrypted == scanned.isEncrypted
    ensures r.virtualPaths == scanned.virtualPaths && !Differs(r, scanned)
  {
    m.(version := scanned.version, description := scanned.description,
       author := scanned.author, date := scanned.date, icon := scanned.icon,
       images := scanned.images, modFiles := scanned.modFiles,
       isEncrypted := scanned.isEncrypted, readmePath := scanned.readmePath,
       fileReadmePath := scanned.fileReadmePath, gameModPath := scanned.gameModPath,
       modType := scanned.modType, isZipFile := scanned.isZipFile,
       virtualPaths := scanned.virtualPaths)
  }

  /** A scanned record that makes `isUpdate` return. */
  predicate Hit(m: Mod, scanned: Mod)
  {
    SameMod(scanned, m) && Differs(m, scanned)
  }

  /** The index of the first hit at or after `from`, or -1. */
  function FirstHit(m: Mod, scanMods: seq<Mod>, from: nat): (r: int)
    decreases |scanMods| - from
    ensures r == -1 || from <= r < |scanMods|
    ensures r >= 0 ==> Hit(m, scanMods[r])
    ensures forall j :: from <= j < |scanMods| && (r == -1 || j < r) ==> !Hit(m, scanMods[j])
  {
    if from >= |scanMods| then -1
    else if Hit(m, scanMods[from]) then from
    else FirstHit(m, scanMods, from + 1)
  }

  /** `isUpdate`: null for an encrypted mod; otherwise the updated copy built from the first
    * scanned record with the same path and name that differs in a compared field, else null. */
  function IsUpdate(m: Mod, scanMods: seq<Mod>): (r: Option<Mod>)
    ensures m.isEncrypted ==> r == None
    ensures r.None? <==> m.isEncrypted || forall j :: 0 <= j < |scanMods| ==> !Hit(m, scanMods[j])
    ensures r.Some? ==>
      exists i :: 0 <= i < |scanMods| && Hit(m, scanMods[i]) && r.value == Updated(m, scanMods[i])
        && forall j :: 0 <= j < i ==> !Hit(m, scanMods[j])
  {
    if m.isEncrypted then None
    else
      var i := FirstHit(m, scanMods, 0);
      if i < 0 then None else Some(Updated(m, scanMods[i]))
  }

  /** A scanned record that differs from the stored one only in its date is not an update. */
  lemma DateIsNotCompared(m: Mod, date: int)
    ensures IsUpdate(m, [m.(date := date)]) == None
  {
    assert !Differs(m, m.(date := date));
  }

  /** The updated copy is up to date: checking it against the record it came from again finds
    * nothing to update. */
  lemma UpdateSettles(m: Mod, scanned: Mod)
    requires !m.isEncrypted && !scanned.isEncrypted && Hit(m, scanned)
    ensures IsUpdate(m, [scanned]) == Some(Updated(m, scanned))
    ensures IsUpdate(Updated(m, scanned), [scanned]) == None
  {
    assert FirstHit(m, [scanned], 0) == 0;
    assert !Hit(Updated(m, scanned), [scanned][0]);
  }
}
