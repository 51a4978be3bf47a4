/**
 * The stored mod record of the legacy Java-tree package (`java/.../bean/ModBean.kt`): the same
 * record without `virtualPaths`, its `equalsIgnoreId` comparison and its change detection.
 * Unlike the Kotlin-tree record, a changed date counts as an update here.
 */
module LegacyModBean {
  import opened Wrappers

  datatype Mod = Mod(
    id: int,
    name: Option<string>,
    version: Option<string>,
    description: Option<string>,
    author: Option<string>,
    date: int,
    path: Option<string>,
    icon: Option<string>,
    images: Option<seq<string>>,
    modFiles: Option<seq<string>>,
    isEncrypted: bool,
    password: Option<string>,
    readmePath: Option<string>,
    fileReadmePath: Option<string>,
    gamePackageName: Option<string>,
    gameModPath: Option<string>,
    modType: Option<string>,
    isEnable: bool,
    isZipFile: bool)

  /** `equalsIgnoreId`: every field compared except id, password and isEnable. (The identity
    * shortcut of the source gives the same answer, since a record equals itself field by field.) */
  predicate EqualsIgnoreId(a: Mod, b: Mod)
  {
    a.name == b.name && a.version == b.version && a.description == b.description
    && a.author == b.author && a.date == b.date && a.path == b.path && a.icon == b.icon
    && a.images == b.images && a.modFiles == b.modFiles && a.isEncrypted == b.isEncrypted
    && a.readmePath == b.readmePath && a.fileReadmePath == b.fileReadmePath
    && a.gamePackageName == b.gamePackageName && a.gameModPath == b.gameModPath
    && a.modType == b.modType && a.isZipFile == b.isZipFile
  }

  /** `equalsIgnoreId` holds exactly when the records agree once id, password and isEnable are
    * made equal; in particular every record equals itself. */
  lemma EqualsIgnoreIdMeaning(a: Mod, b: Mod)
    ensures EqualsIgnoreId(a, b) <==>
      a.(id := b.id, password := b.password, isEnable := b.isEnable) == b
    ensures EqualsIgnoreId(a, a)
  {
  }

  predicate SameMod(a: Mod, b: Mod)
  {
    a.path == b.path && a.name == b.name
  }

  predicate NoneMatches(m: Mod, mods: seq<Mod>)
  {
    forall i :: 0 <= i < |mods| ==> !SameMod(mods[i], m)
  }

  /** `isDelete`: the mod itself when no scanned mod has its path and name, else null. */
  function IsDelete(m: Mod, scanMods: seq<Mod>): (r: Option<Mod>)
    ensures r.Some? <==> forall i :: 0 <= i < |scanMods| ==> !SameMod(scanMods[i], m)
    ensures r.Some? ==> r.value == m
  {
    if NoneMatches(m, scanMods) then Some(m) else None
  }

  /** `isNew`: the scanned mod itself when no stored mod has its path and name, else null. */
  function IsNew(m: Mod, mods: seq<Mod>): (r: Option<Mod>)
    ensures r.Some? <==> forall i :: 0 <= i < |mods| ==> !SameMod(mods[i], m)
    ensures r.Some? ==> r.value == m
  {
    if NoneMatches(m, mods) then Some(m) else None
  }

  /** A mod is never reported deleted by a scan that holds a copy of it. */
  lemma CopyNotDeleted(m: Mod, scanMods: seq<Mod>, i: nat)
    requires i < |scanMods| && EqualsIgnoreId(scanMods[i], m)
    ensures IsDelete(m, scanMods) == None
  {
    assert SameMod(scanMods[i], m);
  }

  /** The fields `isUpdate` compares, the date among them. */
  predicate Differs(m: Mod, scanned: Mod)
  {
    scanned.version != m.version || scanned.description != m.description
    || scanned.author != m.author || scanned.date != m.date || scanned.icon != m.icon
    || scanned.images != m.images || scanned.modFiles != m.modFiles
    || scanned.readmePath != m.readmePath || scanned.fileReadmePath != m.fileReadmePath
    || scanned.gameModPath != m.gameModPath || scanned.modType != m.modType
    || scanned.isZipFile != m.isZipFile
  }

  /** The copy `isUpdate` returns. */
  function Updated(m: Mod, scanned: Mod): (r: Mod)
    ensures r.id == m.id && r.name == m.name && r.path == m.path && r.password == m.password
    ensures r.isEnable == m.isEnable && r.gamePackageName == m.gamePackageName
    ensures r.isEncrypted == scanned.isEncrypted && !Differs(r, scanned)
  {
    m.(version := scanned.version, description := scanned.description,
       author := scanned.author, date := scanned.date, icon := scanned.icon,
       images := scanned.images, modFiles := scanned.modFiles,
       isEncrypted := scanned.isEncrypted, readmePath := scanned.readmePath,
       fileReadmePath := scanned.fileReadmePath, gameModPath := scanned.gameModPath,
       modType := scanned.modType, isZipFile := scanned.isZipFile)
  }

  predicate Hit(m: Mod, scanned: Mod)
  {
    SameMod(scanned, m) && Differs(m, scanned)
  }

  function FirstHit(m: Mod, scanMods: seq<Mod>, from: nat): (r: int)
    decreases |scanMods| - from
    ensures r == -1 || from <= r < |scanMods|
    ensures r >= 0 ==> Hit(m, scanMods[r])
    ensures forall j :: from <= j < |scanMods| && (r == -1 || j < r) ==> !Hit(m, scanMods[j])
  {
    if from >= |scanMods| then -1
    else if Hit(m, scanMods[from]) then from
    else FirstHit(m, scanMods, from + 1)
  }

  /** `isUpdate`: null for an encrypted mod; otherwise the copy built from the first scanned
    * record with the same path and name that differs in a compared field, else null. */
  function IsUpdate(m: Mod, scanMods: seq<Mod>): (r: Option<Mod>)
    ensures m.isEncrypted ==> r == None
    ensures r.None? <==> m.isEncrypted || forall j :: 0 <= j < |scanMods| ==> !Hit(m, scanMods[j])
    ensures r.Some? ==>
      exists i :: 0 <= i < |scanMods| && Hit(m, scanMods[i]) && r.value == Updated(m, scanMods[i])
        && forall j :: 0 <= j < i ==> !Hit(m, scanMods[j])
  {
    if m.isEncrypted then None
    else
      var i := FirstHit(m, scanMods, 0);
      if i < 0 then None else Some(Updated(m, scanMods[i]))
  }

  /** In this tree a new date alone is an update, and the copy takes the scanned date. */
  lemma DateIsCompared(m: Mod, date: int)
    requires !m.isEncrypted && date != m.date
    ensures IsUpdate(m, [m.(date := date)]) == Some(m.(date := date))
  {
    assert Hit(m, [m.(date := date)][0]);
  }

  /** A scanned copy equal up to id, password and isEnable never triggers an update. */
  lemma CopyIsNoUpdate(m: Mod, scanned: Mod)
    requires EqualsIgnoreId(scanned, m)
    ensures IsUpdate(m, [scanned]) == None
  {
    assert !Hit(m, [scanned][0]);
  }
}
