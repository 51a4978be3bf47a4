/**
 * `GameInfoRepositoryImpl`: the game list it publishes (built-in entries first, then the valid
 * custom configurations, one per package name) and `enrichGameInfo`. Listing, reading and
 * parsing the configuration files, the installed-app queries, and the special-game hook are
 * parameters; the published list is the replay cache of its shared flow.
 */
module GameInfoRepo {
  import opened Wrappers
  import opened Lists
  import opened Strings
  import opened GameInfo
  import opened GameConfig

  /** One file of the configuration directory: its name and what parsing its text as JSON
    * gives (`None` when parsing throws). */
  datatype ConfigFile = ConfigFile(name: string, parsed: Option<Game>)

  function PackageNameOf(g: Game): string { g.packageName }

  /** One file's contribution: a ".json" file that parses and passes `checkGameConfig`. */
  function CustomGame(f: ConfigFile, root: string): Option<Game>
  {
    if !EndsWith(f.name, ".json") then None
    else
      match f.parsed
      case None => None
      case Some(g) =>
        match Validate(g, root, NoNameCheck)
        case Ok(v) => Some(v)
        case Err(_) => None
  }

  function CustomGames(files: seq<ConfigFile>, root: string): seq<Game>
  {
    MapNotNull(files, (f: ConfigFile) => CustomGame(f, root))
  }

  /** The list a reload publishes: `(defaults + custom).distinctBy { it.packageName }`. */
  function Combined(files: seq<ConfigFile>, root: string): seq<Game>
  {
    DistinctBy(Defaults(root) + CustomGames(files, root), PackageNameOf)
  }

  /** The replay cache after a reload: a missing directory listing publishes nothing, an
    * unexpected failure publishes the defaults only when nothing was published yet. */
  function ReloadSpec(cache: Option<seq<Game>>, listing: Option<seq<ConfigFile>>, fails: bool, root: string): Option<seq<Game>>
  {
    if fails then (if cache.None? then Some(Defaults(root)) else cache)
    else match listing
      case None => cache
      case Some(files) => Some(Combined(files, root))
  }

  lemma DefaultKeysDistinct(root: string)
    ensures Distinct(Map(Defaults(root), PackageNameOf))
  {
    var d := Defaults(root);
    assert Map(d, PackageNameOf) == [d[0].packageName, d[1].packageName, d[2].packageName];
  }

  /** The published list starts with the three built-in entries, unchanged, and carries each
    * package name once. */
  lemma CombinedShape(files: seq<ConfigFile>, root: string)
    ensures var r := Combined(files, root);
      |r| >= 3 && r[..3] == Defaults(root) && Distinct(Map(r, PackageNameOf))
  {
    DefaultKeysDistinct(root);
    DistinctByPrefix(Defaults(root), CustomGames(files, root), PackageNameOf);
  }

  /** Each entry after the built-in ones is a validated custom configuration whose package
    * name no built-in entry has; each valid configuration's package name is listed. */
  lemma CombinedCustom(files: seq<ConfigFile>, root: string, i: nat, f: ConfigFile)
    requires 3 <= i < |Combined(files, root)|
    ensures var r := Combined(files, root);
      (exists j :: 0 <= j < |files| && CustomGame(files[j], root) == Some(r[i])) &&
      r[i].packageName !in Map(Defaults(root), PackageNameOf)
    ensures f in files && CustomGame(f, root).Some? ==>
      CustomGame(f, root).value.packageName in Map(Combined(files, root), PackageNameOf)
  {
    var r := Combined(files, root);
    var s := Defaults(root) + CustomGames(files, root);
    CombinedShape(files, root);
    assert EarliestWithKey(s, PackageNameOf, r[i]);
    var j :| 0 <= j < |s| && s[j] == r[i] && forall k :: 0 <= k < j ==> PackageNameOf(s[k]) != PackageNameOf(r[i]);
    forall k | 0 <= k < 3
      ensures Map(Defaults(root), PackageNameOf)[k] != r[i].packageName
      ensures PackageNameOf(s[k]) != PackageNameOf(r[i])
    {
      assert Map(r, PackageNameOf)[k] == Map(Defaults(root), PackageNameOf)[k];
      assert Map(r, PackageNameOf)[k] != Map(r, PackageNameOf)[i];
      assert s[k] == Defaults(root)[k];
    }
    assert j >= 3;
    assert r[i] in CustomGames(files, root) by {
      assert CustomGames(files, root)[j - 3] == s[j];
    }
    var x :| x in files && CustomGame(x, root) == Some(r[i]);
    var jx :| 0 <= jx < |files| && files[jx] == x;
    if f in files && CustomGame(f, root).Some? {
      var g := CustomGame(f, root).value;
      assert g in CustomGames(files, root);
      assert g in s;
      assert PackageNameOf(g) in KeysInOrder(s, PackageNameOf);
    }
  }

  /** A file that contributes nothing (not ".json", unparsable or invalid) can be taken away
    * without changing the custom entries: such files are dropped one at a time. */
  lemma DroppedFile(files: seq<ConfigFile>, root: string, i: nat)
    requires i < |files| && CustomGame(files[i], root) == None
    ensures CustomGames(files[..i] + files[i + 1..], root) == CustomGames(files, root)
  {
    var f := (x: ConfigFile) => CustomGame(x, root);
    assert files == files[..i] + [files[i]] + files[i + 1..];
    MapNotNullConcat(files[..i] + [files[i]], files[i + 1..], f);
    MapNotNullConcat(files[..i], [files[i]], f);
    MapNotNullConcat(files[..i], files[i + 1..], f);
    assert MapNotNull([files[i]], f) == [] by {
      assert [files[i]][..0] == [];
    }
  }

  /** A failed reload never empties an already published list, and puts the defaults in place
    * when nothing was published. */
  lemma ReloadFailure(cache: Option<seq<Game>>, listing: Option<seq<ConfigFile>>, root: string)
    ensures ReloadSpec(cache, listing, true, root).Some?
    ensures cache.Some? ==> ReloadSpec(cache, listing, true, root) == cache
    ensures cache.None? ==> ReloadSpec(cache, listing, true, root) == Some(Defaults(root))
  {
  }

  // ---------------------------------------------------------------------------------------
  // enrichGameInfo
  // ---------------------------------------------------------------------------------------

  /** What the app-info service and the special-game service answer. */
  datatype AppInfo = AppInfo(
    isInstalled: bool,
    versionName: Option<string>,
    updateGameInfo: Game -> Game)

  predicate NoNullEntry(p: string) { !Contains(p, "null") }

  predicate NonEmptyEntry(t: string) { t != [] }

  /** `enrichGameInfo`: completes a chosen game from the installed app. */
  function EnrichGameInfo(base: Game, modPath: string, app: AppInfo): Game
  {
    if base.packageName == [] then base
    else
      var g := base.(gameFilePath := Filter(base.gameFilePath, NoNullEntry), modType := Filter(base.modType, NonEmptyEntry));
      if app.isInstalled then
        app.updateGameInfo(g.(version := app.versionName.GetOr(g.version), modSavePath := modPath + g.packageName + "/"))
      else NoGame
  }

  /** The game an installed app is completed into before the special-game hook sees it. */
  function EnrichedBeforeHook(base: Game, modPath: string, app: AppInfo): Game
  {
    var g := base.(gameFilePath := Filter(base.gameFilePath, NoNullEntry), modType := Filter(base.modType, NonEmptyEntry));
    g.(version := app.versionName.GetOr(g.version), modSavePath := modPath + g.packageName + "/")
  }

  /** An empty package name is returned as it is, an app that is not installed gives the "no
    * game" entry, and an installed one is handed to the hook with its mods directory under
    * `modPath`, the game directories that mention "null" and the empty content kinds dropped,
    * and the installed version when the service reports one. */
  lemma EnrichMeaning(base: Game, modPath: string, app: AppInfo, x: string)
    ensures base.packageName == [] ==> EnrichGameInfo(base, modPath, app) == base
    ensures base.packageName != [] && !app.isInstalled ==> EnrichGameInfo(base, modPath, app) == NoGame
    ensures base.packageName != [] && app.isInstalled ==>
      var g := EnrichedBeforeHook(base, modPath, app);
      EnrichGameInfo(base, modPath, app) == app.updateGameInfo(g) &&
      g.modSavePath == modPath + base.packageName + "/" &&
      (x in g.gameFilePath <==> x in base.gameFilePath && !Contains(x, "null")) &&
      (x in g.modType <==> x in base.modType && x != []) &&
      (app.versionName.Some? ==> g.version == app.versionName.value) &&
      (app.versionName.None? ==> g.version == base.version)
  {
  }

  // ---------------------------------------------------------------------------------------
  // The repository
  // ---------------------------------------------------------------------------------------

  /** The repository's state: the replay cache of its game-list flow. */
  class GameInfoRepository {
    const root: string
    var gameInfoList: Option<seq<Game>>

    /** A new repository, before its first reload has published anything. */
    constructor(root: string)
      ensures this.root == root && gameInfoList == None
    {
      this.root := root;
      gameInfoList := None;
    }

    /** `reloadGameInfo`: `listing` is the configuration directory's files, or `None` when
      * listing fails; `fails` stands for an exception outside the per-file parsing. */
    method ReloadGameInfo(listing: Option<seq<ConfigFile>>, fails: bool)
      modifies this
      ensures gameInfoList == ReloadSpec(old(gameInfoList), listing, fails, root)
    {
      if fails {
        if gameInfoList.None? {
          gameInfoList := Some(Defaults(root));
        }
        return;
      }
      if listing.None? {
        return;
      }
      var customGames := CustomGames(listing.value, root);
      gameInfoList := Some(DistinctBy(Defaults(root) + customGames, PackageNameOf));
    }
  }
}
