/**
 * How `TraditionalModScanServiceImpl` turns the file list of an archive or folder into mods: the
 * file classification (`isNonGameFile`, `isImageFile`, `isReadmeFile`), the two grouping modes
 * (`identifyModsAMode` by game directory name, `identifyModsBMode` by file name), the mod name,
 * and the path parts of the record `createModBeanWithGameFiles` builds.
 */
module ModScan {
  import opened Wrappers
  import opened Lists
  import opened Strings
  import opened JavaFile

  // ---------------------------------------------------------------------------------------
  // File classification
  // ---------------------------------------------------------------------------------------

  /** `NON_GAME_FILE_EXTENSIONS`: pictures and documents. */
  const NonGameExtensions: seq<string> := ["png", "jpg", "jpeg", "webp", "bmp", "gif", "txt", "md", "readme", "doc", "docx"]

  /** The picture extensions `isImageFile` accepts. */
  const ImageExtensions: seq<string> := ["png", "jpg", "jpeg", "webp", "bmp", "gif"]

  /** The lower-cased text after the last '.' of the whole path, or "". */
  function LowerExtension(path: string): string
  {
    Lower(SubstringAfterLast(path, '.', ""))
  }

  /** `isNonGameFile`. */
  predicate IsNonGameFile(path: string)
  {
    LowerExtension(path) in NonGameExtensions
  }

  /** `isImageFile`. */
  predicate IsImageFile(path: string)
  {
    LowerExtension(path) in ImageExtensions
  }

  /** `isReadmeFile`: judged on the lower-cased text after the last '/'. */
  predicate IsReadmeFile(path: string)
  {
    var name := Lower(SubstringAfterLast(path, '/', path));
    StartsWith(name, "readme") || name == "说明.txt" || EndsWith(name, ".txt")
  }

  /** A path without '.' has no extension and is always a game file. */
  lemma NoExtensionIsGameFile(path: string)
    requires '.' !in path
    ensures LowerExtension(path) == "" && !IsNonGameFile(path)
  {
    NoCharLastIndex(path, '.');
    assert Lower("") == "";
  }

  /** Every picture is a non-game file: the picture extensions open the non-game list. */
  lemma ImagesAreNonGame(path: string)
    ensures IsImageFile(path) ==> IsNonGameFile(path)
  {
    assert NonGameExtensions[..6] == ImageExtensions;
  }

  /** The name "说明.txt" is already a ".txt" name: a file is a readme exactly when its lower-cased
    * name starts with "readme" or ends with ".txt". */
  lemma ReadmeNameMeaning(path: string)
    ensures IsReadmeFile(path) <==>
      var name := Lower(SubstringAfterLast(path, '/', path));
      StartsWith(name, "readme") || EndsWith(name, ".txt")
  {
    var name := Lower(SubstringAfterLast(path, '/', path));
    if name == "说明.txt" {
      assert name[|name| - 4..] == ".txt";
    }
  }

  // ---------------------------------------------------------------------------------------
  // Where a file goes
  // ---------------------------------------------------------------------------------------

  /** The two ways of recognising mods. */
  datatype Mode = ByDirName | ByFileName

  /** The configured game directory `dir` without trailing '/' holds a file named `name`,
    * ignoring case, according to the listing `gameFilesByDir`. */
  predicate HasGameFile(gameFilesByDir: map<string, set<string>>, dir: string, name: string)
  {
    dir in gameFilesByDir && exists g :: g in gameFilesByDir[dir] && EqualsIgnoreCase(g, name)
  }

  /** B-mode: the first configured directory at or after `from` whose listing holds `name`, or -1. */
  function FirstListing(name: string, dirs: seq<string>, gameFilesByDir: map<string, set<string>>, from: nat): (r: int)
    decreases |dirs| - from
    ensures r == -1 || from <= r < |dirs|
    ensures r >= 0 ==> HasGameFile(gameFilesByDir, TrimEnd(dirs[r], '/'), name)
    ensures forall j :: from <= j < |dirs| && (r == -1 || j < r) ==> !HasGameFile(gameFilesByDir, TrimEnd(dirs[j], '/'), name)
  {
    if from >= |dirs| then -1
    else if HasGameFile(gameFilesByDir, TrimEnd(dirs[from], '/'), name) then from
    else FirstListing(name, dirs, gameFilesByDir, from + 1)
  }

  /** A-mode: the name of a configured game directory (`getFileName` of it without trailing '/'). */
  function DirName(dir: string): string
  {
    Name(TrimEnd(dir, '/'))
  }

  /** `File(file).parentFile?.name`. */
  function ParentDirName(file: string): Option<string>
  {
    match Parent(file)
    case None => None
    case Some(q) => Some(Name(q))
  }

  /** A-mode: the first configured directory at or after `from` whose name is the name of the
    * file's parent directory, or -1. */
  function FirstParentDir(file: string, dirs: seq<string>, from: nat): (r: int)
    decreases |dirs| - from
    ensures r == -1 || from <= r < |dirs|
    ensures r >= 0 ==> ParentDirName(file) == Some(DirName(dirs[r]))
    ensures forall j :: from <= j < |dirs| && (r == -1 || j < r) ==> ParentDirName(file) != Some(DirName(dirs[j]))
  {
    if from >= |dirs| then -1
    else if ParentDirName(file) == Some(DirName(dirs[from])) then from
    else FirstParentDir(file, dirs, from + 1)
  }

  /** The group a file joins, the index of the game directory that decided it, and its path in
    * the game. */
  datatype Placement = Placement(key: string, typeIndex: nat, gamePath: string)

  /** The end of the first case-insensitive occurrence of `dirName` in `file`. */
  function DirEnd(file: string, dirName: string): int
  {
    IndexOfIgnoreCase(file, dirName) + |dirName|
  }

  /** B-mode: a game file joins the group of its parent directory ("." at the root) when some
    * configured directory's listing holds its name; the first such directory decides. */
  function PlaceByFileName(dirs: seq<string>, gameFilesByDir: map<string, set<string>>, file: string): Option<Placement>
  {
    if IsNonGameFile(file) then None
    else
      var fileName := SubstringAfterLast(file, '/', file);
      var parent := SubstringBeforeLast(file, '/', "");
      var j := FirstListing(fileName, dirs, gameFilesByDir, 0);
      if j < 0 then None
      else Some(Placement(if parent == "" then "." else parent, j, CollapseOnce(dirs[j] + "/" + fileName)))
  }

  /** A-mode: a game file is looked at only when its parent directory is named like a configured
    * game directory; the first such directory decides, and the file joins the group of the path
    * up to that name only when the directory's listing holds it. */
  function PlaceByDirName(dirs: seq<string>, gameFilesByDir: map<string, set<string>>, file: string): Option<Placement>
  {
    if IsNonGameFile(file) then None
    else
      var j := FirstParentDir(file, dirs, 0);
      if j < 0 then None else PlaceUnder(dirs, gameFilesByDir, file, j)
  }

  function Place(mode: Mode, dirs: seq<string>, gameFilesByDir: map<string, set<string>>, file: string): Option<Placement>
  {
    match mode
    case ByDirName => PlaceByDirName(dirs, gameFilesByDir, file)
    case ByFileName => PlaceByFileName(dirs, gameFilesByDir, file)
  }

  /** In A-mode the directory name always occurs in a file whose parent carries it, so the
    * substring the source takes never runs out of range. */
  lemma DirEndInRange(file: string, dirs: seq<string>, j: nat)
    requires j < |dirs| && ParentDirName(file) == Some(DirName(dirs[j]))
    ensures 0 <= DirEnd(file, DirName(dirs[j])) <= |file|
  {
    var dirName := DirName(dirs[j]);
    var idx := IndexOfIgnoreCase(file, dirName);
    if dirName == [] {
      assert Lower(dirName) == [];
      assert OccursAt(Lower(file), Lower(dirName), 0);
    }
    if idx >= 0 {
      assert idx + |dirName| <= |file|;
    }
  }

  /** What B-mode asks of a file: a game file, whose name the listing of a configured
    * directory holds; the first such directory gives the type and the game path, the parent
    * directory the group. */
  lemma PlaceByFileNameMeaning(dirs: seq<string>, gameFilesByDir: map<string, set<string>>, file: string)
    ensures var fileName := SubstringAfterLast(file, '/', file);
      PlaceByFileName(dirs, gameFilesByDir, file).Some? <==>
        !IsNonGameFile(file) && exists j :: 0 <= j < |dirs| && HasGameFile(gameFilesByDir, TrimEnd(dirs[j], '/'), fileName)
    ensures var fileName := SubstringAfterLast(file, '/', file);
      var parent := SubstringBeforeLast(file, '/', "");
      PlaceByFileName(dirs, gameFilesByDir, file).Some? ==>
        var p := PlaceByFileName(dirs, gameFilesByDir, file).value;
        p.typeIndex < |dirs| && HasGameFile(gameFilesByDir, TrimEnd(dirs[p.typeIndex], '/'), fileName)
        && (forall j :: 0 <= j < p.typeIndex ==> !HasGameFile(gameFilesByDir, TrimEnd(dirs[j], '/'), fileName))
        && p.key == (if parent == "" then "." else parent)
        && p.gamePath == CollapseOnce(dirs[p.typeIndex] + "/" + fileName)
  {
  }

  /** What A-mode asks of a file: the first configured directory named like the file's parent
    * decides, its listing exists, and the group is a prefix of the file's path ending where
    * the directory name does. */
  lemma PlacedByDirName(dirs: seq<string>, gameFilesByDir: map<string, set<string>>, file: string)
    requires PlaceByDirName(dirs, gameFilesByDir, file).Some?
    ensures var p := PlaceByDirName(dirs, gameFilesByDir, file).value;
      !IsNonGameFile(file) && p.typeIndex < |dirs| && ParentDirName(file) == Some(DirName(dirs[p.typeIndex]))
      && (forall j :: 0 <= j < p.typeIndex ==> ParentDirName(file) != Some(DirName(dirs[j])))
      && TrimEnd(dirs[p.typeIndex], '/') in gameFilesByDir
      && StartsWith(file, p.key) && |p.key| == DirEnd(file, DirName(dirs[p.typeIndex]))
  {
  }

  /** In A-mode the first directory named like the file's parent decides alone: when its listing
    * is missing, no later directory is tried. */
  lemma UnlistedDirDropsFile(dirs: seq<string>, gameFilesByDir: map<string, set<string>>, file: string)
    requires FirstParentDir(file, dirs, 0) >= 0
    requires TrimEnd(dirs[FirstParentDir(file, dirs, 0)], '/') !in gameFilesByDir
    ensures PlaceByDirName(dirs, gameFilesByDir, file) == None
  {
  }

  /** In A-mode a file whose parent is named like no configured directory is not placed. */
  lemma UnmatchedParentDropsFile(dirs: seq<string>, gameFilesByDir: map<string, set<string>>, file: string)
    requires forall j :: 0 <= j < |dirs| ==> ParentDirName(file) != Some(DirName(dirs[j]))
    ensures PlaceByDirName(dirs, gameFilesByDir, file) == None
  {
  }

  // ---------------------------------------------------------------------------------------
  // Grouping
  // ---------------------------------------------------------------------------------------

  /** `ModGroup`: the mod's files, their game paths, index-aligned, and its type index. */
  datatype Group = Group(modFiles: seq<string>, gameFilesPath: seq<string>, typeIndex: nat)

  /** `modGroups`, a `mutableMapOf`: its keys in insertion order and its entries. */
  datatype Groups = Groups(keys: seq<string>, groups: map<string, Group>)

  /** How a mode places each file. */
  function Placer(mode: Mode, dirs: seq<string>, gameFilesByDir: map<string, set<string>>): string -> Option<Placement>
  {
    (f: string) => Place(mode, dirs, gameFilesByDir, f)
  }

  /** `getOrPut(key) { ModGroup(typeIndex) }`, then both lists get one more entry. */
  function AddFile(st: Groups, p: Placement, file: string): Groups
  {
    if p.key in st.groups then
      var g := st.groups[p.key];
      Groups(st.keys, st.groups[p.key := g.(modFiles := g.modFiles + [file], gameFilesPath := g.gameFilesPath + [p.gamePath])])
    else
      Groups(st.keys + [p.key], st.groups[p.key := Group([file], [p.gamePath], p.typeIndex)])
  }

  /** The groups after the loop over `files`, each file placed by `place`. */
  function GroupAll(files: seq<string>, place: string -> Option<Placement>): Groups
  {
    if files == [] then Groups([], map[])
    else
      var st := GroupAll(files[..|files| - 1], place);
      var last := files[|files| - 1];
      match place(last)
      case None => st
      case Some(p) => AddFile(st, p, last)
  }

  /** The files of `files` placed in group `k`, in order. */
  function InGroup(files: seq<string>, place: string -> Option<Placement>, k: string): seq<string>
  {
    Filter(files, (f: string) => place(f).Some? && place(f).value.key == k)
  }

  /** The game paths of `files`, index by index. */
  function GamePaths(files: seq<string>, place: string -> Option<Placement>): seq<string>
  {
    Map(files, (f: string) => if place(f).Some? then place(f).value.gamePath else "")
  }

  /** A key is a group exactly when it is listed, and a group exactly when some file is placed
    * in it. */
  lemma {:induction false} GroupKeys(files: seq<string>, place: string -> Option<Placement>, k: string)
    ensures var st := GroupAll(files, place);
      (k in st.groups <==> k in st.keys)
      && (k in st.groups <==> InGroup(files, place, k) != [])
  {
    if files != [] {
      GroupKeys(files[..|files| - 1], place, k);
    }
  }

  /** Each group holds, in order, exactly the files placed in it. */
  lemma {:induction false} GroupFiles(files: seq<string>, place: string -> Option<Placement>, k: string)
    ensures var st := GroupAll(files, place);
      k in st.groups ==> st.groups[k].modFiles == InGroup(files, place, k)
  {
    if files != [] {
      var front := files[..|files| - 1];
      GroupFiles(front, place, k);
      GroupKeys(front, place, k);
    }
  }

  /** Each file's game path sits at the file's index, and a group keeps the type index of its
    * first file. */
  lemma {:induction false} GroupPaths(files: seq<string>, place: string -> Option<Placement>, k: string)
    ensures var st := GroupAll(files, place);
      k in st.groups ==>
        var g := st.groups[k];
        g.modFiles != [] && g.gameFilesPath == GamePaths(g.modFiles, place)
        && place(g.modFiles[0]).Some? && g.typeIndex == place(g.modFiles[0]).value.typeIndex
  {
    if files != [] {
      var front := files[..|files| - 1];
      var last := files[|files| - 1];
      GroupPaths(front, place, k);
      var st := GroupAll(front, place);
      if place(last).Some? && place(last).value.key == k && k in st.groups {
        var g := st.groups[k];
        assert GamePaths(g.modFiles + [last], place) == GamePaths(g.modFiles, place) + GamePaths([last], place);
        assert (g.modFiles + [last])[0] == g.modFiles[0];
      }
    }
  }

  /** The listed keys never repeat: each group is created once. */
  lemma {:induction false} GroupKeysDistinct(files: seq<string>, place: string -> Option<Placement>)
    ensures Distinct(GroupAll(files, place).keys)
  {
    if files != [] {
      var front := files[..|files| - 1];
      GroupKeysDistinct(front, place);
      match place(files[|files| - 1])
      case None =>
      case Some(p) => GroupKeys(front, place, p.key);
    }
  }

  /** A file is in a group exactly when it is one of the files and placed there: in no other
    * group, and in none when it is not placed. */
  lemma FileInOneGroup(files: seq<string>, place: string -> Option<Placement>, f: string, k: string)
    ensures var st := GroupAll(files, place);
      (k in st.groups && f in st.groups[k].modFiles) <==> f in files && place(f).Some? && place(f).value.key == k
  {
    GroupKeys(files, place, k);
    GroupFiles(files, place, k);
  }

  /** `identifyModsAMode`/`identifyModsBMode`: the loop over the files that fills `modGroups`. */
  method IdentifyGroups(files: seq<string>, mode: Mode, dirs: seq<string>, gameFilesByDir: map<string, set<string>>)
    returns (keys: seq<string>, groups: map<string, Group>)
    ensures Groups(keys, groups) == GroupAll(files, Placer(mode, dirs, gameFilesByDir))
  {
    keys, groups := [], map[];
    for i := 0 to |files|
      invariant Groups(keys, groups) == GroupAll(files[..i], Placer(mode, dirs, gameFilesByDir))
    {
      assert files[..i + 1][..i] == files[..i];
      var filePath := files[i];
      var placement := PlaceFile(filePath, mode, dirs, gameFilesByDir);
      assert Placer(mode, dirs, gameFilesByDir)(filePath) == placement;
      if placement.Some? {
        var p := placement.value;
        if p.key in groups {
          var group := groups[p.key];
          groups := groups[p.key := group.(modFiles := group.modFiles + [filePath], gameFilesPath := group.gameFilesPath + [p.gamePath])];
        } else {
          keys := keys + [p.key];
          groups := groups[p.key := Group([filePath], [p.gamePath], p.typeIndex)];
        }
      }
    }
    assert files[..|files|] == files;
  }

  /** The body of the loop above for one file: non-game files are skipped, the rest matched
    * against the configured directories as the mode says. */
  method PlaceFile(filePath: string, mode: Mode, dirs: seq<string>, gameFilesByDir: map<string, set<string>>)
    returns (placement: Option<Placement>)
    ensures placement == Place(mode, dirs, gameFilesByDir, filePath)
  {
    if IsNonGameFile(filePath) {
      return None;
    }
    if mode == ByFileName {
      placement := MatchByFileName(filePath, dirs, gameFilesByDir);
    } else {
      placement := MatchByDirName(filePath, dirs, gameFilesByDir);
    }
  }

  /** The inner loop of B-mode over the configured directories, stopping at the first listing
    * that holds the file's name. */
  method MatchByFileName(filePath: string, dirs: seq<string>, gameFilesByDir: map<string, set<string>>)
    returns (placement: Option<Placement>)
    requires !IsNonGameFile(filePath)
    ensures placement == PlaceByFileName(dirs, gameFilesByDir, filePath)
  {
    var fileName := SubstringAfterLast(filePath, '/', filePath);
    var parent := SubstringBeforeLast(filePath, '/', "");
    var parentDir := if parent == "" then "." else parent;
    for index := 0 to |dirs|
      invariant forall j :: 0 <= j < index ==> !HasGameFile(gameFilesByDir, TrimEnd(dirs[j], '/'), fileName)
    {
      var cleanGameDir := TrimEnd(dirs[index], '/');
      if cleanGameDir !in gameFilesByDir {
        continue;
      }
      var gameFiles := gameFilesByDir[cleanGameDir];
      if exists g :: g in gameFiles && EqualsIgnoreCase(g, fileName) {
        assert FirstListing(fileName, dirs, gameFilesByDir, 0) == index;
        return Some(Placement(parentDir, index, CollapseOnce(dirs[index] + "/" + fileName)));
      }
    }
    assert FirstListing(fileName, dirs, gameFilesByDir, 0) == -1;
    return None;
  }

  /** The inner loop of A-mode over the configured directories, stopping at the first one named
    * like the file's parent, whether or not its listing holds the file. */
  method MatchByDirName(filePath: string, dirs: seq<string>, gameFilesByDir: map<string, set<string>>)
    returns (placement: Option<Placement>)
    requires !IsNonGameFile(filePath)
    ensures placement == PlaceByDirName(dirs, gameFilesByDir, filePath)
  {
    for index := 0 to |dirs|
      invariant forall j :: 0 <= j < index ==> ParentDirName(filePath) != Some(DirName(dirs[j]))
    {
      var gameDirName := DirName(dirs[index]);
      if ParentDirName(filePath) == Some(gameDirName) {
        FirstParentDirAt(filePath, dirs, index);
        DirEndInRange(filePath, dirs, index);
        placement := MatchUnder(filePath, dirs, gameFilesByDir, index);
        return;
      }
    }
    FirstParentDirNone(filePath, dirs);
    return None;
  }

  lemma FirstParentDirAt(file: string, dirs: seq<string>, index: nat)
    requires index < |dirs| && ParentDirName(file) == Some(DirName(dirs[index]))
    requires forall j :: 0 <= j < index ==> ParentDirName(file) != Some(DirName(dirs[j]))
    ensures FirstParentDir(file, dirs, 0) == index
  {
  }

  lemma FirstParentDirNone(file: string, dirs: seq<string>)
    requires forall j :: 0 <= j < |dirs| ==> ParentDirName(file) != Some(DirName(dirs[j]))
    ensures FirstParentDir(file, dirs, 0) == -1
  {
  }

  /** A-mode once the directory is found: the path after the directory name decides. */
  function PlaceUnder(dirs: seq<string>, gameFilesByDir: map<string, set<string>>, file: string, j: nat): Option<Placement>
    requires j < |dirs|
  {
    var start := DirEnd(file, DirName(dirs[j]));
    if !(0 <= start <= |file|) then None
    else
      var relativeToGameDir := TrimStart(file[start..], '/');
      var fileName := SubstringAfterLast(relativeToGameDir, '/', relativeToGameDir);
      var cleanGameDir := TrimEnd(dirs[j], '/');
      var gameFiles := if cleanGameDir in gameFilesByDir then gameFilesByDir[cleanGameDir] else {};
      if gameFiles != {} && exists g :: g in gameFiles && EqualsIgnoreCase(g, fileName) then
        Some(Placement(file[..start], j, CollapseOnce(cleanGameDir + "/" + relativeToGameDir)))
      else None
  }

  method MatchUnder(filePath: string, dirs: seq<string>, gameFilesByDir: map<string, set<string>>, index: nat)
    returns (placement: Option<Placement>)
    requires index < |dirs| && 0 <= DirEnd(filePath, DirName(dirs[index])) <= |filePath|
    ensures placement == PlaceUnder(dirs, gameFilesByDir, filePath, index)
  {
    var cleanGameDir := TrimEnd(dirs[index], '/');
    var gameDirName := DirName(dirs[index]);
    var gameDirIndex := IndexOfIgnoreCase(filePath, gameDirName);
    var relativeToGameDir := TrimStart(filePath[gameDirIndex + |gameDirName|..], '/');
    var fileName := SubstringAfterLast(relativeToGameDir, '/', relativeToGameDir);
    var gameFiles := if cleanGameDir in gameFilesByDir then gameFilesByDir[cleanGameDir] else {};
    var fileExistsInGame := gameFiles != {} && exists g :: g in gameFiles && EqualsIgnoreCase(g, fileName);
    if fileExistsInGame {
      var modKey := filePath[..gameDirIndex + |gameDirName|];
      return Some(Placement(modKey, index, CollapseOnce(cleanGameDir + "/" + relativeToGameDir)));
    }
    return None;
  }

  // ---------------------------------------------------------------------------------------
  // The mod record
  // ---------------------------------------------------------------------------------------

  /** `ROOT_DIR_KEY`, the group of files at the top of the source in B-mode. */
  const RootDirKey := "."

  predicate NonEmpty(part: string)
  {
    part != ""
  }

  /** `generateModName`: the source name, followed by the non-empty '/'-separated parts of the
    * relative path joined by '|' in parentheses when there are any. */
  function GenerateModName(sourceName: string, modRelativePath: string): string
  {
    var parts := Filter(Split(modRelativePath, '/'), NonEmpty);
    if parts == [] then sourceName else sourceName + "(" + Join(parts, '|') + ")"
  }

  /** `s.replace(pat, "")`: every non-overlapping occurrence, left to right, removed. */
  function RemoveAll(s: string, pat: string): (r: string)
    ensures |r| <= |s|
  {
    if s == [] then []
    else if pat != [] && StartsWith(s, pat) then RemoveAll(s[|pat|..], pat)
    else [s[0]] + RemoveAll(s[1..], pat)
  }

  /** The name a mod is stored under: the generated name without any "(.)". */
  function ModName(sourceName: string, modRelativePath: string): string
  {
    RemoveAll(GenerateModName(sourceName, modRelativePath), "(" + RootDirKey + ")")
  }

  /** Removing "(.)" from a text without '(' followed by "(.)" takes off exactly the suffix. */
  lemma {:induction false} RemoveRootSuffix(s: string)
    requires '(' !in s
    ensures RemoveAll(s + "(.)", "(.)") == s
  {
    if s == [] {
      assert ("(.)")[3..] == [];
    } else {
      var t := s + "(.)";
      assert t[0] == s[0] && s[0] in s;
      assert !StartsWith(t, "(.)");
      assert t[1..] == s[1..] + "(.)";
      assert forall c :: c in s[1..] ==> c in s;
      RemoveRootSuffix(s[1..]);
      assert s == [s[0]] + s[1..];
    }
  }

  /** Nothing is removed from a text that does not hold the pattern's first character. */
  lemma {:induction false} RemoveAbsent(s: string, pat: string)
    requires pat != [] && pat[0] !in s
    ensures RemoveAll(s, pat) == s
  {
    if s != [] {
      assert s[0] in s;
      assert forall c :: c in s[1..] ==> c in s;
      RemoveAbsent(s[1..], pat);
      assert s == [s[0]] + s[1..];
    }
  }

  /** The root group is named by the source name alone: "name(.)" loses its "(.)". */
  lemma RootModName(sourceName: string)
    requires '(' !in sourceName
    ensures GenerateModName(sourceName, RootDirKey) == sourceName + "(.)"
    ensures ModName(sourceName, RootDirKey) == sourceName
  {
    NoCharLastIndex(RootDirKey, '/');
    assert Split(RootDirKey, '/') == [RootDirKey];
    assert Filter([RootDirKey], NonEmpty) == Filter([], NonEmpty) + [RootDirKey];
    assert "(" + RootDirKey + ")" == "(.)";
    RemoveRootSuffix(sourceName);
  }

  /** An empty relative path (the whole source is one mod) gives the source name. */
  lemma WholeSourceModName(sourceName: string)
    requires '(' !in sourceName
    ensures GenerateModName(sourceName, "") == sourceName
    ensures ModName(sourceName, "") == sourceName
  {
    assert Split("", '/') == [""];
    assert Filter([""], NonEmpty) == [];
    assert "(" + RootDirKey + ")" == "(.)";
    RemoveAbsent(sourceName, "(.)");
  }

  /** A nested group lists its directory names, in order, separated by '|'. */
  lemma NestedModName(sourceName: string, parts: seq<string>)
    requires |parts| >= 1 && forall k :: 0 <= k < |parts| ==> parts[k] != "" && '/' !in parts[k]
    ensures GenerateModName(sourceName, Join(parts, '/')) == sourceName + "(" + Join(parts, '|') + ")"
  {
    SplitJoin(parts, '/');
    FilterAll(parts, NonEmpty);
  }

  /** `mods.first`-style lookups: `list.getOrElse(i) { d }`. */
  function GetOrElse(s: seq<string>, i: nat, d: string): string
  {
    if i < |s| then s[i] else d
  }

  /** The record `createModBeanWithGameFiles` builds, without the fields copied straight from
    * the game or the clock. */
  datatype ScannedMod = ScannedMod(
    name: string,
    path: string,
    modFiles: seq<string>,
    gameFilesPath: seq<string>,
    modType: string,
    isZipFile: bool,
    isEncrypted: bool,
    icon: Option<string>,
    images: Option<seq<string>>,
    readmePath: Option<string>,
    fileReadmePath: Option<string>,
    description: string,
    virtualPaths: string,
    modRelativePath: Option<string>)

  /** The archive or folder being scanned: its path, whether it is an archive and encrypted,
    * and the relative paths of all its files. `readText` reads a folder file (None when that
    * throws). */
  datatype Source = Source(path: string, isZip: bool, isEncrypted: bool, allFilePaths: seq<string>,
                           readText: string -> Option<string>)

  /** What the scan takes from the game: the mode (`isGameFileRepeat`), the configured game
    * directories, the mod type names and the listing of each directory, and where pictures
    * are cached. */
  datatype ScanConfig = ScanConfig(mode: Mode, gameFilePath: seq<string>, modTypes: seq<string>,
                                   gameFilesByDir: map<string, set<string>>,
                                   iconCacheDir: string, imageCacheDir: string)

  /** A file has no parent directory in the source. */
  predicate AtRoot(f: string)
  {
    Parent(f).None? || Parent(f) == Some("")
  }

  /** A file lives directly in the mod's directory (for the root group: at the top). */
  predicate InModDir(f: string, modRelativePath: string)
  {
    if modRelativePath == RootDirKey then AtRoot(f) else Parent(f) == Some(modRelativePath)
  }

  function ModDirFiles(allFilePaths: seq<string>, modRelativePath: string): seq<string>
  {
    Filter(allFilePaths, (f: string) => InModDir(f, modRelativePath))
  }

  predicate IsRootReadme(f: string)
  {
    IsReadmeFile(f) && AtRoot(f)
  }

  /** Where a picture of an unencrypted archive is expected in the cache (`extractImageToCache`
    * without extraction): the archive name without extension, the entry, ".webp". */
  function CachedImage(cacheDir: string, archivePath: string, entry: string): string
  {
    cacheDir + NameWithoutExtension(archivePath) + "/" + entry + ".webp"
  }

  function CachedImages(cacheDir: string, archivePath: string, entries: seq<string>): seq<string>
  {
    Map(entries, (e: string) => CachedImage(cacheDir, archivePath, e))
  }

  /** `"$prefix/$it"` for each file. */
  function Prefixed(prefix: string, files: seq<string>): seq<string>
  {
    Map(files, (f: string) => prefix + "/" + f)
  }

  /** The icon and pictures of a mod: none without pictures; for an encrypted archive the entry
    * paths; for an unencrypted archive their cache paths; for a folder their full paths. */
  function Pictures(src: Source, cfg: ScanConfig, imageFiles: seq<string>): (Option<string>, Option<seq<string>>)
  {
    if imageFiles == [] then (None, None)
    else if src.isZip && src.isEncrypted then (Some(imageFiles[0]), Some(imageFiles))
    else if src.isZip then
      (Some(CachedImage(cfg.iconCacheDir, src.path, imageFiles[0])), Some(CachedImages(cfg.imageCacheDir, src.path, imageFiles)))
    else (Some(src.path + "/" + imageFiles[0]), Some(Prefixed(src.path, imageFiles)))
  }

  /** A nullable string in a string template. */
  function Template(o: Option<string>): string
  {
    match o
    case Some(v) => v
    case None => "null"
  }

  /** `take(n)`. */
  function Take(s: string, n: nat): (r: string)
    ensures |r| <= n && StartsWith(s, r)
    ensures |s| <= n ==> r == s
  {
    if |s| <= n then s else s[..n]
  }

  /** The readme paths and the description: marked for an encrypted source, pending for an
    * archive with a readme, read (at most 2000 characters) for a folder with one. */
  function Readme(src: Source, readmeFile: Option<string>, rootReadmeFile: Option<string>): (Option<string>, Option<string>, string)
  {
    if src.isEncrypted then (readmeFile, rootReadmeFile, "mod已加密")
    else if src.isZip && (readmeFile.Some? || rootReadmeFile.Some?) then (readmeFile, rootReadmeFile, "正在读取中...")
    else if !src.isZip && (readmeFile.Some? || rootReadmeFile.Some?) then
      var readmePath := src.path + "/" + Template(readmeFile);
      var rootReadmePath := src.path + "/" + Template(rootReadmeFile);
      var text := src.readText(if readmeFile.Some? then readmePath else rootReadmePath);
      (Some(readmePath), Some(rootReadmePath), Take(text.GetOr(""), 2000))
    else (None, None, "")
  }

  /** `createModBeanWithGameFiles`. */
  function CreateMod(src: Source, cfg: ScanConfig, modRelativePath: string, modFiles: seq<string>,
                     gameFilesPath: seq<string>, modType: string): ScannedMod
  {
    var sourceName := NameWithoutExtension(src.path);
    var finalFiles := if src.isZip then modFiles else Prefixed(src.path, modFiles);
    var modPath :=
      if src.isZip then src.path
      else if modRelativePath != "" && modRelativePath != RootDirKey then CollapseOnce(src.path + "/" + modRelativePath)
      else src.path;
    var modDirFiles := ModDirFiles(src.allFilePaths, modRelativePath);
    var (icon, images) := Pictures(src, cfg, Filter(modDirFiles, IsImageFile));
    var (readmePath, rootReadmePath, description) :=
      Readme(src, Find(modDirFiles, IsReadmeFile), Find(src.allFilePaths, IsRootReadme));
    var virtualPath := if modRelativePath != "" then src.path + "/" + modRelativePath else src.path;
    ScannedMod(ModName(sourceName, modRelativePath), modPath, finalFiles, gameFilesPath, modType, src.isZip,
      src.isEncrypted, icon, images, readmePath, rootReadmePath, description, virtualPath,
      if modRelativePath == "" then None else Some(modRelativePath))
  }

  /** An archive mod keeps its entries relative and lives at the archive; a folder mod's files
    * are prefixed with the folder and it lives in its own sub-directory (the folder itself for
    * the root group). Either way the game paths stay aligned with the files. */
  lemma CreateModPaths(src: Source, cfg: ScanConfig, modRelativePath: string, modFiles: seq<string>,
                       gameFilesPath: seq<string>, modType: string)
    ensures var m := CreateMod(src, cfg, modRelativePath, modFiles, gameFilesPath, modType);
      |m.modFiles| == |modFiles| && m.gameFilesPath == gameFilesPath && m.modType == modType
      && (src.isZip ==> m.modFiles == modFiles && m.path == src.path)
      && (!src.isZip ==> forall i :: 0 <= i < |modFiles| ==> m.modFiles[i] == src.path + "/" + modFiles[i])
      && (!src.isZip && (modRelativePath == "" || modRelativePath == RootDirKey) ==> m.path == src.path)
      && (m.modRelativePath.None? <==> modRelativePath == "")
      && (m.modRelativePath.Some? ==> m.modRelativePath.value == modRelativePath)
  {
  }

  /** Pictures come only from the mod's own directory: an encrypted archive keeps their entry
    * paths, an unencrypted one names where the cache will hold them, a folder gives full
    * paths; the icon is always the first picture's. */
  lemma PicturesMeaning(src: Source, cfg: ScanConfig, imageFiles: seq<string>)
    ensures var (icon, images) := Pictures(src, cfg, imageFiles);
      (icon.None? <==> imageFiles == []) && (images.None? <==> imageFiles == [])
      && (imageFiles != [] ==> |images.value| == |imageFiles|)
      && (imageFiles != [] && src.isZip && src.isEncrypted ==> icon == Some(imageFiles[0]) && images == Some(imageFiles))
      && (imageFiles != [] && src.isZip && !src.isEncrypted ==>
            icon == Some(cfg.iconCacheDir + NameWithoutExtension(src.path) + "/" + imageFiles[0] + ".webp")
            && forall i :: 0 <= i < |imageFiles| ==>
                 images.value[i] == cfg.imageCacheDir + NameWithoutExtension(src.path) + "/" + imageFiles[i] + ".webp")
      && (imageFiles != [] && !src.isZip ==>
            icon == Some(src.path + "/" + imageFiles[0])
            && forall i :: 0 <= i < |imageFiles| ==> images.value[i] == src.path + "/" + imageFiles[i])
  {
  }

  /** The description an encrypted source gets is fixed; a source without readme has none;
    * a folder's is the first 2000 characters of its readme, or of the root readme when the mod's
    * own directory has none, and a missing readme gives the path ".../null". */
  lemma ReadmeMeaning(src: Source, readmeFile: Option<string>, rootReadmeFile: Option<string>)
    ensures var (readmePath, rootReadmePath, description) := Readme(src, readmeFile, rootReadmeFile);
      (src.isEncrypted ==> description == "mod已加密" && readmePath == readmeFile && rootReadmePath == rootReadmeFile)
      && (readmeFile.None? && rootReadmeFile.None? && !src.isEncrypted ==> readmePath.None? && rootReadmePath.None? && description == "")
      && (!src.isZip && !src.isEncrypted && (readmeFile.Some? || rootReadmeFile.Some?) ==>
            readmePath == Some(src.path + "/" + Template(readmeFile))
            && rootReadmePath == Some(src.path + "/" + Template(rootReadmeFile))
            && |description| <= 2000
            && (readmeFile.None? ==> readmePath == Some(src.path + "/null"))
            && var read := src.readText(if readmeFile.Some? then readmePath.value else rootReadmePath.value);
               (read.None? ==> description == "") && (read.Some? ==> StartsWith(read.value, description)))
  {
    assert src.path + "/" + "null" == src.path + "/null";
  }

  /** For an integrated package (more than one mod) the source sets `virtualPaths` again from
    * the stored relative path. */
  function WithPackagePath(m: ScannedMod, sourcePath: string): ScannedMod
  {
    var relative := m.modRelativePath.GetOr("");
    m.(virtualPaths := if relative != "" then sourcePath + "/" + relative else sourcePath)
  }

  /** That rewrite gives every record the value it already has. */
  lemma PackagePathUnchanged(src: Source, cfg: ScanConfig, modRelativePath: string, modFiles: seq<string>,
                             gameFilesPath: seq<string>, modType: string)
    ensures var m := CreateMod(src, cfg, modRelativePath, modFiles, gameFilesPath, modType);
      WithPackagePath(m, src.path) == m
  {
  }

  // ---------------------------------------------------------------------------------------
  // From groups to mods
  // ---------------------------------------------------------------------------------------

  /** The type name of a group: `modType.getOrElse(typeIndex)`, "Unknown" in A-mode and
    * "Default" in B-mode when the index is past the list. */
  function TypeName(cfg: ScanConfig, typeIndex: nat): string
  {
    GetOrElse(cfg.modTypes, typeIndex, if cfg.mode == ByDirName then "Unknown" else "Default")
  }

  /** The mod made of group `k`. */
  function GroupMod(src: Source, cfg: ScanConfig, st: Groups, k: string): ScannedMod
  {
    var g := if k in st.groups then st.groups[k] else Group([], [], 0);
    CreateMod(src, cfg, k, g.modFiles, g.gameFilesPath, TypeName(cfg, g.typeIndex))
  }

  /** `identifyMods`: one mod per group, in the order the groups were made, each with
    * `virtualPaths` set again when there are several. */
  function IdentifyMods(src: Source, cfg: ScanConfig): seq<ScannedMod>
  {
    var st := GroupAll(src.allFilePaths, Placer(cfg.mode, cfg.gameFilePath, cfg.gameFilesByDir));
    var mods := Map(st.keys, (k: string) => GroupMod(src, cfg, st, k));
    if |mods| > 1 then Map(mods, (m: ScannedMod) => WithPackagePath(m, src.path)) else mods
  }

  predicate HasFiles(m: ScannedMod)
  {
    m.modFiles != []
  }

  /** `scanArchive` and `scanDirectoryMod` keep the mods that have files. */
  function ScanSource(src: Source, cfg: ScanConfig): seq<ScannedMod>
  {
    Filter(IdentifyMods(src, cfg), HasFiles)
  }

  /** The mods are the groups' mods, one per group in group order: the package rewrite of
    * `virtualPaths` changes none of them. */
  lemma ModsAreGroupMods(src: Source, cfg: ScanConfig)
    ensures var st := GroupAll(src.allFilePaths, Placer(cfg.mode, cfg.gameFilePath, cfg.gameFilesByDir));
      var mods := IdentifyMods(src, cfg);
      |mods| == |st.keys| && forall i :: 0 <= i < |mods| ==> mods[i] == GroupMod(src, cfg, st, st.keys[i])
  {
    var st := GroupAll(src.allFilePaths, Placer(cfg.mode, cfg.gameFilePath, cfg.gameFilesByDir));
    forall k | k in st.keys ensures WithPackagePath(GroupMod(src, cfg, st, k), src.path) == GroupMod(src, cfg, st, k) {
      var g := if k in st.groups then st.groups[k] else Group([], [], 0);
      PackagePathUnchanged(src, cfg, k, g.modFiles, g.gameFilesPath, TypeName(cfg, g.typeIndex));
    }
  }

  /** The mod of a group is named after the group and holds exactly the files placed in it
    * (prefixed with the folder for a folder), never none, with their game paths and the type
    * of the directory that placed its first file. */
  lemma GroupModMeaning(src: Source, cfg: ScanConfig, k: string)
    requires k in GroupAll(src.allFilePaths, Placer(cfg.mode, cfg.gameFilePath, cfg.gameFilesByDir)).keys
    ensures var place := Placer(cfg.mode, cfg.gameFilePath, cfg.gameFilesByDir);
      var m := GroupMod(src, cfg, GroupAll(src.allFilePaths, place), k);
      var files := InGroup(src.allFilePaths, place, k);
      files != [] && m.modFiles != []
      && m.name == ModName(NameWithoutExtension(src.path), k)
      && m.modFiles == (if src.isZip then files else Prefixed(src.path, files))
      && m.gameFilesPath == GamePaths(files, place)
      && place(files[0]).Some? && m.modType == TypeName(cfg, place(files[0]).value.typeIndex)
  {
    var place := Placer(cfg.mode, cfg.gameFilePath, cfg.gameFilesByDir);
    GroupKeys(src.allFilePaths, place, k);
    GroupFiles(src.allFilePaths, place, k);
    GroupPaths(src.allFilePaths, place, k);
  }

  /** One mod per group, in group order, no group listed twice; the final filter of the scan
    * drops none of them. */
  lemma IdentifyModsMeaning(src: Source, cfg: ScanConfig)
    ensures var place := Placer(cfg.mode, cfg.gameFilePath, cfg.gameFilesByDir);
      var st := GroupAll(src.allFilePaths, place);
      var mods := IdentifyMods(src, cfg);
      |mods| == |st.keys| && Distinct(st.keys)
      && forall i :: 0 <= i < |mods| ==> mods[i] == GroupMod(src, cfg, st, st.keys[i]) && st.keys[i] in st.groups
    ensures ScanSource(src, cfg) == IdentifyMods(src, cfg)
  {
    var place := Placer(cfg.mode, cfg.gameFilePath, cfg.gameFilesByDir);
    var st := GroupAll(src.allFilePaths, place);
    var mods := IdentifyMods(src, cfg);
    GroupKeysDistinct(src.allFilePaths, place);
    ModsAreGroupMods(src, cfg);
    forall i | 0 <= i < |mods| ensures HasFiles(mods[i]) && st.keys[i] in st.groups {
      GroupModMeaning(src, cfg, st.keys[i]);
      GroupKeys(src.allFilePaths, place, st.keys[i]);
    }
    FilterAll(mods, HasFiles);
  }
}
