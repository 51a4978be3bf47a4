/**
 * `ProjectSnowHandler` (marked deprecated in the source): the game-directory name taken from
 * the installed version, the game paths it rewrites, the ".pak" test, and the edits of the pak
 * lists in the manifest files on enabling and disabling a mod and on starting the game.
 *
 * The manifest files the handler reads and writes are a map from path to file state; JSON is
 * folded into that state (an empty file, which Gson reads as `null`, is `Empty`; one Gson
 * cannot parse is `Malformed`). The storage roots are
 * constants of the handler, the permission service is a function parameter, and each mod
 * file's digest and size, with both of the source's read attempts folded together, are
 * function parameters.
 */
module ProjectSnow {
  import opened Wrappers
  import opened Lists
  import opened Strings
  import opened DomainMod
  import opened GameInfo
  import JavaFile
  import FileTools

  // ---------------------------------------------------------------------------------------
  // getGameFileDir
  // ---------------------------------------------------------------------------------------

  /** `\d`: an ASCII decimal digit. */
  predicate IsDigit(c: char) { '0' <= c <= '9' }

  predicate AllDigits(s: string) { forall i :: 0 <= i < |s| ==> IsDigit(s[i]) }

  /** The longest run of digits `s` starts with. */
  function LeadingDigits(s: string): (r: string)
    ensures |r| <= |s| && r == s[..|r|] && AllDigits(r)
    ensures |r| == |s| || !IsDigit(s[|r|])
  {
    if s == [] || !IsDigit(s[0]) then [] else [s[0]] + LeadingDigits(s[1..])
  }

  /** The three numbers of a `^(\d+\.\d+\.\d+)` match, or `None` when the version does not
    * start with one. Each `\d+` is greedy, and the first two must be followed by '.', so each
    * takes the whole run of digits. */
  function VersionParts(v: string): Option<(string, string, string)>
  {
    var a := LeadingDigits(v);
    if a == [] || |a| == |v| || v[|a|] != '.' then None
    else
      match MinorParts(v[|a| + 1..])
      case None => None
      case Some((b, c)) => Some((a, b, c))
  }

  /** The `\d+\.\d+` that must follow the first number and its '.'. */
  function MinorParts(r: string): Option<(string, string)>
  {
    var b := LeadingDigits(r);
    if b == [] || |b| == |r| || r[|b|] != '.' then None
    else
      var c := LeadingDigits(r[|b| + 1..]);
      if c == [] then None else Some((b, c))
  }

  /** The matched text, or "" when there is no match. */
  function VersionMatch(v: string): string
  {
    match VersionParts(v)
    case None => ""
    case Some((a, b, c)) => a + "." + b + "." + c
  }

  /** `getGameFileDir`: the match split on '.', its third piece (when there is one) replaced
    * by "0", joined again. */
  function GameFileDir(version: string): string
  {
    var parts := Split(VersionMatch(version), '.');
    Join(if |parts| >= 3 then parts[..2] + ["0"] + parts[3..] else parts, '.')
  }

  /** "`v` starts with the run of digits `a`, then '.', the run `b`, '.' and the run `c`, and
    * no further digit follows `c`": the text `^(\d+\.\d+\.\d+)` matches. */
  predicate ShapedAs(v: string, a: string, b: string, c: string)
  {
    a != [] && b != [] && c != [] && AllDigits(a) && AllDigits(b) && AllDigits(c) &&
    StartsWith(v, a) && |v| > |a| && v[|a|] == '.' &&
    StartsWith(v[|a| + 1..], b) && |v| > |a| + |b| + 1 && v[|a| + |b| + 1] == '.' &&
    StartsWith(v[|a| + |b| + 2..], c) &&
    (|v| == |a| + |b| + |c| + 2 || !IsDigit(v[|a| + |b| + |c| + 2]))
  }

  lemma {:induction false} LeadingDigitsPrefix(s: string, d: string)
    requires StartsWith(s, d) && AllDigits(d)
    requires |s| == |d| || !IsDigit(s[|d|])
    ensures LeadingDigits(s) == d
  {
    if d != [] {
      assert s[1..][..|d| - 1] == d[1..];
      LeadingDigitsPrefix(s[1..], d[1..]);
    }
  }

  /** A version shaped from three numbers yields them. */
  lemma VersionPartsOfShaped(v: string, a: string, b: string, c: string)
    requires ShapedAs(v, a, b, c)
    ensures VersionParts(v) == Some((a, b, c))
  {
    LeadingDigitsPrefix(v, a);
    MinorPartsOfShaped(v, a, b, c);
  }

  lemma MinorPartsOfShaped(v: string, a: string, b: string, c: string)
    requires ShapedAs(v, a, b, c)
    ensures MinorParts(v[|a| + 1..]) == Some((b, c))
  {
    var r1 := v[|a| + 1..];
    assert r1[|b|] == v[|a| + |b| + 1];
    LeadingDigitsPrefix(r1, b);
    var r2 := r1[|b| + 1..];
    assert r2 == v[|a| + |b| + 2..];
    if |r2| > |c| {
      assert r2[|c|] == v[|a| + |b| + |c| + 2];
    }
    LeadingDigitsPrefix(r2, c);
  }

  /** The numbers found are exactly the ones the version is shaped from. */
  lemma VersionPartsIff(v: string, a: string, b: string, c: string)
    ensures VersionParts(v) == Some((a, b, c)) <==> ShapedAs(v, a, b, c)
  {
    if ShapedAs(v, a, b, c) {
      VersionPartsOfShaped(v, a, b, c);
    }
    if VersionParts(v) == Some((a, b, c)) {
      var r1 := v[|a| + 1..];
      assert r1[|b|] == v[|a| + |b| + 1];
      assert r1[|b| + 1..] == v[|a| + |b| + 2..];
    }
  }

  /** The numbers found are non-empty runs of digits. */
  lemma VersionPartsDigits(v: string, a: string, b: string, c: string)
    requires VersionParts(v) == Some((a, b, c))
    ensures a != [] && b != [] && c != [] && AllDigits(a) && AllDigits(b) && AllDigits(c)
  {
  }

  lemma NoDotInDigits(s: string)
    requires AllDigits(s)
    ensures '.' !in s && '/' !in s
  {
    forall i | 0 <= i < |s| ensures s[i] != '.' && s[i] != '/' {
      assert IsDigit(s[i]);
    }
  }

  lemma JoinThree(a: string, b: string, c: string)
    ensures Join([a, b, c], '.') == a + "." + b + "." + c
  {
    assert [a, b, c][..2] == [a, b];
    assert [a, b][..1] == [a];
    assert Join([a], '.') == a;
    assert Join([a, b], '.') == a + "." + b;
  }

  /** Splitting "a.b.c" on '.', replacing the third piece by "0" and joining gives "a.b.0". */
  lemma ThirdPieceZeroed(a: string, b: string, c: string)
    requires '.' !in a && '.' !in b && '.' !in c
    ensures var parts := Split(a + "." + b + "." + c, '.');
      |parts| == 3 && Join(parts[..2] + ["0"] + parts[3..], '.') == a + "." + b + ".0"
  {
    JoinThree(a, b, c);
    SplitJoin([a, b, c], '.');
    var parts := Split(a + "." + b + "." + c, '.');
    assert parts[..2] + ["0"] + parts[3..] == [a, b, "0"];
    JoinThree(a, b, "0");
  }

  /** `getGameFileDir` turns a leading "x.y.z" into "x.y.0" and gives "" for any other
    * version; the directory name never holds a '/'. */
  lemma GameFileDirMeaning(version: string, a: string, b: string, c: string)
    ensures VersionParts(version).None? ==> GameFileDir(version) == ""
    ensures VersionParts(version) == Some((a, b, c)) ==> GameFileDir(version) == a + "." + b + ".0"
    ensures '/' !in GameFileDir(version)
  {
    match VersionParts(version)
    case None =>
      assert Split("", '.') == [""];
    case Some((x, y, z)) =>
      VersionPartsDigits(version, x, y, z);
      NoDotInDigits(x);
      NoDotInDigits(y);
      NoDotInDigits(z);
      ThirdPieceZeroed(x, y, z);
      assert GameFileDir(version) == x + "." + y + ".0";
      assert '/' !in x + "." + y + ".0" by {
        assert x + "." + y + ".0" == x + ['.'] + y + ['.', '0'];
      }
  }

  // ---------------------------------------------------------------------------------------
  // updateGameInfo and isModFileSupported
  // ---------------------------------------------------------------------------------------

  /** A game path with the version directory appended as a further path component. */
  function WithGameDir(p: string, dir: string): string
  {
    CollapseOnce(p + "/" + dir + "/")
  }

  /** `updateGameInfo`: every game path gets `/<dir>/` appended, "//" collapsed once. */
  function UpdateGameInfo(g: Game): Game
  {
    var dir := GameFileDir(g.version);
    g.(gameFilePath := Map(g.gameFilePath, (p: string) => WithGameDir(p, dir)))
  }

  /** A path free of "//" and not ending in '/'. */
  predicate CleanPath(p: string)
  {
    !HasDoubleSlash(p) && (p == [] || p[|p| - 1] != '/')
  }

  lemma CleanTail(p: string)
    requires p != [] && CleanPath(p)
    ensures CleanPath(p[1..])
    ensures |p| >= 2 ==> !(p[0] == '/' && p[1] == '/')
    ensures |p| == 1 ==> p[0] != '/'
  {
    var q := p[1..];
    forall i | 0 <= i < |q| - 1 ensures !(q[i] == '/' && q[i + 1] == '/') {
      assert q[i] == p[i + 1] && q[i + 1] == p[i + 2];
    }
    if q != [] {
      assert q[|q| - 1] == p[|p| - 1];
    }
  }

  lemma CollapseStep(p: string, t: string)
    requires p != []
    requires |p| >= 2 ==> !(p[0] == '/' && p[1] == '/')
    requires |p| == 1 ==> p[0] != '/'
    ensures CollapseOnce(p + t) == [p[0]] + CollapseOnce(p[1..] + t)
  {
    assert (p + t)[1..] == p[1..] + t;
    assert (p + t)[0] == p[0];
    if |p| >= 2 {
      assert (p + t)[1] == p[1];
    }
  }

  /** The one-pass replacement leaves a clean prefix alone. */
  lemma {:induction false} CollapseAppend(p: string, t: string)
    requires CleanPath(p)
    ensures CollapseOnce(p + t) == p + CollapseOnce(t)
  {
    if p != [] {
      CleanTail(p);
      CollapseStep(p, t);
      CollapseAppend(p[1..], t);
      assert p == [p[0]] + p[1..];
    } else {
      assert p + t == t;
    }
  }

  /** With no version directory, a clean path gains a single '/'. */
  lemma WithEmptyDir(p: string)
    requires CleanPath(p)
    ensures WithGameDir(p, "") == p + "/"
  {
    assert p + "/" + "" + "/" == p + "//";
    CollapseAppend(p, "//");
    assert CollapseOnce("//"[2..]) == "";
  }

  /** With a version directory free of '/', a clean path gains exactly `/<dir>/`. */
  lemma WithDir(p: string, dir: string)
    requires CleanPath(p) && dir != [] && '/' !in dir
    ensures WithGameDir(p, dir) == p + "/" + dir + "/"
  {
    assert p + "/" + dir + "/" == p + ("/" + dir + "/");
    CollapseAppend(p, "/" + dir + "/");
    assert CleanPath(dir) by {
      assert dir[|dir| - 1] in dir;
    }
    CollapseStep("/" + dir, "/");
    assert ("/" + dir)[1..] == dir;
    assert "/" + dir + "/" == ("/" + dir) + "/";
    CollapseAppend(dir, "/");
  }

  /** `updateGameInfo` changes nothing but the game paths and keeps their number. */
  lemma UpdateGameInfoShape(g: Game)
    ensures UpdateGameInfo(g) == g.(gameFilePath := UpdateGameInfo(g).gameFilePath)
    ensures |UpdateGameInfo(g).gameFilePath| == |g.gameFilePath|
  {
  }

  /** Each clean game path gets the version directory appended: exactly `/<dir>/`, or a single
    * '/' when the version gives no directory. */
  lemma UpdatedGamePath(g: Game, k: nat)
    requires k < |g.gameFilePath| && CleanPath(g.gameFilePath[k])
    ensures var p := g.gameFilePath[k];
      var dir := GameFileDir(g.version);
      UpdateGameInfo(g).gameFilePath[k] == if dir == [] then p + "/" else p + "/" + dir + "/"
  {
    var p := g.gameFilePath[k];
    var dir := GameFileDir(g.version);
    assert UpdateGameInfo(g).gameFilePath[k] == WithGameDir(p, dir);
    GameFileDirMeaning(g.version, [], [], []);
    if dir == [] {
      WithEmptyDir(p);
    } else {
      WithDir(p, dir);
    }
  }

  /** After `updateGameInfo`, "//" is left in a game path only where the joined path had
    * "///". */
  lemma UpdatedGamePathSlashes(g: Game, k: nat)
    requires k < |g.gameFilePath|
    requires !HasTripleSlash(g.gameFilePath[k] + "/" + GameFileDir(g.version) + "/")
    ensures !HasDoubleSlash(UpdateGameInfo(g).gameFilePath[k])
  {
    CollapseOnceLeavesTriples(g.gameFilePath[k] + "/" + GameFileDir(g.version) + "/");
  }

  /** `isModFileSupported`: the name ends with ".pak", in that case. */
  predicate IsModFileSupported(modFileName: string)
  {
    EndsWith(modFileName, ".pak")
  }

  /** Every name with the ".pak" suffix is supported, the test is case-sensitive, and a
    * supported name is its stem followed by ".pak". */
  lemma ModFileSupportedMeaning(stem: string, name: string)
    ensures IsModFileSupported(stem + ".pak")
    ensures !IsModFileSupported(stem + ".PAK")
    ensures IsModFileSupported(name) ==> |name| >= 4 && name == name[..|name| - 4] + ".pak"
  {
    assert (stem + ".pak")[|stem|..] == ".pak";
    assert (stem + ".PAK")[|stem|..] == ".PAK";
  }

  // ---------------------------------------------------------------------------------------
  // Manifests
  // ---------------------------------------------------------------------------------------

  datatype Pak = Pak(
    name: string,
    hash: string,
    sizeInBytes: int,
    bPrimary: bool,
    base: string,
    diff: string,
    diffSizeBytes: int)

  /** `MainIFest`. */
  datatype Manifest = Manifest(
    version: string,
    projectVersion: string,
    pathOffset: string,
    bUserCache: bool,
    paks: seq<Pak>)

  /** A manifest path's state: absent, present but empty (read as `null`), present but not
    * parsable (reading it throws), or holding a manifest. */
  datatype ManifestFile = NoFile | Empty | Malformed | Stored(manifest: Manifest)

  datatype SnowError = Unknown | StoragePermissionDenied

  datatype Outcome = Success | Failure(error: SnowError)

  /** The new manifest files and what the handler returns. */
  datatype Step = Step(files: map<string, ManifestFile>, outcome: Outcome)

  const CheckFileName := "manifest.json"

  function FileAt(files: map<string, ManifestFile>, path: string): ManifestFile
  {
    if path in files then files[path] else NoFile
  }

  /** The manifest the enable path writes around its pak list. */
  function ModManifest(paks: seq<Pak>): Manifest
  {
    Manifest("1.0", "1.0", "", true, paks)
  }

  // ---------------------------------------------------------------------------------------
  // Enabling a mod
  // ---------------------------------------------------------------------------------------

  /** Where a mod file is read from: under the extraction directory for an archive mod. */
  function ModFilePath(mod: Mod, unZipPath: string, modFile: string): string
  {
    if mod.isZipFile then unZipPath + modFile else modFile
  }

  function ModFilePaths(mod: Mod, unZipPath: string): seq<string>
  {
    Map(mod.modFiles, (f: string) => ModFilePath(mod, unZipPath, f))
  }

  function NewPak(path: string, md5: string, size: int): Pak
  {
    Pak(JavaFile.Name(path), md5, size, false, "", "", 0)
  }

  /** The entry a mod file contributes, or `None` when its digest or size cannot be had
    * (then `!!` throws). */
  function ProbeOf(digest: string -> Option<string>, fileSize: string -> Option<int>): string -> Option<Pak>
  {
    (p: string) =>
      if digest(p).Some? && fileSize(p).Some? then Some(NewPak(p, digest(p).value, fileSize(p).value)) else None
  }

  datatype EnableRun = EnableRun(paks: seq<Pak>, ok: bool)

  /** The pak list after the loop over the mod files, and whether it ran to the end. */
  function EnableFiles(start: seq<Pak>, paths: seq<string>, probe: string -> Option<Pak>): EnableRun
  {
    if paths == [] then EnableRun(start, true)
    else
      var r := EnableFiles(start, paths[..|paths| - 1], probe);
      if !r.ok then r
      else
        match probe(paths[|paths| - 1])
        case None => EnableRun(r.paks, false)
        case Some(p) => EnableRun(r.paks + [p], true)
  }

  /** The loop keeps the old entries and appends one per mod file, none de-duplicated, until
    * the first file that cannot be read; it runs to the end exactly when every file can be. */
  lemma {:induction false} EnableFilesMeaning(start: seq<Pak>, paths: seq<string>, probe: string -> Option<Pak>)
    ensures |start| <= |EnableFiles(start, paths, probe).paks| <= |start| + |paths|
    ensures EnableFiles(start, paths, probe).paks[..|start|] == start
    ensures forall i :: |start| <= i < |EnableFiles(start, paths, probe).paks| ==>
      probe(paths[i - |start|]) == Some(EnableFiles(start, paths, probe).paks[i])
    ensures !EnableFiles(start, paths, probe).ok ==>
      |EnableFiles(start, paths, probe).paks| < |start| + |paths| &&
      probe(paths[|EnableFiles(start, paths, probe).paks| - |start|]).None?
    ensures EnableFiles(start, paths, probe).ok <==> forall i :: 0 <= i < |paths| ==> probe(paths[i]).Some?
    ensures EnableFiles(start, paths, probe).ok ==> |EnableFiles(start, paths, probe).paks| == |start| + |paths|
  {
    if paths != [] {
      var front := paths[..|paths| - 1];
      EnableFilesMeaning(start, front, probe);
      var r := EnableFiles(start, front, probe);
      var s := EnableFiles(start, paths, probe);
      assert forall i :: 0 <= i < |front| ==> front[i] == paths[i];
      if !r.ok {
        assert paths[|r.paks| - |start|] == front[|r.paks| - |start|];
      } else if probe(paths[|paths| - 1]).None? {
        assert |r.paks| - |start| == |paths| - 1;
      } else {
        assert s.paks == r.paks + [probe(paths[|paths| - 1]).value];
        assert s.paks[..|start|] == r.paks[..|start|];
        forall i | |start| <= i < |s.paks|
          ensures probe(paths[i - |start|]) == Some(s.paks[i])
        {
          if i < |r.paks| {
            assert s.paks[i] == r.paks[i];
          }
        }
      }
    }
  }

  /** The manifest file and the result after `handleModEnable`: an unreadable manifest fails
    * at once; a missing one is created empty first; each entry appended is written straight
    * away, so a failure part-way leaves the entries appended before it. */
  function EnableSpec(file: ManifestFile, paths: seq<string>, probe: string -> Option<Pak>): (ManifestFile, Outcome)
  {
    match file
    case Empty => (Empty, Failure(Unknown))
    case Malformed => (Malformed, Failure(Unknown))
    case NoFile => EnableFinish(Empty, [], EnableFiles([], paths, probe))
    case Stored(m) => EnableFinish(file, m.paks, EnableFiles(m.paks, paths, probe))
  }

  function EnableFinish(base: ManifestFile, start: seq<Pak>, r: EnableRun): (ManifestFile, Outcome)
  {
    (Written(base, start, r.paks), if r.ok then Success else Failure(Unknown))
  }

  /** The manifest file once `paks` has been reached: written as soon as an entry is added. */
  function Written(base: ManifestFile, start: seq<Pak>, paks: seq<Pak>): ManifestFile
  {
    if |paks| > |start| then Stored(ModManifest(paks)) else base
  }

  /** The two readable starting points of the enable path. */
  lemma EnableSpecIs(file: ManifestFile, paths: seq<string>, probe: string -> Option<Pak>, baseFile: ManifestFile, start: seq<Pak>)
    requires (file == NoFile && baseFile == Empty && start == []) ||
             (file.Stored? && baseFile == file && start == file.manifest.paks)
    ensures EnableSpec(file, paths, probe) == EnableFinish(baseFile, start, EnableFiles(start, paths, probe))
  {
  }

  /** Enabling over a stored manifest succeeds exactly when every mod file can be read, and
    * then the manifest holds the old entries followed by one new entry per mod file. */
  lemma EnableMeaning(m: Manifest, paths: seq<string>, probe: string -> Option<Pak>)
    requires paths != []
    ensures EnableSpec(Stored(m), paths, probe).1 == Success <==>
      forall i :: 0 <= i < |paths| ==> probe(paths[i]).Some?
    ensures EnableSpec(Stored(m), paths, probe).1 == Success ==>
      EnableSpec(Stored(m), paths, probe).0.Stored? &&
      var paks := EnableSpec(Stored(m), paths, probe).0.manifest.paks;
      |paks| == |m.paks| + |paths| && paks[..|m.paks|] == m.paks &&
      forall i :: 0 <= i < |paths| ==> probe(paths[i]) == Some(paks[|m.paks| + i])
  {
    EnableFilesMeaning(m.paks, paths, probe);
    var r := EnableFiles(m.paks, paths, probe);
    if r.ok {
      forall i | 0 <= i < |paths| ensures probe(paths[i]) == Some(r.paks[|m.paks| + i]) {
        assert |m.paks| + i - |m.paks| == i;
      }
    }
  }

  /** Enabling the same mod files twice lists each of their entries twice. */
  lemma EnableTwiceDuplicates(m: Manifest, paths: seq<string>, probe: string -> Option<Pak>)
    requires paths != [] && forall i :: 0 <= i < |paths| ==> probe(paths[i]).Some?
    ensures var once := EnableSpec(Stored(m), paths, probe).0;
      once.Stored? &&
      var twice := EnableSpec(once, paths, probe).0;
      twice.Stored? &&
      |twice.manifest.paks| == |m.paks| + 2 * |paths| &&
      twice.manifest.paks[|m.paks|] == twice.manifest.paks[|m.paks| + |paths|] == probe(paths[0]).value
  {
    EnableMeaning(m, paths, probe);
    var once := EnableSpec(Stored(m), paths, probe).0;
    EnableMeaning(once.manifest, paths, probe);
    var twice := EnableSpec(once, paths, probe).0;
    assert twice.manifest.paks[..|once.manifest.paks|] == once.manifest.paks;
    assert twice.manifest.paks[|m.paks|] == once.manifest.paks[|m.paks|];
    assert probe(paths[0]) == Some(once.manifest.paks[|m.paks| + 0]);
    assert probe(paths[0]) == Some(twice.manifest.paks[|once.manifest.paks| + 0]);
  }

  /** A first enable on a package whose first mod file cannot be read leaves the newly created
    * manifest empty, and every later enable of that package then fails without a change. */
  lemma EnableBreaksFreshManifest(paths: seq<string>, probe: string -> Option<Pak>, later: seq<string>)
    requires paths == [] || probe(paths[0]).None?
    ensures EnableSpec(NoFile, paths, probe).0 == Empty
    ensures EnableSpec(Empty, later, probe) == (Empty, Failure(Unknown))
  {
    if paths != [] {
      assert paths[..1][..0] == [];
      EnableStoppedStays([], paths, probe, 1);
    }
  }

  // ---------------------------------------------------------------------------------------
  // Disabling a mod
  // ---------------------------------------------------------------------------------------

  /** The entries no mod file's name matches. */
  function Unmatched(names: seq<string>): Pak -> bool
  {
    (p: Pak) => multiset(names)[p.name] == 0
  }

  /** The pak list after the iterator loop of `handleModDisable`, or `None` when it throws: an
    * entry matched by one mod file name is removed, and one matched by a second name is
    * removed again, which throws. */
  function DisableRun(paks: seq<Pak>, names: seq<string>): Option<seq<Pak>>
  {
    if paks == [] then Some([])
    else
      match DisableRun(paks[..|paks| - 1], names)
      case None => None
      case Some(kept) =>
        var p := paks[|paks| - 1];
        if multiset(names)[p.name] >= 2 then None
        else if multiset(names)[p.name] == 1 then Some(kept)
        else Some(kept + [p])
  }

  /** The loop throws exactly when some entry is matched by two or more mod file names, and
    * otherwise keeps, in order, the entries no mod file name matches. */
  lemma {:induction false} DisableRunMeaning(paks: seq<Pak>, names: seq<string>)
    ensures DisableRun(paks, names).None? <==> exists i :: 0 <= i < |paks| && multiset(names)[paks[i].name] >= 2
    ensures DisableRun(paks, names).Some? ==> DisableRun(paks, names).value == Filter(paks, Unmatched(names))
  {
    if paks != [] {
      var front := paks[..|paks| - 1];
      var p := paks[|paks| - 1];
      DisableRunMeaning(front, names);
      assert forall i :: 0 <= i < |front| ==> front[i] == paks[i];
      if DisableRun(front, names).None? {
        var i :| 0 <= i < |front| && multiset(names)[front[i].name] >= 2;
        assert multiset(names)[paks[i].name] >= 2;
      } else if multiset(names)[p.name] < 2 {
        forall i | 0 <= i < |paks| ensures multiset(names)[paks[i].name] < 2 {
          if i < |front| {
            assert paks[i] == front[i];
          }
        }
      }
    }
  }

  /** What stays listed after a successful disable: the entries whose name equals no mod
    * file's name. */
  lemma DisableKeeps(paks: seq<Pak>, names: seq<string>, p: Pak)
    requires DisableRun(paks, names).Some?
    ensures p in DisableRun(paks, names).value <==> p in paks && p.name !in names
  {
    DisableRunMeaning(paks, names);
  }

  /** The mod's file names as the disable path compares them. */
  function ModFileNames(mod: Mod): seq<string>
  {
    Map(mod.modFiles, JavaFile.Name)
  }

  /** The manifest files and the result after `handleModDisable`: the manifest must be
    * readable; when the loop throws nothing is written. */
  function DisableSpec(files: map<string, ManifestFile>, path: string, names: seq<string>): Step
  {
    match FileAt(files, path)
    case Stored(m) =>
      (match DisableRun(m.paks, names)
       case None => Step(files, Failure(Unknown))
       case Some(kept) => Step(files[path := Stored(m.(paks := kept))], Success))
    case _ => Step(files, Failure(Unknown))
  }

  // ---------------------------------------------------------------------------------------
  // Starting the game
  // ---------------------------------------------------------------------------------------

  /** The game's pak list after the injection loop: each mod entry not yet listed is put in
    * front. */
  function InjectPaks(main: seq<Pak>, modPaks: seq<Pak>): seq<Pak>
  {
    if modPaks == [] then main
    else
      var acc := InjectPaks(main, modPaks[..|modPaks| - 1]);
      var p := modPaks[|modPaks| - 1];
      if p in acc then acc else [p] + acc
  }

  /** The injected list holds the game's entries and the mod entries, the game's entries
    * still last and in their order, and adds no duplicates. */
  lemma {:induction false} InjectMeaning(main: seq<Pak>, modPaks: seq<Pak>, x: Pak)
    ensures x in InjectPaks(main, modPaks) <==> x in main || x in modPaks
    ensures |main| <= |InjectPaks(main, modPaks)| <= |main| + |modPaks|
    ensures InjectPaks(main, modPaks)[|InjectPaks(main, modPaks)| - |main|..] == main
  {
    if modPaks != [] {
      var front := modPaks[..|modPaks| - 1];
      var p := modPaks[|modPaks| - 1];
      InjectMeaning(main, front, x);
      var acc := InjectPaks(main, front);
      assert modPaks == front + [p];
      if p !in acc {
        assert ([p] + acc)[|[p] + acc| - |main|..] == acc[|acc| - |main|..];
      }
    }
  }

  /** The injection adds no duplicates. */
  lemma {:induction false} InjectDistinct(main: seq<Pak>, modPaks: seq<Pak>)
    requires Distinct(main)
    ensures Distinct(InjectPaks(main, modPaks))
  {
    if modPaks != [] {
      var p := modPaks[|modPaks| - 1];
      InjectDistinct(main, modPaks[..|modPaks| - 1]);
      var acc := InjectPaks(main, modPaks[..|modPaks| - 1]);
      if p !in acc {
        ConsDistinct(p, acc);
      }
    }
  }

  lemma ConsDistinct<T>(p: T, acc: seq<T>)
    requires Distinct(acc) && p !in acc
    ensures Distinct([p] + acc)
  {
    forall i, j | 0 <= i < j < |[p] + acc| ensures ([p] + acc)[i] != ([p] + acc)[j] {
      if i == 0 {
        assert ([p] + acc)[j] == acc[j - 1];
      } else {
        assert ([p] + acc)[i] == acc[i - 1] && ([p] + acc)[j] == acc[j - 1];
      }
    }
  }

  /** Distinct mod entries the game does not list yet end up in front in reverse order. */
  lemma {:induction false} InjectReversed(main: seq<Pak>, modPaks: seq<Pak>)
    requires Distinct(modPaks)
    requires forall i :: 0 <= i < |modPaks| ==> modPaks[i] !in main
    ensures InjectPaks(main, modPaks) == Reverse(modPaks) + main
  {
    if modPaks != [] {
      var front := modPaks[..|modPaks| - 1];
      var p := modPaks[|modPaks| - 1];
      assert forall i :: 0 <= i < |front| ==> front[i] == modPaks[i];
      InjectReversed(main, front);
      assert p !in front by {
        forall k | 0 <= k < |front| ensures front[k] != p {
          assert front[k] == modPaks[k];
        }
      }
      ReverseMember(front, p);
      assert p !in Reverse(front) + main;
      assert InjectPaks(main, modPaks) == [p] + (Reverse(front) + main);
    }
  }

  /** The manifest files once the game's manifest has been copied to `copyPath`; when there
    * is no game manifest the copy fails and, as in the source, that failure is ignored. */
  function Copied(files: map<string, ManifestFile>, gameDir: string, copyPath: string): map<string, ManifestFile>
  {
    var gameManifest := gameDir + CheckFileName;
    if FileAt(files, gameManifest) != NoFile then files[copyPath := files[gameManifest]] else files
  }

  /** The manifest files and the result after `handleGameStart`, with `gameDir` the game's
    * files directory, `modPath` the mod manifest, `copyPath` the temporary copy of the game's
    * manifest and `access` how the game directory may be accessed. Both manifests are parsed
    * before the mod entries are looked at, so either one missing or malformed fails; an empty
    * copy parses to `null`, which only fails once there are mod entries to add to it. */
  function GameStartSpec(files: map<string, ManifestFile>, gameDir: string, modPath: string, copyPath: string,
                         access: FileTools.FileAccessType): Step
  {
    if access == FileTools.NoAccess then Step(files, Failure(StoragePermissionDenied))
    else
      var copied := Copied(files, gameDir, copyPath);
      match (FileAt(copied, modPath), FileAt(copied, copyPath))
      case (Stored(mm), Stored(main)) =>
        if mm.paks == [] then Step(copied, Success)
        else Step(copied[gameDir + CheckFileName := Stored(main.(paks := InjectPaks(main.paks, mm.paks)))], Success)
      case (Stored(mm), Empty) =>
        if mm.paks == [] then Step(copied, Success) else Step(copied, Failure(Unknown))
      case _ => Step(copied, Failure(Unknown))
  }

  /** With access, starting the game succeeds exactly when the mod manifest holds a manifest
    * and the copy either holds one too or is empty with no mod entries to add; only the copy
    * and, when there are mod entries, the game's manifest change. */
  lemma GameStartOutcome(files: map<string, ManifestFile>, gameDir: string, modPath: string, copyPath: string,
                         access: FileTools.FileAccessType)
    requires access != FileTools.NoAccess
    ensures var copied := Copied(files, gameDir, copyPath);
      var r := GameStartSpec(files, gameDir, modPath, copyPath, access);
      (r.outcome == Success <==>
        FileAt(copied, modPath).Stored? &&
        (FileAt(copied, copyPath).Stored? || (FileAt(copied, copyPath) == Empty && FileAt(copied, modPath).manifest.paks == []))) &&
      (r.outcome.Failure? ==> r.outcome.error == Unknown) &&
      (forall path :: path != copyPath && path != gameDir + CheckFileName ==> FileAt(r.files, path) == FileAt(files, path)) &&
      (r.files != copied ==> r.outcome == Success && FileAt(copied, modPath).manifest.paks != [])
  {
    var copied := Copied(files, gameDir, copyPath);
    var r := GameStartSpec(files, gameDir, modPath, copyPath, access);
    forall path | path != copyPath && path != gameDir + CheckFileName
      ensures FileAt(r.files, path) == FileAt(files, path)
    {
      assert FileAt(copied, path) == FileAt(files, path);
    }
  }

  /** With no mod entries to add, an empty copy of the game's manifest does not stop the game
    * from starting, and no manifest is rewritten. */
  lemma GameStartNothingToInject(files: map<string, ManifestFile>, gameDir: string, modPath: string, copyPath: string,
                                 access: FileTools.FileAccessType, mm: Manifest)
    requires access != FileTools.NoAccess && modPath != copyPath
    requires FileAt(files, modPath) == Stored(mm) && mm.paks == []
    requires FileAt(files, gameDir + CheckFileName) == Empty
    ensures var r := GameStartSpec(files, gameDir, modPath, copyPath, access);
      r.outcome == Success && r.files == files[copyPath := Empty]
  {
  }

  /** Without access nothing is read, copied or written. */
  lemma GameStartDenied(files: map<string, ManifestFile>, gameDir: string, modPath: string, copyPath: string)
    ensures GameStartSpec(files, gameDir, modPath, copyPath, FileTools.NoAccess) == Step(files, Failure(StoragePermissionDenied))
  {
  }

  /** With both manifests readable and mod entries to add, the game's manifest is rewritten to
    * the copied one with every mod entry listed, the copied entries still last, and its other
    * fields kept. */
  lemma GameStartInjects(files: map<string, ManifestFile>, gameDir: string, modPath: string, copyPath: string,
                         access: FileTools.FileAccessType, mm: Manifest, main: Manifest, x: Pak)
    requires access != FileTools.NoAccess && modPath != gameDir + CheckFileName && modPath != copyPath
    requires FileAt(files, gameDir + CheckFileName) == Stored(main) && FileAt(files, modPath) == Stored(mm)
    requires mm.paks != []
    ensures var r := GameStartSpec(files, gameDir, modPath, copyPath, access);
      var g := FileAt(r.files, gameDir + CheckFileName);
      r.outcome == Success && g.Stored? && g.manifest == main.(paks := g.manifest.paks) &&
      (x in g.manifest.paks <==> x in main.paks || x in mm.paks) &&
      |g.manifest.paks| >= |main.paks| &&
      g.manifest.paks[|g.manifest.paks| - |main.paks|..] == main.paks
  {
    InjectMeaning(main.paks, mm.paks, x);
  }

  /** The inner loop of `handleModDisable` for one entry: `iterator.remove()` for each mod
    * file of the same name, throwing (`None`) at the second one. */
  method RemoveMatches(name: string, modFiles: seq<string>) returns (r: Option<bool>)
    ensures var n := multiset(Map(modFiles, JavaFile.Name))[name];
      (r.None? <==> n >= 2) && (r.Some? ==> (r.value <==> n == 1))
  {
    ghost var names := Map(modFiles, JavaFile.Name);
    var removed := false;
    for j := 0 to |modFiles|
      invariant multiset(names[..j])[name] == if removed then 1 else 0
    {
      PrefixSnoc(names, j);
      if name == JavaFile.Name(modFiles[j]) {
        if removed {
          PrefixCount(names, j + 1, name);
          return None;
        }
        removed := true;
      }
    }
    assert names[..|modFiles|] == names;
    return Some(removed);
  }

  /** The loop of `handleModDisable` over the parsed manifest's entries. */
  method DisableLoop(paks: seq<Pak>, modFiles: seq<string>) returns (r: Option<seq<Pak>>)
    ensures r == DisableRun(paks, Map(modFiles, JavaFile.Name))
  {
    ghost var names := Map(modFiles, JavaFile.Name);
    var kept: seq<Pak> := [];
    for i := 0 to |paks|
      invariant DisableRun(paks[..i], names) == Some(kept)
    {
      var removed := RemoveMatches(paks[i].name, modFiles);
      if removed.None? {
        DisableRunMeaning(paks, names);
        return None;
      }
      PrefixSnoc(paks, i);
      if !removed.value {
        kept := kept + [paks[i]];
      }
    }
    assert paks[..|paks|] == paks;
    return Some(kept);
  }

  /** The loop of `handleGameStart` over the mod manifest's entries. */
  method InjectLoop(main: seq<Pak>, modPaks: seq<Pak>) returns (paks: seq<Pak>)
    ensures paks == InjectPaks(main, modPaks)
  {
    paks := main;
    for i := 0 to |modPaks|
      invariant paks == InjectPaks(main, modPaks[..i])
    {
      PrefixSnoc(modPaks, i);
      if modPaks[i] !in paks {
        paks := [modPaks[i]] + paks;
      }
    }
    assert modPaks[..|modPaks|] == modPaks;
  }

  // ---------------------------------------------------------------------------------------
  // The handler
  // ---------------------------------------------------------------------------------------

  class ProjectSnowHandler {
    /** `GAME_CHECK_FILE_PATH`, `MODS_UNZIP_PATH` and `ROOT_PATH`. */
    const checkRoot: string
    const unzipRoot: string
    const storageRoot: string
    var checkFilePath: string
    var checkFileModPath: string
    /** The manifest files on storage. */
    var files: map<string, ManifestFile>

    constructor(checkRoot: string, unzipRoot: string, storageRoot: string, files: map<string, ManifestFile>)
      ensures this.checkRoot == checkRoot && this.unzipRoot == unzipRoot && this.storageRoot == storageRoot
      ensures this.files == files && checkFilePath == "" && checkFileModPath == ""
    {
      this.checkRoot := checkRoot;
      this.unzipRoot := unzipRoot;
      this.storageRoot := storageRoot;
      this.files := files;
      checkFilePath := "";
      checkFileModPath := "";
    }

    function ModManifestPath(packageName: string): string
      reads this
    {
      checkRoot + packageName + "/" + CheckFileName
    }

    function UnZipPath(packageName: string, mod: Mod): string
      reads this
    {
      unzipRoot + packageName + "/" + JavaFile.NameWithoutExtension(mod.path) + "/"
    }

    /** `handleModEnable`. */
    method HandleModEnable(mod: Mod, packageName: string, digest: string -> Option<string>, fileSize: string -> Option<int>)
      returns (r: Outcome)
      modifies this
      ensures checkFileModPath == ModManifestPath(packageName) && checkFilePath == old(checkFilePath)
      ensures var st := EnableSpec(FileAt(old(files), checkFileModPath), ModFilePaths(mod, UnZipPath(packageName, mod)),
                                   ProbeOf(digest, fileSize));
        files == old(files)[checkFileModPath := st.0] && r == st.1
    {
      var path := checkRoot + packageName + "/" + CheckFileName;
      checkFileModPath := path;
      var unZipPath := unzipRoot + packageName + "/" + JavaFile.NameWithoutExtension(mod.path) + "/";
      var paths := ModFilePaths(mod, unZipPath);
      ghost var probe := ProbeOf(digest, fileSize);
      ghost var file := FileAt(files, path);
      ghost var baseFile: ManifestFile;
      var paks: seq<Pak>;
      if path in files && files[path].Stored? {
        paks := files[path].manifest.paks;
        baseFile := files[path];
        assert files == files[path := baseFile];
      } else if path in files && files[path] != NoFile {
        assert files == files[path := files[path]];
        return Failure(Unknown);
      } else {
        paks := [];
        baseFile := Empty;
        files := files[path := Empty];
      }
      EnableSpecIs(file, paths, probe, baseFile, paks);
      r := AppendPaks(path, paths, digest, fileSize, paks, baseFile);
      UpdateTwice(old(files), path, baseFile, EnableSpec(file, paths, probe).0);
    }

    /** The loop of `handleModEnable`: one entry appended per mod file, the manifest written
      * after each, stopping at the first file that cannot be read. */
    method AppendPaks(path: string, paths: seq<string>, digest: string -> Option<string>, fileSize: string -> Option<int>,
                      start: seq<Pak>, ghost baseFile: ManifestFile) returns (r: Outcome)
      requires path in files && files[path] == baseFile
      modifies this
      ensures checkFileModPath == old(checkFileModPath) && checkFilePath == old(checkFilePath)
      ensures var run := EnableFiles(start, paths, ProbeOf(digest, fileSize));
        files == old(files)[path := Written(baseFile, start, run.paks)] &&
        r == if run.ok then Success else Failure(Unknown)
    {
      ghost var probe := ProbeOf(digest, fileSize);
      var paks := start;
      assert files == old(files)[path := Written(baseFile, start, paks)];
      for i := 0 to |paths|
        invariant checkFileModPath == old(checkFileModPath) && checkFilePath == old(checkFilePath)
        invariant EnableFiles(start, paths[..i], probe) == EnableRun(paks, true)
        invariant |paks| >= |start|
        invariant files == old(files)[path := Written(baseFile, start, paks)]
      {
        var modFilePath := paths[i];
        PrefixSnoc(paths, i);
        var md5 := digest(modFilePath);
        var size := fileSize(modFilePath);
        if md5.None? || size.None? {
          assert probe(paths[i]).None?;
          EnablePrefixStops(start, paths, probe, i + 1);
          return Failure(Unknown);
        }
        ghost var before := paks;
        paks := paks + [NewPak(modFilePath, md5.value, size.value)];
        files := files[path := Stored(ModManifest(paks))];
        assert Written(baseFile, start, paks) == Stored(ModManifest(paks));
        UpdateTwice(old(files), path, Written(baseFile, start, before), Stored(ModManifest(paks)));
      }
      assert paths[..|paths|] == paths;
      return Success;
    }

    /** `handleModDisable`; the backup list it is given plays no part. */
    method HandleModDisable(packageName: string, mod: Mod) returns (r: Outcome)
      modifies this
      ensures checkFileModPath == ModManifestPath(packageName) && checkFilePath == old(checkFilePath)
      ensures Step(files, r) == DisableSpec(old(files), checkFileModPath, ModFileNames(mod))
    {
      checkFileModPath := checkRoot + packageName + "/" + CheckFileName;
      if !(checkFileModPath in files && files[checkFileModPath].Stored?) {
        return Failure(Unknown);
      }
      var m := files[checkFileModPath].manifest;
      var kept := DisableLoop(m.paks, mod.modFiles);
      if kept.None? {
        return Failure(Unknown);
      }
      files := files[checkFileModPath := Stored(m.(paks := kept.value))];
      return Success;
    }

    /** `handleGameStart`; the forty seconds of repeated writing are one write here. */
    method HandleGameStart(game: Game, accessType: string -> FileTools.FileAccessType) returns (r: Outcome)
      modifies this
      ensures checkFileModPath == ModManifestPath(game.packageName)
      ensures checkFilePath == storageRoot + "/Android/data/" + game.packageName + "/files/"
      ensures Step(files, r) ==
        GameStartSpec(old(files), checkFilePath, checkFileModPath, unzipRoot + CheckFileName, accessType(checkFilePath))
    {
      checkFileModPath := checkRoot + game.packageName + "/" + CheckFileName;
      checkFilePath := storageRoot + "/Android/data/" + game.packageName + "/files/";
      var access := accessType(checkFilePath);
      if access == FileTools.NoAccess {
        return Failure(StoragePermissionDenied);
      }
      var gameManifest := checkFilePath + CheckFileName;
      var copyPath := unzipRoot + CheckFileName;
      if gameManifest in files && files[gameManifest] != NoFile {
        files := files[copyPath := files[gameManifest]];
      }
      if !(checkFileModPath in files && files[checkFileModPath].Stored?) {
        return Failure(Unknown);
      }
      var modPaks := files[checkFileModPath].manifest.paks;
      if !(copyPath in files && (files[copyPath].Stored? || files[copyPath] == Empty)) {
        return Failure(Unknown);
      }
      var mainIFest := if files[copyPath].Stored? then Some(files[copyPath].manifest) else None;
      if modPaks == [] {
        return Success;
      }
      if mainIFest.None? {
        return Failure(Unknown);
      }
      var paks := InjectLoop(mainIFest.value.paks, modPaks);
      files := files[gameManifest := Stored(mainIFest.value.(paks := paks))];
      return Success;
    }
  }

  /** Once the loop stops it stays stopped. */
  lemma {:induction false} EnableStoppedStays(start: seq<Pak>, paths: seq<string>, probe: string -> Option<Pak>, n: nat)
    requires n <= |paths| && !EnableFiles(start, paths[..n], probe).ok
    ensures EnableFiles(start, paths, probe) == EnableFiles(start, paths[..n], probe)
    decreases |paths| - n
  {
    if n < |paths| {
      PrefixSnoc(paths, n);
      EnableStoppedStays(start, paths, probe, n + 1);
    } else {
      assert paths[..n] == paths;
    }
  }

  /** A file that cannot be read after a run of readable ones stops the loop there. */
  lemma EnablePrefixStops(start: seq<Pak>, paths: seq<string>, probe: string -> Option<Pak>, n: nat)
    requires 1 <= n <= |paths| && probe(paths[n - 1]).None?
    requires EnableFiles(start, paths[..n - 1], probe).ok
    ensures EnableFiles(start, paths, probe) == EnableRun(EnableFiles(start, paths[..n - 1], probe).paks, false)
  {
    PrefixSnoc(paths, n - 1);
    EnableStoppedStays(start, paths, probe, n);
  }

  lemma UpdateTwice<K, V>(m: map<K, V>, k: K, a: V, b: V)
    ensures m[k := a][k := b] == m[k := b]
  {
  }

  /** A prefix holds an element no more often than the whole sequence. */
  lemma PrefixCount(names: seq<string>, n: nat, x: string)
    requires n <= |names|
    ensures multiset(names[..n])[x] <= multiset(names)[x]
  {
    assert names == names[..n] + names[n..];
  }
}
