/**
 * The validation and path rewriting of a game configuration: `CheckGameConfigUserCase.invoke`
 * and the repository's `checkGameConfig`, which apply the same rules in the same order, the
 * former with an extra package-name test. A thrown exception is an `Err` naming the check.
 */
module GameConfig {
  import opened Wrappers
  import opened Lists
  import opened Strings
  import opened GameInfo

  /** The checks, in the order they are made. */
  datatype ConfigError =
    | EmptyGameName
    | EmptyPackageName
    | InvalidPackageName
    | EmptyGamePath
    | EmptyModType
    | EmptyGameFilePath
    | EmptyServiceName
    | SizeMismatch

  predicate IsIdentStart(c: char)
  {
    'a' <= c <= 'z' || 'A' <= c <= 'Z' || c == '_'
  }

  predicate IsIdentChar(c: char)
  {
    IsIdentStart(c) || '0' <= c <= '9'
  }

  /** `[a-zA-Z_][a-zA-Z0-9_]*`. A run of these with nothing between them is again one. */
  predicate IsIdentifier(w: string)
  {
    w != [] && IsIdentStart(w[0]) && forall i :: 1 <= i < |w| ==> IsIdentChar(w[i])
  }

  /** `([a-zA-Z_][a-zA-Z0-9_]*)+([.][a-zA-Z_][a-zA-Z0-9_]*)+`: two or more identifiers joined
    * by '.'. */
  predicate IsPackageName(p: string)
  {
    var parts := Split(p, '.');
    |parts| >= 2 && forall i :: 0 <= i < |parts| ==> IsIdentifier(parts[i])
  }

  /** `Regex(".. +$\n").matches(s)` as `invoke` writes it: the pattern is followed by the anchor
    * `$`, which Java lets match just before a final line terminator, and then by a literal
    * newline; so the whole input must be a package name and one "\n". */
  predicate RegexMatchesAsWritten(s: string)
  {
    |s| >= 1 && s[|s| - 1] == '\n' && IsPackageName(s[..|s| - 1])
  }

  /** Which package-name test a validation makes. */
  datatype NameCheck = NoNameCheck | RegexAsWritten | PackageNamePattern

  /** Whether the test throws for `pkg`: `invoke` as written throws when its regex MATCHES;
    * the intended test throws when the name is not a package name. */
  predicate NameRejected(check: NameCheck, pkg: string)
  {
    match check
    case NoNameCheck => false
    case RegexAsWritten => RegexMatchesAsWritten(pkg)
    case PackageNamePattern => !IsPackageName(pkg)
  }

  /** The game's data directory under the storage root. */
  function DataDir(root: string, pkg: string): string
  {
    root + "/Android/data/" + pkg + "/"
  }

  /** A configured game directory under the storage root: `"$root/$p/".replace("//", "/")`. */
  function GameFileDir(root: string, p: string): string
  {
    CollapseOnce(root + "/" + p + "/")
  }

  function GameFileDirs(root: string, ps: seq<string>): seq<string>
  {
    Map(ps, (p: string) => GameFileDir(root, p))
  }

  /** The copy a successful validation returns: the data directory derived from the package
    * name, the anti-harmony file and every game directory put under the root. */
  function Rewritten(g: Game, root: string): Game
  {
    var g1 := g.(gamePath := DataDir(root, g.packageName));
    var g2 := if g.antiHarmonyFile != [] then g1.(antiHarmonyFile := CollapseOnce(root + "/" + g.antiHarmonyFile)) else g1;
    g2.(gameFilePath := GameFileDirs(root, g.gameFilePath))
  }

  /** The validation with the given package-name test. */
  function Validate(g: Game, root: string, check: NameCheck): Result<Game, ConfigError>
  {
    if g.gameName == [] then Err(EmptyGameName)
    else if g.packageName == [] then Err(EmptyPackageName)
    else if NameRejected(check, g.packageName) then Err(InvalidPackageName)
    else if g.gamePath == [] then Err(EmptyGamePath)
    else if g.modType == [] then Err(EmptyModType)
    else if g.gameFilePath == [] then Err(EmptyGameFilePath)
    else if g.serviceName == [] then Err(EmptyServiceName)
    else if |g.gameFilePath| != |g.modType| then Err(SizeMismatch)
    else Ok(Rewritten(g, root))
  }

  /** `CheckGameConfigUserCase.invoke`, with the package-name test it evidently intends. */
  function Invoke(g: Game, root: string): Result<Game, ConfigError>
  {
    Validate(g, root, PackageNamePattern)
  }

  /** `CheckGameConfigUserCase.invoke` as written. */
  function InvokeAsWritten(g: Game, root: string): Result<Game, ConfigError>
  {
    Validate(g, root, RegexAsWritten)
  }

  // ---------------------------------------------------------------------------------------
  // Properties
  // ---------------------------------------------------------------------------------------

  /** The position of each check in the order of the source. */
  function Rank(e: ConfigError): nat
  {
    match e
    case EmptyGameName => 0
    case EmptyPackageName => 1
    case InvalidPackageName => 2
    case EmptyGamePath => 3
    case EmptyModType => 4
    case EmptyGameFilePath => 5
    case EmptyServiceName => 6
    case SizeMismatch => 7
  }

  /** The condition each check throws on, on its own. */
  predicate Fails(g: Game, check: NameCheck, e: ConfigError)
  {
    match e
    case EmptyGameName => g.gameName == []
    case EmptyPackageName => g.packageName == []
    case InvalidPackageName => NameRejected(check, g.packageName)
    case EmptyGamePath => g.gamePath == []
    case EmptyModType => g.modType == []
    case EmptyGameFilePath => g.gameFilePath == []
    case EmptyServiceName => g.serviceName == []
    case SizeMismatch => |g.gameFilePath| != |g.modType|
  }

  /** A validation fails exactly when some check fails, and then reports the earliest one. */
  lemma ValidateFirstFailure(g: Game, root: string, check: NameCheck)
    ensures var r := Validate(g, root, check);
      (r.Err? <==> exists e :: Fails(g, check, e)) &&
      (r.Err? ==> Fails(g, check, r.error) && forall e :: Rank(e) < Rank(r.error) ==> !Fails(g, check, e))
  {
    var r := Validate(g, root, check);
    if r.Ok? {
      forall e ensures !Fails(g, check, e) {
        match e
        case EmptyGameName =>
        case EmptyPackageName =>
        case InvalidPackageName =>
        case EmptyGamePath =>
        case EmptyModType =>
        case EmptyGameFilePath =>
        case EmptyServiceName =>
        case SizeMismatch =>
      }
    } else {
      assert Fails(g, check, r.error);
    }
  }

  /** A validated copy: the data directory follows the package name, the game directories keep
    * their number and order and match the content kinds one for one, the anti-harmony file is
    * put under the root when set, and nothing else changes. */
  lemma ValidatedCopy(g: Game, root: string, check: NameCheck)
    requires Validate(g, root, check).Ok?
    ensures var r := Validate(g, root, check).value;
      r.gamePath == DataDir(root, g.packageName) &&
      |r.gameFilePath| == |g.gameFilePath| == |r.modType| &&
      (forall i :: 0 <= i < |g.gameFilePath| ==> r.gameFilePath[i] == GameFileDir(root, g.gameFilePath[i])) &&
      r.antiHarmonyFile == (if g.antiHarmonyFile == [] then [] else CollapseOnce(root + "/" + g.antiHarmonyFile)) &&
      r.(gamePath := g.gamePath, antiHarmonyFile := g.antiHarmonyFile, gameFilePath := g.gameFilePath) == g
  {
  }

  /** The configured `gamePath` only matters for being empty: any other non-empty value gives
    * the same result. */
  lemma GamePathOnlyChecked(g: Game, root: string, check: NameCheck, other: string)
    requires g.gamePath != [] && other != []
    ensures Validate(g.(gamePath := other), root, check) == Validate(g, root, check)
  {
  }

  /** A game directory gets no "//" unless the joined path had three slashes in a row. */
  lemma GameFileDirNoDoubleSlash(root: string, p: string)
    requires !HasTripleSlash(root + "/" + p + "/")
    ensures !HasDoubleSlash(GameFileDir(root, p))
  {
    CollapseOnceLeavesTriples(root + "/" + p + "/");
  }

  /** The repository's `checkGameConfig` (no name test) and `invoke` agree on every
    * configuration except those whose package name the latter's test rejects. */
  lemma ChecksAgree(g: Game, root: string, check: NameCheck)
    ensures Validate(g, root, check) != Err(InvalidPackageName) ==>
      Validate(g, root, NoNameCheck) == Validate(g, root, check)
    ensures Validate(g, root, NoNameCheck) != Err(InvalidPackageName)
  {
  }

  /** The regex as written never rejects a name without a newline in it. */
  lemma RegexNeedsNewline(s: string)
    requires '\n' !in s
    ensures !RegexMatchesAsWritten(s)
  {
    if |s| >= 1 {
      assert s[|s| - 1] in s;
    }
  }

  lemma SplitTwo(a: string, b: string)
    requires '.' !in a && '.' !in b
    ensures Split(a + "." + b, '.') == [a, b]
  {
    LastIndexAfter(a, '.', b);
    var s := a + "." + b;
    assert s[..|a|] == a && s[|a| + 1..] == b;
    NoCharLastIndex(a, '.');
  }

  /** The test as written throws for a valid name followed by a newline, and lets a name that
    * is not a package name through. */
  lemma RegexAsWrittenExample()
    ensures NameRejected(RegexAsWritten, "com.example\n")
    ensures !NameRejected(RegexAsWritten, "not a package")
  {
    SplitTwo("com", "example");
    assert "com.example\n"[..11] == "com" + "." + "example";
    RegexNeedsNewline("not a package");
  }

  /** The intended test lets "com.example" through and throws for "not a package". */
  lemma PackageNamePatternExample()
    ensures !NameRejected(PackageNamePattern, "com.example")
    ensures NameRejected(PackageNamePattern, "not a package")
  {
    SplitTwo("com", "example");
    assert "com.example" == "com" + "." + "example";
    assert IsIdentifier("com") && IsIdentifier("example");
    NoCharLastIndex("not a package", '.');
    assert Split("not a package", '.') == ["not a package"];
  }
}
