/**
 * `ModernModBrowserViewModel`: the mods shown for a browsed directory, the path filters, the
 * display-mode switch and the scroll-position cache. The saved display mode stands for the
 * preference the view model writes; the game's full mod path is a parameter.
 */
module ModBrowser {
  import opened Wrappers
  import opened Lists
  import opened Strings
  import opened DomainMod
  import JavaFile
  import ModList

  /** `groupingBy(key).eachCount()[k]`: how many elements carry key `k`. */
  function Count<T, K(==)>(s: seq<T>, key: T -> K, k: K): nat
  {
    if s == [] then 0 else Count(s[..|s| - 1], key, k) + (if key(s[|s| - 1]) == k then 1 else 0)
  }

  /** `filterOnlyUniqueBy`: the elements whose key no other element carries, in order. */
  function FilterOnlyUniqueBy<T(!new), K(==)>(s: seq<T>, key: T -> K): seq<T>
  {
    Filter(s, (x: T) => Count(s, key, key(x)) == 1)
  }

  /** A filter that only looks at the key keeps all elements of the keys it accepts and none of
    * the others. */
  lemma {:induction false} CountFilterByKey<T(!new), K>(s: seq<T>, key: T -> K, q: K -> bool, p: T -> bool, k: K)
    requires forall x :: p(x) == q(key(x))
    ensures Count(Filter(s, p), key, k) == if q(k) then Count(s, key, k) else 0
  {
    if s != [] {
      var front := s[..|s| - 1];
      var last := s[|s| - 1];
      CountFilterByKey(front, key, q, p, k);
      if p(last) {
        assert Filter(s, p)[..|Filter(s, p)| - 1] == Filter(front, p);
      }
    }
  }

  /** An element is kept exactly when its key occurs once, and then it is the only element of
    * the result with that key; keys occurring more than once vanish altogether. */
  lemma FilterOnlyUniqueMeaning<T(!new), K>(s: seq<T>, key: T -> K, x: T, k: K)
    ensures x in FilterOnlyUniqueBy(s, key) <==> x in s && Count(s, key, key(x)) == 1
    ensures Count(FilterOnlyUniqueBy(s, key), key, k) == if Count(s, key, k) == 1 then 1 else 0
  {
    CountFilterByKey(s, key, (j: K) => Count(s, key, j) == 1, (y: T) => Count(s, key, key(y)) == 1, k);
  }

  // ---------------------------------------------------------------------------------------
  // Path filters
  // ---------------------------------------------------------------------------------------

  function ModPath(m: Mod): string { m.path }

  /** `getModsByPathStrict`. */
  function ModsByPathStrict(path: string, allMods: seq<Mod>): seq<Mod>
  {
    Filter(allMods, (m: Mod) => m.path == path)
  }

  /** `getModsByPath`: `path + separator` occurs somewhere in the mod's path. */
  function ModsByPath(path: string, allMods: seq<Mod>): seq<Mod>
  {
    Filter(allMods, (m: Mod) => Contains(m.path, path + "/"))
  }

  /** `getModsByVirtualPathsStrict`. */
  function ModsByVirtualPathsStrict(path: string, allMods: seq<Mod>): seq<Mod>
  {
    Filter(allMods, (m: Mod) => m.virtualPaths == Some(path))
  }

  /** `getModsByVirtualPaths`. */
  function ModsByVirtualPaths(path: string, allMods: seq<Mod>): seq<Mod>
  {
    Filter(allMods, (m: Mod) => m.virtualPaths.Some? && Contains(m.virtualPaths.value, path + "/"))
  }

  lemma ContainsPrefix(s: string, p: string)
    requires StartsWith(s, p)
    ensures Contains(s, p)
  {
    assert OccursAt(s, p, 0);
  }

  lemma NotContainsLonger(s: string, p: string)
    requires |p| > |s|
    ensures !Contains(s, p)
  {
  }

  /** The strict filters select by equality, the others by containment of `path/`, so a mod
    * strictly at `path` is never among the latter, and one below `path/` always is. */
  lemma PathFiltersMeaning(path: string, allMods: seq<Mod>, m: Mod, rest: string)
    ensures m in ModsByPathStrict(path, allMods) <==> m in allMods && m.path == path
    ensures m in ModsByPath(path, allMods) <==> m in allMods && Contains(m.path, path + "/")
    ensures m in ModsByVirtualPathsStrict(path, allMods) <==> m in allMods && m.virtualPaths == Some(path)
    ensures m in ModsByVirtualPaths(path, allMods) <==>
      m in allMods && m.virtualPaths.Some? && Contains(m.virtualPaths.value, path + "/")
    ensures m in ModsByPathStrict(path, allMods) ==> m !in ModsByPath(path, allMods)
    ensures m in ModsByVirtualPathsStrict(path, allMods) ==> m !in ModsByVirtualPaths(path, allMods)
    ensures m in allMods && m.path == path + "/" + rest ==> m in ModsByPath(path, allMods)
  {
    NotContainsLonger(path, path + "/");
    if m.path == path + "/" + rest {
      ContainsPrefix(m.path, path + "/");
    }
  }

  // ---------------------------------------------------------------------------------------
  // The mods of a browsed directory
  // ---------------------------------------------------------------------------------------

  /** The parent directory of the mod's real path is the (slash-trimmed) browsed path. */
  predicate InDirByPath(dir: string, m: Mod)
  {
    JavaFile.Parent(m.path) == Some(dir)
  }

  /** The same for the mod's virtual path, an absent one counting as "". */
  predicate InDirByVirtualPath(dir: string, m: Mod)
  {
    JavaFile.Parent(m.virtualPaths.GetOr("")) == Some(dir)
  }

  function ByPathMods(allMods: seq<Mod>, dir: string): seq<Mod>
  {
    FilterOnlyUniqueBy(Filter(allMods, (m: Mod) => InDirByPath(dir, m)), ModPath)
  }

  function ByVirtualPathMods(allMods: seq<Mod>, dir: string): seq<Mod>
  {
    Filter(allMods, (m: Mod) => InDirByVirtualPath(dir, m))
  }

  /** The mods `setCurrentBrowsingPath` shows. */
  function CurrentMods(allMods: seq<Mod>, path: string): seq<Mod>
  {
    var dir := TrimEnd(path, '/');
    var byPath := ByPathMods(allMods, dir);
    if byPath == [] then ByVirtualPathMods(allMods, dir) else byPath
  }

  /** The mods directly in the directory whose path no other mod there shares, or, only when
    * there are none, the mods whose virtual path is directly in it. */
  lemma CurrentModsMeaning(allMods: seq<Mod>, path: string, m: Mod)
    ensures var dir := TrimEnd(path, '/');
      var inDir := Filter(allMods, (x: Mod) => InDirByPath(dir, x));
      var byPath := ByPathMods(allMods, dir);
      (m in byPath <==> m in allMods && InDirByPath(dir, m) && Count(inDir, ModPath, m.path) == 1) &&
      (byPath != [] ==> CurrentMods(allMods, path) == byPath) &&
      (byPath == [] ==> (m in CurrentMods(allMods, path) <==> m in allMods && InDirByVirtualPath(dir, m)))
  {
    var dir := TrimEnd(path, '/');
    var inDir := Filter(allMods, (x: Mod) => InDirByPath(dir, x));
    FilterOnlyUniqueMeaning(inDir, ModPath, m, m.path);
  }

  /** Trailing slashes on the browsed path make no difference. */
  lemma TrailingSlashIgnored(allMods: seq<Mod>, path: string)
    ensures CurrentMods(allMods, path + "/") == CurrentMods(allMods, path)
  {
    assert (path + "/")[..|path + "/"| - 1] == path;
  }

  /** The saved display mode after `toggleDisplayMode`: grid (1) becomes list (0), anything
    * else becomes grid. */
  function ToggledMode(displayMode: int): int
  {
    if displayMode == 1 then 0 else 1
  }

  /** The toggle flips the grid view, always saves 0 or 1, and undoes itself on those. */
  lemma ToggleDisplayModeMeaning(displayMode: int)
    ensures ToggledMode(displayMode) == 0 || ToggledMode(displayMode) == 1
    ensures (ToggledMode(displayMode) == 1) == (displayMode != 1)
    ensures displayMode == 0 || displayMode == 1 ==> ToggledMode(ToggledMode(displayMode)) == displayMode
  {
  }

  /** What the screen is shown. */
  datatype ModBrowserUiState = ModBrowserUiState(
    currentGameModPath: string,
    allMods: seq<Mod>,
    showCategory: bool,
    isGridView: bool,
    currentBrowsingPath: string,
    currentMods: seq<Mod>)

  class ModBrowserViewModel {
    var showCategory: bool
    var currentBrowsingPath: Option<string>
    var currentMods: seq<Mod>
    /** The list/grid preference the view model saves. */
    var displayMode: int
    var scrollStates: map<string, (int, int)>

    constructor(displayMode: int)
      ensures this.displayMode == displayMode && currentBrowsingPath == None && currentMods == []
      ensures scrollStates == map[] && !showCategory
    {
      showCategory := false;
      currentBrowsingPath := None;
      currentMods := [];
      this.displayMode := displayMode;
      scrollStates := map[];
    }

    /** The combined state: the browsed path defaults to the game's full mod path. */
    function UiState(allMods: seq<Mod>, fullModPath: string): (u: ModBrowserUiState)
      reads this
      ensures u.isGridView <==> displayMode == 1
      ensures currentBrowsingPath.None? ==> u.currentBrowsingPath == fullModPath
      ensures currentBrowsingPath.Some? ==> u.currentBrowsingPath == currentBrowsingPath.value
    {
      ModBrowserUiState(fullModPath, allMods, showCategory, displayMode == 1,
                        currentBrowsingPath.GetOr(fullModPath), currentMods)
    }

    /** `setCurrentBrowsingPath`, over the mods the combined state currently holds. */
    method SetCurrentBrowsingPath(path: string, allMods: seq<Mod>)
      modifies this
      ensures currentBrowsingPath == Some(path) && currentMods == CurrentMods(allMods, path)
      ensures showCategory == old(showCategory) && displayMode == old(displayMode) && scrollStates == old(scrollStates)
    {
      currentBrowsingPath := Some(path);
      var dir := TrimEnd(path, '/');
      var currentPathModsByPath := FilterOnlyUniqueBy(Filter(allMods, (m: Mod) => InDirByPath(dir, m)), ModPath);
      var currentPathModsByVirtualPath := Filter(allMods, (m: Mod) => InDirByVirtualPath(dir, m));
      var currentPathMods := if currentPathModsByPath == [] then currentPathModsByVirtualPath else currentPathModsByPath;
      SetCurrentMods(currentPathMods);
    }

    method ToggleDisplayMode()
      modifies this
      ensures displayMode == ToggledMode(old(displayMode))
      ensures showCategory == old(showCategory) && currentBrowsingPath == old(currentBrowsingPath)
      ensures currentMods == old(currentMods) && scrollStates == old(scrollStates)
    {
      var currentMode := displayMode == 1;
      displayMode := if currentMode then 0 else 1;
    }

    method SaveScrollState(path: string, index: int, offset: int)
      modifies this
      ensures scrollStates == old(scrollStates)[path := (index, offset)]
      ensures showCategory == old(showCategory) && currentBrowsingPath == old(currentBrowsingPath)
      ensures currentMods == old(currentMods) && displayMode == old(displayMode)
    {
      scrollStates := scrollStates[path := (index, offset)];
    }

    /** `getScrollState`: the last position saved for the path, or (0, 0). */
    method GetScrollState(path: string) returns (r: (int, int))
      ensures path in scrollStates ==> r == scrollStates[path]
      ensures path !in scrollStates ==> r == (0, 0)
    {
      r := ModList.ScrollLookup(scrollStates, path);
    }

    method SetCurrentMods(mods: seq<Mod>)
      modifies this
      ensures currentMods == mods
      ensures showCategory == old(showCategory) && currentBrowsingPath == old(currentBrowsingPath)
      ensures displayMode == old(displayMode) && scrollStates == old(scrollStates)
    {
      currentMods := mods;
    }
  }
}
