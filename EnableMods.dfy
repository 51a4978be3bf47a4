/**
 * `EnableModsUseCase`: batch enabling and disabling of mods. Before enabling, the candidates
 * are checked for path conflicts among themselves and with the mods already enabled; then
 * each mod is validated, its game files backed up and the mod enabled, and every mod that
 * fails lands in exactly one failure list. A cancel request is honoured only after a mod has
 * been enabled or disabled successfully.
 *
 * Repositories and services are parameters: `Services` holds their answers per mod.
 */
module EnableMods {
  import opened Wrappers
  import opened Lists
  import opened DomainMod
  import opened GameInfo

  // ---------------------------------------------------------------------------------------
  // The path index `gameFilePath -> mods`
  // ---------------------------------------------------------------------------------------

  /** One `(mod, path)` pair visited by `for (mod in mods) for (path in mod.gameFilesPath)`. */
  type Entry = (Mod, string)

  function PathOf(e: Entry): string
  {
    e.1
  }

  /** The pairs of one mod, in the order of its paths. */
  function Pairs(m: Mod, paths: seq<string>): seq<Entry>
  {
    if paths == [] then [] else Pairs(m, paths[..|paths| - 1]) + [(m, paths[|paths| - 1])]
  }

  /** The flattened `(mod, path)` list of `mods`, mod by mod. */
  function Entries(mods: seq<Mod>): seq<Entry>
  {
    if mods == [] then []
    else Entries(mods[..|mods| - 1]) + Pairs(mods[|mods| - 1], mods[|mods| - 1].gameFilesPath)
  }

  /** The list `pathToMods[p]` built from `es`: one copy of a mod per pair naming `p`. */
  function ModsAt(es: seq<Entry>, p: string): seq<Mod>
  {
    if es == [] then []
    else ModsAt(es[..|es| - 1], p) + (if es[|es| - 1].1 == p then [es[|es| - 1].0] else [])
  }

  lemma {:induction false} PairsMember(m: Mod, paths: seq<string>, e: Entry)
    ensures e in Pairs(m, paths) <==> e.0 == m && e.1 in paths
  {
    if paths != [] {
      var front := paths[..|paths| - 1];
      PairsMember(m, front, e);
      assert paths == front + [paths[|paths| - 1]];
    }
  }

  /** A pair is listed exactly when its mod is one of `mods` and lists its path. */
  lemma {:induction false} EntriesMember(mods: seq<Mod>, e: Entry)
    ensures e in Entries(mods) <==> e.0 in mods && e.1 in e.0.gameFilesPath
  {
    if mods != [] {
      var front := mods[..|mods| - 1];
      var last := mods[|mods| - 1];
      EntriesMember(front, e);
      PairsMember(last, last.gameFilesPath, e);
      assert mods == front + [last];
    }
  }

  /** `pathToMods[p]` holds a mod exactly when the pair is listed. */
  lemma {:induction false} ModsAtMember(es: seq<Entry>, p: string, m: Mod)
    ensures m in ModsAt(es, p) <==> (m, p) in es
  {
    if es != [] {
      var front := es[..|es| - 1];
      ModsAtMember(front, p, m);
      assert es == front + [es[|es| - 1]];
    }
  }

  /** The keys are exactly the paths with mods. */
  lemma ModsAtKey(es: seq<Entry>, p: string)
    ensures ModsAt(es, p) != [] <==> p in KeysInOrder(es, PathOf)
  {
    if ModsAt(es, p) != [] {
      ModsAtMember(es, p, ModsAt(es, p)[0]);
      assert PathOf((ModsAt(es, p)[0], p)) == p;
    }
    if p in KeysInOrder(es, PathOf) {
      var e :| e in es && PathOf(e) == p;
      ModsAtMember(es, p, e.0);
    }
  }

  /** `index` and its insertion-ordered `keys` are the `getOrPut(path).add(mod)` map of `es`. */
  ghost predicate IsIndex(es: seq<Entry>, index: map<string, seq<Mod>>, keys: seq<string>)
  {
    keys == KeysInOrder(es, PathOf)
    && (forall p :: p in index <==> p in keys)
    && forall p :: p in index ==> index[p] == ModsAt(es, p)
  }

  /** One `getOrPut(path).add(mod)` step keeps the index in step with the pairs. */
  method AddEntry(ghost es: seq<Entry>, index: map<string, seq<Mod>>, keys: seq<string>, m: Mod, p: string)
    returns (index': map<string, seq<Mod>>, keys': seq<string>)
    requires IsIndex(es, index, keys)
    ensures IsIndex(es + [(m, p)], index', keys')
  {
    ghost var es' := es + [(m, p)];
    assert es'[..|es|] == es;
    assert KeysInOrder(es', PathOf) == if p in keys then keys else keys + [p];
    assert forall q :: ModsAt(es', q) == ModsAt(es, q) + (if q == p then [m] else []);
    if p in index {
      index', keys' := index[p := index[p] + [m]], keys;
    } else {
      ModsAtKey(es, p);
      index', keys' := index[p := [m]], keys + [p];
    }
  }

  /** The loop `for (mod in mods) for (path in mod.gameFilesPath) pathToMods.getOrPut(path)
    * { mutableListOf() }.add(mod)` that both detectors start with. */
  method BuildIndex(mods: seq<Mod>) returns (index: map<string, seq<Mod>>, keys: seq<string>)
    ensures IsIndex(Entries(mods), index, keys)
  {
    index, keys := map[], [];
    for i := 0 to |mods|
      invariant IsIndex(Entries(mods[..i]), index, keys)
    {
      var m := mods[i];
      ghost var before := Entries(mods[..i]);
      assert before + Pairs(m, m.gameFilesPath[..0]) == before;
      for j := 0 to |m.gameFilesPath|
        invariant IsIndex(before + Pairs(m, m.gameFilesPath[..j]), index, keys)
      {
        var p := m.gameFilesPath[j];
        index, keys := AddEntry(before + Pairs(m, m.gameFilesPath[..j]), index, keys, m, p);
        PairsStep(before, m, j);
      }
      assert m.gameFilesPath[..|m.gameFilesPath|] == m.gameFilesPath;
      assert mods[..i + 1][..i] == mods[..i];
    }
    assert mods[..|mods|] == mods;
  }

  lemma PairsStep(before: seq<Entry>, m: Mod, j: nat)
    requires j < |m.gameFilesPath|
    ensures before + Pairs(m, m.gameFilesPath[..j + 1])
      == (before + Pairs(m, m.gameFilesPath[..j])) + [(m, m.gameFilesPath[j])]
  {
    PrefixSnoc(m.gameFilesPath, j);
  }

  // ---------------------------------------------------------------------------------------
  // Conflict detection
  // ---------------------------------------------------------------------------------------

  /** `pathToMods[k]` when it has more than `min` mods, else nothing. */
  function Listed(es: seq<Entry>, min: nat, k: string): seq<Mod>
  {
    if |ModsAt(es, k)| > min then ModsAt(es, k) else []
  }

  /** The set `acc` after `addAll(pathToMods[k])` for each key `k` of `ks`, in order, whose
    * list has more than `min` mods. */
  function Gather(acc: seq<Mod>, es: seq<Entry>, ks: seq<string>, min: nat): seq<Mod>
  {
    Collect(acc, ks, (k: string) => Listed(es, min, k))
  }

  /** Some key among `ks` has more than `min` mods, `x` among them. */
  predicate Gathered(es: seq<Entry>, ks: seq<string>, min: nat, x: Mod)
  {
    exists j :: 0 <= j < |ks| && x in Listed(es, min, ks[j])
  }

  lemma GatherMember(acc: seq<Mod>, es: seq<Entry>, ks: seq<string>, min: nat, x: Mod)
    ensures x in Gather(acc, es, ks, min) <==> x in acc || Gathered(es, ks, min, x)
  {
    CollectMember(acc, ks, (k: string) => Listed(es, min, k), x);
  }

  lemma GatherDistinct(acc: seq<Mod>, es: seq<Entry>, ks: seq<string>, min: nat)
    requires Distinct(acc)
    ensures Distinct(Gather(acc, es, ks, min))
  {
    CollectDistinct(acc, ks, (k: string) => Listed(es, min, k));
  }

  /** `detectMutualConflicts`: with at most one mod, nothing conflicts; otherwise the mods
    * listed under any path used more than once, and the other mods in input order. */
  function MutualConflicts(mods: seq<Mod>): (seq<Mod>, seq<Mod>)
  {
    if |mods| <= 1 then ([], mods)
    else
      var es := Entries(mods);
      var conflict := Gather([], es, KeysInOrder(es, PathOf), 1);
      (conflict, Without(mods, conflict))
  }

  /** `mods.filter { it !in conflictMods }`. */
  function Without(mods: seq<Mod>, conflict: seq<Mod>): seq<Mod>
  {
    Filter(mods, (m: Mod) => m !in conflict)
  }

  /** A path of `m` appears more than once in the flattened `(mod, path)` list. */
  predicate SharesPath(mods: seq<Mod>, m: Mod)
  {
    exists p :: p in m.gameFilesPath && |ModsAt(Entries(mods), p)| > 1
  }

  /** The meaning of `detectMutualConflicts` for one mod: from two mods up, it conflicts exactly
    * when one of its paths is used twice (by another mod, an equal copy, or itself listing the
    * path twice); the others are kept. */
  lemma MutualConflictMember(mods: seq<Mod>, m: Mod)
    requires |mods| > 1
    ensures m in MutualConflicts(mods).0 <==> m in mods && SharesPath(mods, m)
    ensures m in MutualConflicts(mods).1 <==> m in mods && !SharesPath(mods, m)
  {
    var es := Entries(mods);
    var keys := KeysInOrder(es, PathOf);
    GatherMember([], es, keys, 1, m);
    if Gathered(es, keys, 1, m) {
      var j :| 0 <= j < |keys| && m in Listed(es, 1, keys[j]);
      ModsAtMember(es, keys[j], m);
      EntriesMember(mods, (m, keys[j]));
    }
    if m in mods && SharesPath(mods, m) {
      var p :| p in m.gameFilesPath && |ModsAt(es, p)| > 1;
      EntriesMember(mods, (m, p));
      assert (m, p) in es && PathOf((m, p)) == p;
      assert p in keys;
      var j :| 0 <= j < |keys| && keys[j] == p;
      ModsAtMember(es, p, m);
      assert m in Listed(es, 1, keys[j]);
    }
  }

  /** The shape of `detectMutualConflicts`: nothing conflicts among fewer than two mods, each
    * conflict is reported once, and the rest is the input minus the conflicts, in order. */
  lemma MutualConflictsShape(mods: seq<Mod>)
    ensures |mods| <= 1 ==> MutualConflicts(mods) == ([], mods)
    ensures Distinct(MutualConflicts(mods).0)
    ensures MutualConflicts(mods).1 == Without(mods, MutualConflicts(mods).0)
  {
    if |mods| > 1 {
      var es := Entries(mods);
      GatherDistinct([], es, KeysInOrder(es, PathOf), 1);
    }
  }

  /** Two different mods touching one path both conflict. */
  lemma SharedPathConflicts(mods: seq<Mod>, a: Mod, b: Mod, p: string)
    requires a in mods && b in mods && a != b
    requires p in a.gameFilesPath && p in b.gameFilesPath
    ensures a in MutualConflicts(mods).0 && b in MutualConflicts(mods).0
  {
    var i :| 0 <= i < |mods| && mods[i] == a;
    var j :| 0 <= j < |mods| && mods[j] == b;
    assert i != j;
    var es := Entries(mods);
    var at := ModsAt(es, p);
    EntriesMember(mods, (a, p));
    EntriesMember(mods, (b, p));
    ModsAtMember(es, p, a);
    ModsAtMember(es, p, b);
    var k :| 0 <= k < |at| && at[k] == a;
    var l :| 0 <= l < |at| && at[l] == b;
    assert k != l;
    MutualConflictMember(mods, a);
    MutualConflictMember(mods, b);
  }

  /** `detectMutualConflicts`, following the source's two loops. */
  method DetectMutualConflicts(mods: seq<Mod>) returns (conflict: seq<Mod>, noConflict: seq<Mod>)
    ensures (conflict, noConflict) == MutualConflicts(mods)
  {
    if |mods| <= 1 {
      return [], mods;
    }
    var index, keys := BuildIndex(mods);
    ghost var es := Entries(mods);
    conflict := [];
    for i := 0 to |keys|
      invariant conflict == Gather([], es, keys[..i], 1)
    {
      var modsForPath := index[keys[i]];
      PrefixSnoc(keys, i);
      if |modsForPath| > 1 {
        conflict := AddAll(conflict, modsForPath);
      }
    }
    assert keys[..|keys|] == keys;
    noConflict := Without(mods, conflict);
  }

  /** No path of `m` is used by any mod of `es`. */
  predicate Free(es: seq<Entry>, m: Mod)
  {
    !AnyUsed(es, m.gameFilesPath)
  }

  /** Some path of `ps` is used by a mod of `es`. */
  predicate AnyUsed(es: seq<Entry>, ps: seq<string>)
  {
    exists k :: 0 <= k < |ps| && ModsAt(es, ps[k]) != []
  }

  lemma AnyUsedStep(es: seq<Entry>, ps: seq<string>, p: string)
    ensures AnyUsed(es, ps + [p]) <==> AnyUsed(es, ps) || ModsAt(es, p) != []
  {
    var qs := ps + [p];
    if AnyUsed(es, qs) {
      var k :| 0 <= k < |qs| && ModsAt(es, qs[k]) != [];
      if k < |ps| {
        assert qs[k] == ps[k];
      }
    }
    if AnyUsed(es, ps) {
      var k :| 0 <= k < |ps| && ModsAt(es, ps[k]) != [];
      assert qs[k] == ps[k];
    }
    assert qs[|ps|] == p;
  }

  /** The candidates `detectEnabledConflicts` lets through, in order. */
  function FreeOf(es: seq<Entry>, mods: seq<Mod>): seq<Mod>
  {
    Filter(mods, (m: Mod) => Free(es, m))
  }

  /** The paths of all candidates, candidate by candidate: the order the source visits them. */
  function AllPaths(mods: seq<Mod>): seq<string>
  {
    if mods == [] then [] else AllPaths(mods[..|mods| - 1]) + mods[|mods| - 1].gameFilesPath
  }

  lemma {:induction false} AllPathsMember(mods: seq<Mod>, p: string)
    ensures p in AllPaths(mods) <==> exists m :: m in mods && p in m.gameFilesPath
  {
    if mods != [] {
      var front := mods[..|mods| - 1];
      var last := mods[|mods| - 1];
      AllPathsMember(front, p);
      assert mods == front + [last];
      if exists m :: m in mods && p in m.gameFilesPath {
        var m :| m in mods && p in m.gameFilesPath;
        assert m in front || m == last;
      }
    }
  }

  /** The enabled mods hit while scanning the candidates' paths, in order of first hit. */
  function Hits(es: seq<Entry>, mods: seq<Mod>): seq<Mod>
  {
    Gather([], es, AllPaths(mods), 0)
  }

  /** `detectEnabledConflicts`: without enabled mods nothing conflicts; otherwise the enabled
    * mods sharing a path with some candidate, and the candidates sharing none. */
  function EnabledConflicts(mods: seq<Mod>, enabledMods: seq<Mod>): (seq<Mod>, seq<Mod>)
  {
    if enabledMods == [] then ([], mods)
    else
      var es := Entries(enabledMods);
      (Hits(es, mods), FreeOf(es, mods))
  }

  /** `m` and `e` list a common game path. */
  predicate Overlap(m: Mod, e: Mod)
  {
    exists p :: p in m.gameFilesPath && p in e.gameFilesPath
  }

  /** A candidate is free of the enabled mods exactly when it overlaps none of them. */
  lemma FreeMeaning(enabledMods: seq<Mod>, m: Mod)
    ensures Free(Entries(enabledMods), m) <==> forall e :: e in enabledMods ==> !Overlap(m, e)
  {
    var es := Entries(enabledMods);
    if !Free(es, m) {
      var k :| 0 <= k < |m.gameFilesPath| && ModsAt(es, m.gameFilesPath[k]) != [];
      var e := ModsAt(es, m.gameFilesPath[k])[0];
      ModsAtMember(es, m.gameFilesPath[k], e);
      EntriesMember(enabledMods, (e, m.gameFilesPath[k]));
      assert Overlap(m, e);
    }
    if exists e :: e in enabledMods && Overlap(m, e) {
      var e :| e in enabledMods && Overlap(m, e);
      var p :| p in m.gameFilesPath && p in e.gameFilesPath;
      EntriesMember(enabledMods, (e, p));
      var k :| 0 <= k < |m.gameFilesPath| && m.gameFilesPath[k] == p;
      ModsAtMember(es, p, e);
    }
  }

  /** An enabled mod is reported exactly when some candidate overlaps it, and only once. */
  lemma HitMeaning(mods: seq<Mod>, enabledMods: seq<Mod>, x: Mod)
    ensures Distinct(Hits(Entries(enabledMods), mods))
    ensures x in Hits(Entries(enabledMods), mods) <==>
      x in enabledMods && exists m :: m in mods && Overlap(m, x)
  {
    var es := Entries(enabledMods);
    var ps := AllPaths(mods);
    GatherDistinct([], es, ps, 0);
    GatherMember([], es, ps, 0, x);
    if Gathered(es, ps, 0, x) {
      var j :| 0 <= j < |ps| && x in Listed(es, 0, ps[j]);
      ModsAtMember(es, ps[j], x);
      EntriesMember(enabledMods, (x, ps[j]));
      AllPathsMember(mods, ps[j]);
      var m :| m in mods && ps[j] in m.gameFilesPath;
      assert Overlap(m, x);
    }
    if x in enabledMods && exists m :: m in mods && Overlap(m, x) {
      var m :| m in mods && Overlap(m, x);
      var p :| p in m.gameFilesPath && p in x.gameFilesPath;
      AllPathsMember(mods, p);
      var j :| 0 <= j < |ps| && ps[j] == p;
      EntriesMember(enabledMods, (x, p));
      ModsAtMember(es, p, x);
      assert x in Listed(es, 0, ps[j]);
    }
  }

  /** The meaning of `detectEnabledConflicts`: a candidate is kept exactly when it overlaps no
    * enabled mod, and the conflict list holds, once each, the enabled mods some candidate
    * overlaps (not the rejected candidates). */
  lemma EnabledConflictsMeaning(mods: seq<Mod>, enabledMods: seq<Mod>, m: Mod, x: Mod)
    ensures enabledMods == [] ==> EnabledConflicts(mods, enabledMods) == ([], mods)
    ensures Distinct(EnabledConflicts(mods, enabledMods).0)
    ensures m in EnabledConflicts(mods, enabledMods).1 <==>
      m in mods && forall e :: e in enabledMods ==> !Overlap(m, e)
    ensures x in EnabledConflicts(mods, enabledMods).0 <==>
      x in enabledMods && exists c :: c in mods && Overlap(c, x)
  {
    if enabledMods != [] {
      var es := Entries(enabledMods);
      FreeMeaning(enabledMods, m);
      HitMeaning(mods, enabledMods, x);
    }
  }

  /** `detectEnabledConflicts`, following the source's loops. */
  method DetectEnabledConflicts(mods: seq<Mod>, enabledMods: seq<Mod>)
    returns (conflictEnabled: seq<Mod>, noConflict: seq<Mod>)
    ensures (conflictEnabled, noConflict) == EnabledConflicts(mods, enabledMods)
  {
    if enabledMods == [] {
      return [], mods;
    }
    var index, keys := BuildIndex(enabledMods);
    ghost var es := Entries(enabledMods);
    conflictEnabled, noConflict := [], [];
    for i := 0 to |mods|
      invariant conflictEnabled == Gather([], es, AllPaths(mods[..i]), 0)
      invariant noConflict == FreeOf(es, mods[..i])
    {
      var mod := mods[i];
      var hasConflict;
      conflictEnabled, hasConflict := ScanPaths(index, keys, es, conflictEnabled, AllPaths(mods[..i]), mod.gameFilesPath);
      assert mods[..i + 1][..i] == mods[..i];
      if !hasConflict {
        noConflict := noConflict + [mod];
      }
    }
    assert mods[..|mods|] == mods;
  }

  /** The inner loop of `detectEnabledConflicts` over one candidate's paths: every path found in
    * the index adds its enabled mods to the conflict set and marks the candidate. */
  method ScanPaths(index: map<string, seq<Mod>>, ghost keys: seq<string>, ghost es: seq<Entry>,
                   acc: seq<Mod>, ghost before: seq<string>, paths: seq<string>)
    returns (acc': seq<Mod>, hasConflict: bool)
    requires IsIndex(es, index, keys) && acc == Gather([], es, before, 0)
    ensures acc' == Gather([], es, before + paths, 0)
    ensures hasConflict <==> AnyUsed(es, paths)
  {
    acc', hasConflict := acc, false;
    assert before + paths[..0] == before;
    assert paths[..0] == [];
    for j := 0 to |paths|
      invariant acc' == Gather([], es, before + paths[..j], 0)
      invariant hasConflict <==> AnyUsed(es, paths[..j])
    {
      var path := paths[j];
      PrefixStep(before, paths, j);
      AnyUsedStep(es, paths[..j], path);
      GatherStep(es, before + paths[..j], path);
      ModsAtKey(es, path);
      if path in index {
        assert index[path] == ModsAt(es, path);
        hasConflict := true;
        acc' := AddAll(acc', index[path]);
      } else {
        assert ModsAt(es, path) == [];
        assert AddAll(acc', []) == acc';
      }
    }
    assert paths[..|paths|] == paths;
  }

  lemma PrefixStep(before: seq<string>, paths: seq<string>, j: nat)
    requires j < |paths|
    ensures paths[..j + 1] == paths[..j] + [paths[j]]
    ensures before + paths[..j + 1] == (before + paths[..j]) + [paths[j]]
  {
  }

  /** One more path appends its enabled mods to the gathered set. */
  lemma GatherStep(es: seq<Entry>, ks: seq<string>, k: string)
    ensures Gather([], es, ks + [k], 0) == AddAll(Gather([], es, ks, 0), ModsAt(es, k))
  {
    assert (ks + [k])[..|ks|] == ks;
  }
}

/**
 * The `execute` and `disable` flows of `EnableModsUseCase` and its cancel flag. Only the final
 * state a flow emits is modelled; the progress events before it are not.
 */
module EnableFlow {
  import opened Wrappers
  import opened Lists
  import opened DomainMod
  import opened GameInfo
  import opened EnableMods

  /** The errors the flows report. */
  datatype AppError = GameNotSelected | GameNotInstalled(gameName: string) | ServiceError(code: int)

  /** What `modEnableService.validateMod` reports. */
  datatype Validation = Valid | NeedPassword | FileMissing

  /** The answers of the repositories and services the flows call. */
  datatype Services = Services(
    getModById: int -> Option<Mod>,
    enabledMods: seq<Mod>,
    gameFiles: Result<seq<string>, AppError>,
    permission: Option<AppError>,
    validate: Mod -> Validation,
    backupSucceeds: Mod -> bool,
    enableSucceeds: Mod -> bool,
    isSpecialGame: bool,
    specialEnableSucceeds: Mod -> bool,
    restoreSucceeds: Mod -> bool,
    specialDisableSucceeds: Mod -> bool,
    fileExists: Mod -> bool)

  /** `EnableResult`. */
  datatype EnableResult = EnableResult(
    enabledCount: int,
    skippedCount: int,
    enabledSucceededMods: seq<Mod>,
    disabledSucceededMods: seq<Mod>,
    needPasswordMods: seq<Mod>,
    fileMissingMods: seq<Mod>,
    backupFailedMods: seq<Mod>,
    enableFailedMods: seq<Mod>,
    restoreFailedMods: seq<Mod>,
    mutualConflictMods: seq<Mod>,
    enabledConflictMods: seq<Mod>)

  /** The final state a flow emits. */
  datatype EnableState = Success(result: EnableResult) | Error(error: AppError) | Cancel(result: EnableResult)

  // ---------------------------------------------------------------------------------------
  // Enabling
  // ---------------------------------------------------------------------------------------

  /** Where one mod of the enable loop ends up. */
  datatype Outcome = NeedsPassword | Missing | BackupFailed | EnableFailed | Enabled

  function EnableOutcome(m: Mod, s: Services): Outcome
  {
    match s.validate(m)
    case NeedPassword => NeedsPassword
    case FileMissing => Missing
    case Valid =>
      if !s.backupSucceeds(m) then BackupFailed
      else if !s.enableSucceeds(m) then EnableFailed
      else if s.isSpecialGame && !s.specialEnableSucceeds(m) then EnableFailed
      else Enabled
  }

  /** The five result lists of the enable loop. */
  datatype Tally = Tally(needPassword: seq<Mod>, fileMissing: seq<Mod>, backupFailed: seq<Mod>,
                         enableFailed: seq<Mod>, succeeded: seq<Mod>)

  const NoTally := Tally([], [], [], [], [])

  /** One iteration of the enable loop. */
  function EnableStep(t: Tally, m: Mod, s: Services): Tally
  {
    match EnableOutcome(m, s)
    case NeedsPassword => t.(needPassword := t.needPassword + [m])
    case Missing => t.(fileMissing := t.fileMissing + [m])
    case BackupFailed => t.(backupFailed := t.backupFailed + [m])
    case EnableFailed => t.(enableFailed := t.enableFailed + [m])
    case Enabled => t.(succeeded := t.succeeded + [m.(isEnable := true)])
  }

  /** The lists after the loop has visited `ms`. */
  function EnableTally(ms: seq<Mod>, s: Services): Tally
  {
    if ms == [] then NoTally else EnableStep(EnableTally(ms[..|ms| - 1], s), ms[|ms| - 1], s)
  }

  /** The index of the first mod at or after `from` that is enabled successfully, or -1. */
  function FirstEnabled(ms: seq<Mod>, s: Services, from: nat): (r: int)
    decreases |ms| - from
    ensures r == -1 || from <= r < |ms|
    ensures r >= 0 ==> EnableOutcome(ms[r], s) == Enabled
    ensures forall j :: from <= j < |ms| && (r == -1 || j < r) ==> EnableOutcome(ms[j], s) != Enabled
  {
    if from >= |ms| then -1
    else if EnableOutcome(ms[from], s) == Enabled then from
    else FirstEnabled(ms, s, from + 1)
  }

  /** The mods the loop visits: with the cancel flag set, it stops after the first success. */
  function Visited(ms: seq<Mod>, s: Services, canceled: bool): seq<Mod>
  {
    var i := FirstEnabled(ms, s, 0);
    if canceled && i >= 0 then ms[..i + 1] else ms
  }

  /** The disabled mods among the re-fetched ones, in order. */
  function ToEnable(modsToEnable: seq<Mod>, s: Services): seq<Mod>
  {
    Filter(MapNotNull(modsToEnable, (m: Mod) => s.getModById(m.id)), (m: Mod) => !m.isEnable)
  }

  /** The mods the loop visits, in order: the candidates free of mutual conflicts and of
    * conflicts with the enabled mods. */
  function ToProcess(modsToEnable: seq<Mod>, s: Services): seq<Mod>
  {
    EnabledConflicts(MutualConflicts(ToEnable(modsToEnable, s)).1, s.enabledMods).1
  }

  /** The checks before the loop: a game must be selected, installed and accessible. */
  function GameCheck(game: Game, s: Services): Option<AppError>
  {
    if game == NoGame || game.packageName == "" then Some(GameNotSelected)
    else
      match s.gameFiles
      case Ok(files) => if files == [] then Some(GameNotInstalled(game.gameName)) else s.permission
      case Err(e) => Some(e)
  }

  /** The result record of the enable flow. */
  function EnableReport(t: Tally, mutual: seq<Mod>, enabledConflict: seq<Mod>): EnableResult
  {
    EnableResult(|t.succeeded|, |t.needPassword| + |t.fileMissing| + |mutual| + |enabledConflict|,
      t.succeeded, [], t.needPassword, t.fileMissing, t.backupFailed, t.enableFailed, [],
      mutual, enabledConflict)
  }

  /** What `execute` emits last (None: nothing, for an empty list) and the cancel flag after it. */
  function ExecuteResult(modsToEnable: seq<Mod>, game: Game, s: Services, canceled: bool): (Option<EnableState>, bool)
  {
    var mods := ToEnable(modsToEnable, s);
    if mods == [] then (None, canceled)
    else if GameCheck(game, s).Some? then (Some(Error(GameCheck(game, s).value)), canceled)
    else
      var (mutual, free) := MutualConflicts(mods);
      var (enabledConflict, toProcess) := EnabledConflicts(free, s.enabledMods);
      assert toProcess == ToProcess(modsToEnable, s);
      var report := EnableReport(EnableTally(Visited(toProcess, s, canceled), s), mutual, enabledConflict);
      if canceled && FirstEnabled(toProcess, s, 0) >= 0 then (Some(Cancel(report)), false)
      else (Some(Success(report)), canceled)
  }

  // ---------------------------------------------------------------------------------------
  // Disabling
  // ---------------------------------------------------------------------------------------

  /** A mod is disabled when its backups are restored and, for a special game, the special
    * handling succeeds. */
  predicate Restored(m: Mod, s: Services)
  {
    s.restoreSucceeds(m) && (!s.isSpecialGame || s.specialDisableSucceeds(m))
  }

  /** The lists of the disable loop: restore failures, successes (as disabled copies) and the
    * mods removed from the database because their file is gone. */
  datatype DisableTally = DisableTally(restoreFailed: seq<Mod>, succeeded: seq<Mod>, removed: seq<Mod>)

  function DisableStep(t: DisableTally, m: Mod, s: Services): DisableTally
  {
    if !Restored(m, s) then t.(restoreFailed := t.restoreFailed + [m])
    else if s.fileExists(m) then t.(succeeded := t.succeeded + [m.(isEnable := false)])
    else t.(succeeded := t.succeeded + [m.(isEnable := false)], removed := t.removed + [m])
  }

  function DisableTallyOf(ms: seq<Mod>, s: Services): DisableTally
  {
    if ms == [] then DisableTally([], [], []) else DisableStep(DisableTallyOf(ms[..|ms| - 1], s), ms[|ms| - 1], s)
  }

  function FirstRestored(ms: seq<Mod>, s: Services, from: nat): (r: int)
    decreases |ms| - from
    ensures r == -1 || from <= r < |ms|
    ensures r >= 0 ==> Restored(ms[r], s)
    ensures forall j :: from <= j < |ms| && (r == -1 || j < r) ==> !Restored(ms[j], s)
  {
    if from >= |ms| then -1
    else if Restored(ms[from], s) then from
    else FirstRestored(ms, s, from + 1)
  }

  function DisableVisited(ms: seq<Mod>, s: Services, canceled: bool): seq<Mod>
  {
    var i := FirstRestored(ms, s, 0);
    if canceled && i >= 0 then ms[..i + 1] else ms
  }

  /** The enabled mods among the re-fetched ones, in order. */
  function ToDisable(modsToDisable: seq<Mod>, s: Services): seq<Mod>
  {
    Filter(MapNotNull(modsToDisable, (m: Mod) => s.getModById(m.id)), (m: Mod) => m.isEnable)
  }

  function DisableReport(t: DisableTally): EnableResult
  {
    EnableResult(|t.succeeded|, 0, [], t.succeeded, [], [], [], [], t.restoreFailed, [], [])
  }

  /** What `disable` emits last, the flag after it, and the mods it deletes from the database. */
  function DisableResult(modsToDisable: seq<Mod>, s: Services, canceled: bool): (Option<EnableState>, bool, seq<Mod>)
  {
    var mods := ToDisable(modsToDisable, s);
    if mods == [] then (None, canceled, [])
    else if s.permission.Some? then (Some(Error(s.permission.value)), canceled, [])
    else
      var t := DisableTallyOf(DisableVisited(mods, s, canceled), s);
      if canceled && FirstRestored(mods, s, 0) >= 0 then (Some(Cancel(DisableReport(t))), false, t.removed)
      else (Some(Success(DisableReport(t))), canceled, t.removed)
  }

  // ---------------------------------------------------------------------------------------
  // The use case
  // ---------------------------------------------------------------------------------------

  /** `EnableModsUseCase` with its one piece of state, the cancel flag. `cancel()` only sets the
    * flag; a running loop reads it after each mod it turns on or off, and only a cancelled
    * loop clears it. */
  class EnableModsUseCase {
    var isCanceled: bool

    constructor()
      ensures !isCanceled
    {
      isCanceled := false;
    }

    method Cancel()
      modifies this
      ensures isCanceled
    {
      isCanceled := true;
    }

    /** `execute`: the final state, the flag afterwards as `ExecuteResult` gives them. */
    method Execute(modsToEnable: seq<Mod>, game: Game, s: Services) returns (state: Option<EnableState>)
      modifies this
      ensures (state, isCanceled) == ExecuteResult(modsToEnable, game, s, old(isCanceled))
    {
      var mods := ToEnable(modsToEnable, s);
      if mods == [] {
        return None;
      }
      if game == NoGame || game.packageName == "" {
        return Some(Error(GameNotSelected));
      }
      match s.gameFiles {
        case Ok(files) =>
          if files == [] {
            return Some(Error(GameNotInstalled(game.gameName)));
          }
        case Err(e) =>
          return Some(Error(e));
      }
      if s.permission.Some? {
        return Some(Error(s.permission.value));
      }
      var mutual, free := DetectMutualConflicts(mods);
      var enabledConflict, toProcess := DetectEnabledConflicts(free, s.enabledMods);
      var t, stopped := EnableLoop(toProcess, s);
      if stopped {
        isCanceled := false;
        return Some(EnableState.Cancel(EnableReport(t, mutual, enabledConflict)));
      }
      return Some(Success(EnableReport(t, mutual, enabledConflict)));
    }

    /** The loop of `execute` over the mods left after both conflict checks: it stops after the
      * first mod it turns on when the flag is set. */
    method EnableLoop(toProcess: seq<Mod>, s: Services) returns (t: Tally, stopped: bool)
      ensures t == EnableTally(Visited(toProcess, s, isCanceled), s)
      ensures stopped <==> isCanceled && FirstEnabled(toProcess, s, 0) >= 0
    {
      t := NoTally;
      for i := 0 to |toProcess|
        invariant t == EnableTally(toProcess[..i], s)
        invariant isCanceled ==> forall j :: 0 <= j < i ==> EnableOutcome(toProcess[j], s) != Enabled
      {
        var m := toProcess[i];
        assert toProcess[..i + 1][..i] == toProcess[..i];
        var v := s.validate(m);
        if v == NeedPassword {
          assert EnableOutcome(m, s) == NeedsPassword;
          t := t.(needPassword := t.needPassword + [m]);
          continue;
        }
        if v == FileMissing {
          assert EnableOutcome(m, s) == Missing;
          t := t.(fileMissing := t.fileMissing + [m]);
          continue;
        }
        if !s.backupSucceeds(m) {
          assert EnableOutcome(m, s) == BackupFailed;
          t := t.(backupFailed := t.backupFailed + [m]);
          continue;
        }
        if !s.enableSucceeds(m) || (s.isSpecialGame && !s.specialEnableSucceeds(m)) {
          assert EnableOutcome(m, s) == EnableFailed;
          t := t.(enableFailed := t.enableFailed + [m]);
          continue;
        }
        assert EnableOutcome(m, s) == Enabled;
        t := t.(succeeded := t.succeeded + [m.(isEnable := true)]);
        if isCanceled {
          assert FirstEnabled(toProcess, s, 0) == i;
          return t, true;
        }
      }
      assert toProcess[..|toProcess|] == toProcess;
      return t, false;
    }

    /** `disable`: the final state, the flag afterwards and the mods deleted from the database
      * as `DisableResult` gives them. */
    method Disable(modsToDisable: seq<Mod>, s: Services) returns (state: Option<EnableState>, removed: seq<Mod>)
      modifies this
      ensures (state, isCanceled, removed) == DisableResult(modsToDisable, s, old(isCanceled))
    {
      var mods := ToDisable(modsToDisable, s);
      if mods == [] {
        return None, [];
      }
      if s.permission.Some? {
        return Some(Error(s.permission.value)), [];
      }
      var t, stopped := DisableLoop(mods, s);
      if stopped {
        isCanceled := false;
        return Some(EnableState.Cancel(DisableReport(t))), t.removed;
      }
      return Some(Success(DisableReport(t))), t.removed;
    }

    /** The loop of `disable`: it stops after the first mod it turns off when the flag is set. */
    method DisableLoop(mods: seq<Mod>, s: Services) returns (t: DisableTally, stopped: bool)
      ensures t == DisableTallyOf(DisableVisited(mods, s, isCanceled), s)
      ensures stopped <==> isCanceled && FirstRestored(mods, s, 0) >= 0
    {
      t := DisableTally([], [], []);
      for i := 0 to |mods|
        invariant t == DisableTallyOf(mods[..i], s)
        invariant isCanceled ==> forall j :: 0 <= j < i ==> !Restored(mods[j], s)
      {
        var m := mods[i];
        assert mods[..i + 1][..i] == mods[..i];
        if !s.restoreSucceeds(m) || (s.isSpecialGame && !s.specialDisableSucceeds(m)) {
          t := t.(restoreFailed := t.restoreFailed + [m]);
          continue;
        }
        if s.fileExists(m) {
          t := t.(succeeded := t.succeeded + [m.(isEnable := false)]);
        } else {
          t := t.(succeeded := t.succeeded + [m.(isEnable := false)], removed := t.removed + [m]);
        }
        if isCanceled {
          assert FirstRestored(mods, s, 0) == i;
          return t, true;
        }
      }
      assert mods[..|mods|] == mods;
      return t, false;
    }
  }

  // ---------------------------------------------------------------------------------------
  // Properties
  // ---------------------------------------------------------------------------------------

  /** The mods of `ms` with outcome `o`, in order. */
  function WithOutcome(ms: seq<Mod>, s: Services, o: Outcome): seq<Mod>
  {
    Filter(ms, (m: Mod) => EnableOutcome(m, s) == o)
  }

  /** The enabled copies of `ms`. */
  function AsEnabled(ms: seq<Mod>): (r: seq<Mod>)
    ensures |r| == |ms| && forall i :: 0 <= i < |ms| ==> r[i] == ms[i].(isEnable := true)
  {
    Map(ms, (m: Mod) => m.(isEnable := true))
  }

  /** The enable loop puts every visited mod that fails into the list of its outcome, keeping
    * the visiting order. */
  lemma {:induction false} EnableTallyFailures(ms: seq<Mod>, s: Services)
    ensures EnableTally(ms, s).needPassword == WithOutcome(ms, s, NeedsPassword)
    ensures EnableTally(ms, s).fileMissing == WithOutcome(ms, s, Missing)
    ensures EnableTally(ms, s).backupFailed == WithOutcome(ms, s, BackupFailed)
    ensures EnableTally(ms, s).enableFailed == WithOutcome(ms, s, EnableFailed)
  {
    if ms != [] {
      EnableTallyFailures(ms[..|ms| - 1], s);
    }
  }

  /** ... and records every success, in order, as an enabled copy. */
  lemma {:induction false} EnableTallySucceeded(ms: seq<Mod>, s: Services)
    ensures EnableTally(ms, s).succeeded == AsEnabled(WithOutcome(ms, s, Enabled))
  {
    if ms != [] {
      EnableTallySucceeded(ms[..|ms| - 1], s);
      var en := WithOutcome(ms[..|ms| - 1], s, Enabled);
      assert AsEnabled(en + [ms[|ms| - 1]]) == AsEnabled(en) + [ms[|ms| - 1].(isEnable := true)];
    }
  }

  /** Each visited mod lands in exactly one of the five lists. */
  lemma {:induction false} EnableTallyCount(ms: seq<Mod>, s: Services)
    ensures var t := EnableTally(ms, s);
      |t.needPassword| + |t.fileMissing| + |t.backupFailed| + |t.enableFailed| + |t.succeeded| == |ms|
  {
    if ms != [] {
      EnableTallyCount(ms[..|ms| - 1], s);
    }
  }

  /** Every mod left after both conflict checks is one of the candidates. */
  lemma ProcessedAreCandidates(mods: seq<Mod>, enabledMods: seq<Mod>, c: Mod)
    requires c in EnabledConflicts(MutualConflicts(mods).1, enabledMods).1
    ensures c in mods
  {
    var free := MutualConflicts(mods).1;
    MutualConflictsShape(mods);
    if |mods| > 1 {
      MutualConflictMember(mods, c);
    }
    EnabledConflictsMeaning(free, enabledMods, c, c);
  }

  /** The mods the loop enabled are the enabled copies of candidates it turned on. */
  lemma SucceededFrom(ms: seq<Mod>, s: Services, m: Mod)
    requires m in EnableTally(ms, s).succeeded
    ensures m.isEnable && exists c :: c in ms && EnableOutcome(c, s) == Enabled && m == c.(isEnable := true)
  {
    EnableTallySucceeded(ms, s);
    var en := WithOutcome(ms, s, Enabled);
    var i :| 0 <= i < |en| && AsEnabled(en)[i] == m;
    assert en[i] in en;
  }

  /** Every reported success is an enabled copy of a disabled candidate that passed validation,
    * backup and enabling. */
  lemma ExecuteSucceededAreEnabled(modsToEnable: seq<Mod>, game: Game, s: Services, canceled: bool, m: Mod)
    requires ExecuteResult(modsToEnable, game, s, canceled).0.Some?
    requires !ExecuteResult(modsToEnable, game, s, canceled).0.value.Error?
    requires m in ExecuteResult(modsToEnable, game, s, canceled).0.value.result.enabledSucceededMods
    ensures m.isEnable
    ensures exists c ::
      c in ToEnable(modsToEnable, s) && !c.isEnable && EnableOutcome(c, s) == Enabled && m == c.(isEnable := true)
  {
    var mods := ToEnable(modsToEnable, s);
    var toProcess := EnabledConflicts(MutualConflicts(mods).1, s.enabledMods).1;
    var visited := Visited(toProcess, s, canceled);
    SucceededFrom(visited, s, m);
    var c :| c in visited && EnableOutcome(c, s) == Enabled && m == c.(isEnable := true);
    assert c in toProcess;
    ProcessedAreCandidates(mods, s.enabledMods, c);
  }

  /** The counts of a finished or cancelled run: `enabledCount` is the number of successes and
    * `skippedCount` adds the mods held back before backing up (a password needed, a file
    * missing, a conflict among the candidates) to the enabled mods they conflict with; a run
    * that finishes sorts each mod left after the conflict checks into exactly one list. */
  lemma ExecuteCounts(modsToEnable: seq<Mod>, game: Game, s: Services, canceled: bool)
    requires ExecuteResult(modsToEnable, game, s, canceled).0.Some?
    requires !ExecuteResult(modsToEnable, game, s, canceled).0.value.Error?
    ensures var st := ExecuteResult(modsToEnable, game, s, canceled).0.value;
      var r := st.result;
      var n := |r.needPasswordMods| + |r.fileMissingMods| + |r.backupFailedMods| + |r.enableFailedMods|
        + |r.enabledSucceededMods|;
      r.enabledCount == |r.enabledSucceededMods|
      && r.skippedCount == |r.needPasswordMods| + |r.fileMissingMods| + |r.mutualConflictMods|
           + |r.enabledConflictMods|
      && (st.Success? ==> n == |ToProcess(modsToEnable, s)|)
      && (st.Cancel? ==> n <= |ToProcess(modsToEnable, s)|)
  {
    var toProcess := ToProcess(modsToEnable, s);
    var visited := Visited(toProcess, s, canceled);
    EnableTallyCount(visited, s);
  }

  /** No mod of `ms` has an outcome none of them has. */
  lemma {:induction false} WithOutcomeNone(ms: seq<Mod>, s: Services, o: Outcome)
    requires forall j :: 0 <= j < |ms| ==> EnableOutcome(ms[j], s) != o
    ensures WithOutcome(ms, s, o) == []
  {
    if ms != [] {
      WithOutcomeNone(ms[..|ms| - 1], s, o);
    }
  }

  /** A run with the flag set enables exactly one mod when some mod can be enabled. */
  lemma CanceledRunEnablesOne(ms: seq<Mod>, s: Services)
    requires FirstEnabled(ms, s, 0) >= 0
    ensures |EnableTally(Visited(ms, s, true), s).succeeded| == 1
  {
    var i := FirstEnabled(ms, s, 0);
    var visited := ms[..i + 1];
    assert visited[..i] == ms[..i];
    WithOutcomeNone(ms[..i], s, Enabled);
    assert WithOutcome(visited, s, Enabled) == [ms[i]];
    EnableTallySucceeded(visited, s);
  }

  /** With the flag set when the run starts (a `cancel()` left over from an earlier run counts),
    * `execute` stops after the first mod it turns on: it reports `Cancel` with exactly that
    * one success and clears the flag. */
  lemma StaleCancelEnablesOne(modsToEnable: seq<Mod>, game: Game, s: Services)
    requires ExecuteResult(modsToEnable, game, s, true).0.Some?
    requires ExecuteResult(modsToEnable, game, s, true).0.value.Cancel?
    ensures |ExecuteResult(modsToEnable, game, s, true).0.value.result.enabledSucceededMods| == 1
    ensures !ExecuteResult(modsToEnable, game, s, true).1
  {
    CanceledRunEnablesOne(ToProcess(modsToEnable, s), s);
  }

  /** The mods of `ms` whose restore succeeds (`ok`) or fails, in order. */
  function RestoredMods(ms: seq<Mod>, s: Services, ok: bool): seq<Mod>
  {
    Filter(ms, (m: Mod) => Restored(m, s) == ok)
  }

  /** The restored mods of `ms` whose file is gone, in order. */
  function GoneMods(ms: seq<Mod>, s: Services): seq<Mod>
  {
    Filter(ms, (m: Mod) => Restored(m, s) && !s.fileExists(m))
  }

  /** The disabled copies of `ms`. */
  function AsDisabled(ms: seq<Mod>): (r: seq<Mod>)
    ensures |r| == |ms| && forall i :: 0 <= i < |ms| ==> r[i] == ms[i].(isEnable := false)
  {
    Map(ms, (m: Mod) => m.(isEnable := false))
  }

  /** The disable loop reports a mod as failed exactly when restoring it fails, reports every
    * other one as a disabled copy whether or not its file still exists, and deletes from the
    * database exactly the restored mods whose file is gone. */
  lemma {:induction false} DisableTallyPartition(ms: seq<Mod>, s: Services)
    ensures DisableTallyOf(ms, s).restoreFailed == RestoredMods(ms, s, false)
    ensures DisableTallyOf(ms, s).succeeded == AsDisabled(RestoredMods(ms, s, true))
    ensures DisableTallyOf(ms, s).removed == GoneMods(ms, s)
    ensures |DisableTallyOf(ms, s).restoreFailed| + |DisableTallyOf(ms, s).succeeded| == |ms|
  {
    if ms != [] {
      DisableTallyPartition(ms[..|ms| - 1], s);
      var ok := RestoredMods(ms[..|ms| - 1], s, true);
      assert AsDisabled(ok + [ms[|ms| - 1]]) == AsDisabled(ok) + [ms[|ms| - 1].(isEnable := false)];
    }
  }

  /** No mod of `ms` is restored when none of them is. */
  lemma {:induction false} RestoredModsNone(ms: seq<Mod>, s: Services)
    requires forall j :: 0 <= j < |ms| ==> !Restored(ms[j], s)
    ensures RestoredMods(ms, s, true) == []
  {
    if ms != [] {
      RestoredModsNone(ms[..|ms| - 1], s);
    }
  }

  /** A run with the flag set disables exactly one mod when some mod can be restored. */
  lemma CanceledRunDisablesOne(ms: seq<Mod>, s: Services)
    requires FirstRestored(ms, s, 0) >= 0
    ensures |DisableTallyOf(DisableVisited(ms, s, true), s).succeeded| == 1
  {
    var i := FirstRestored(ms, s, 0);
    var visited := ms[..i + 1];
    assert visited[..i] == ms[..i];
    RestoredModsNone(ms[..i], s);
    assert RestoredMods(visited, s, true) == [ms[i]];
    DisableTallyPartition(visited, s);
  }

  /** With the flag set, `disable` reports `Cancel` with exactly one disabled mod and clears the
    * flag; the restore failures before it are reported too. */
  lemma StaleCancelDisablesOne(modsToDisable: seq<Mod>, s: Services)
    requires DisableResult(modsToDisable, s, true).0.Some?
    requires DisableResult(modsToDisable, s, true).0.value.Cancel?
    ensures |DisableResult(modsToDisable, s, true).0.value.result.disabledSucceededMods| == 1
    ensures !DisableResult(modsToDisable, s, true).1
  {
    CanceledRunDisablesOne(ToDisable(modsToDisable, s), s);
  }

  /** A finished `disable` accounts for every enabled candidate once and counts no mod as
    * skipped. */
  lemma DisableCounts(modsToDisable: seq<Mod>, s: Services, canceled: bool)
    requires DisableResult(modsToDisable, s, canceled).0.Some?
    requires !DisableResult(modsToDisable, s, canceled).0.value.Error?
    ensures var st := DisableResult(modsToDisable, s, canceled).0.value;
      st.result.skippedCount == 0 && st.result.enabledCount == |st.result.disabledSucceededMods|
      && (st.Success? ==>
            |st.result.restoreFailedMods| + |st.result.disabledSucceededMods| == |ToDisable(modsToDisable, s)|)
  {
    DisableTallyPartition(DisableVisited(ToDisable(modsToDisable, s), s, canceled), s);
  }

  /** `disable` only deletes from the database mods it also reports as disabled. */
  lemma DisableRemovesReported(modsToDisable: seq<Mod>, s: Services, canceled: bool, m: Mod)
    requires DisableResult(modsToDisable, s, canceled).0.Some?
    requires !DisableResult(modsToDisable, s, canceled).0.value.Error?
    requires m in DisableResult(modsToDisable, s, canceled).2
    ensures m.(isEnable := false) in DisableResult(modsToDisable, s, canceled).0.value.result.disabledSucceededMods
  {
    RemovedAreDisabled(DisableVisited(ToDisable(modsToDisable, s), s, canceled), s, m);
  }

  /** A mod the loop deletes from the database is also reported as disabled. */
  lemma {:induction false} RemovedAreDisabled(ms: seq<Mod>, s: Services, m: Mod)
    requires m in DisableTallyOf(ms, s).removed
    ensures m.(isEnable := false) in DisableTallyOf(ms, s).succeeded
  {
    var front := DisableTallyOf(ms[..|ms| - 1], s);
    if m in front.removed {
      RemovedAreDisabled(ms[..|ms| - 1], s, m);
    }
  }
}
