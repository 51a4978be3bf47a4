/**
 * `DeleteModsUseCase`: deleting selected mods, where one archive or folder (a path) can hold
 * several mods, an "integrated package". The repository (`getModById`, `getModsByPath`), the
 * permission check, the file service and the database delete are parameters.
 */
module DeleteMods {
  import opened Wrappers
  import opened Lists
  import opened Strings
  import opened DomainMod
  import JavaFile

  /** The errors a deletion reports: the permission error, the database error, and whatever the
    * file service returns (kept opaque). */
  datatype AppError = StoragePermissionDenied | DatabaseDeleteFailed | FileError(code: int)

  /** The answers of the repository and the services `execute` and `checkBeforeDelete` call. */
  datatype Services = Services(
    getModById: int -> Option<Mod>,
    modsByPath: string -> seq<Mod>,
    hasStoragePermission: bool,
    deleteFile: string -> Option<AppError>,
    deleteAllSucceeds: seq<Mod> -> bool)

  /** `DeleteResult`. */
  datatype DeleteResult = DeleteResult(
    deletedMods: seq<Mod>,
    deletedEnabledMods: seq<Mod>,
    skippedIntegratedMods: seq<Mod>,
    failedMods: seq<(Mod, AppError)>)

  /** The final state `execute` emits (its progress states are not modelled). */
  datatype DeleteState = Success(result: DeleteResult) | Error(error: AppError) | Cancel

  const NothingDeleted := DeleteResult([], [], [], [])

  function ModPath(m: Mod): string { m.path }

  function ModId(m: Mod): int { m.id }

  predicate IsEnabled(m: Mod) { m.isEnable }

  predicate IsDisabled(m: Mod) { !m.isEnable }

  /** `groupBy { it.path }[p]`: the mods of `mods` at path `p`, in order. */
  function AtPath(mods: seq<Mod>, p: string): seq<Mod>
  {
    Filter(mods, (m: Mod) => m.path == p)
  }

  lemma AtPathMember(mods: seq<Mod>, p: string, x: Mod)
    ensures x in AtPath(mods, p) <==> x in mods && x.path == p
  {
  }

  /** A path that is a key of the grouping has at least one mod. */
  lemma AtPathKey(mods: seq<Mod>, p: string)
    requires p in KeysInOrder(mods, ModPath)
    ensures AtPath(mods, p) != []
  {
    var x :| x in mods && ModPath(x) == p;
    AtPathMember(mods, p, x);
  }

  /** The mods to delete as the database holds them now: those whose id it still finds. */
  function Refetched(modToDelete: seq<Mod>, s: Services): seq<Mod>
  {
    MapNotNull(modToDelete, (m: Mod) => s.getModById(m.id))
  }

  /** A path is an integrated package when the repository holds more than one mod there. */
  predicate IsIntegrated(p: string, s: Services)
  {
    |s.modsByPath(p)| > 1
  }

  // ---------------------------------------------------------------------------------------
  // Filtering: which mods are skipped and which are deleted
  // ---------------------------------------------------------------------------------------

  /** The three lists the filtering step fills. */
  datatype Plan = Plan(skipped: seq<Mod>, toDelete: seq<Mod>, enabledToDelete: seq<Mod>)

  const NoPlan := Plan([], [], [])

  /** One selected mod: skipped, or deleted under its enabled state. */
  function Classify(pl: Plan, m: Mod, skip: bool): Plan
  {
    if skip then pl.(skipped := pl.skipped + [m])
    else if m.isEnable then pl.(enabledToDelete := pl.enabledToDelete + [m])
    else pl.(toDelete := pl.toDelete + [m])
  }

  function ClassifyAll(pl: Plan, ms: seq<Mod>, skip: bool): Plan
  {
    if ms == [] then pl else Classify(ClassifyAll(pl, ms[..|ms| - 1], skip), ms[|ms| - 1], skip)
  }

  /** One unselected mod of a package being deleted: added to its list unless already there. */
  function AddOther(pl: Plan, m: Mod, selected: seq<Mod>): Plan
  {
    if m in selected then pl
    else if m.isEnable then
      if m in pl.enabledToDelete then pl else pl.(enabledToDelete := pl.enabledToDelete + [m])
    else if m in pl.toDelete then pl
    else pl.(toDelete := pl.toDelete + [m])
  }

  function AddOthers(pl: Plan, ms: seq<Mod>, selected: seq<Mod>): Plan
  {
    if ms == [] then pl else AddOther(AddOthers(pl, ms[..|ms| - 1], selected), ms[|ms| - 1], selected)
  }

  /** One distinct path of the filtering loop. */
  function PlanPath(pl: Plan, p: string, mods: seq<Mod>, deleteIntegrated: bool, s: Services): Plan
  {
    var all := s.modsByPath(p);
    var selected := AtPath(mods, p);
    var pl1 := ClassifyAll(pl, selected, IsIntegrated(p, s) && !deleteIntegrated);
    if IsIntegrated(p, s) && deleteIntegrated then AddOthers(pl1, all, selected) else pl1
  }

  function PlanPaths(pl: Plan, ps: seq<string>, mods: seq<Mod>, deleteIntegrated: bool, s: Services): Plan
  {
    if ps == [] then pl
    else PlanPath(PlanPaths(pl, ps[..|ps| - 1], mods, deleteIntegrated, s), ps[|ps| - 1], mods, deleteIntegrated, s)
  }

  /** The filtering step over the distinct paths of the re-fetched mods. */
  function MakePlan(mods: seq<Mod>, deleteIntegrated: bool, s: Services): Plan
  {
    PlanPaths(NoPlan, KeysInOrder(mods, ModPath), mods, deleteIntegrated, s)
  }

  /** A selected mod at `p` that is skipped. */
  predicate SkipsAt(mods: seq<Mod>, deleteIntegrated: bool, s: Services, p: string, x: Mod)
  {
    x in AtPath(mods, p) && IsIntegrated(p, s) && !deleteIntegrated
  }

  /** A mod at `p` whose files go: selected and not skipped, or another mod of a package that
    * is deleted whole. */
  predicate DeletesAt(mods: seq<Mod>, deleteIntegrated: bool, s: Services, p: string, x: Mod)
  {
    (x in AtPath(mods, p) && !(IsIntegrated(p, s) && !deleteIntegrated)) ||
    (IsIntegrated(p, s) && deleteIntegrated && x in s.modsByPath(p) && x !in AtPath(mods, p))
  }

  lemma {:induction false} ClassifyAllMember(pl: Plan, ms: seq<Mod>, skip: bool, x: Mod)
    ensures var r := ClassifyAll(pl, ms, skip);
      (x in r.skipped <==> x in pl.skipped || (skip && x in ms)) &&
      (x in r.enabledToDelete <==> x in pl.enabledToDelete || (!skip && x in ms && x.isEnable)) &&
      (x in r.toDelete <==> x in pl.toDelete || (!skip && x in ms && !x.isEnable))
  {
    if ms != [] {
      ClassifyAllMember(pl, ms[..|ms| - 1], skip, x);
      SnocSplit(ms);
    }
  }

  lemma {:induction false} AddOthersMember(pl: Plan, ms: seq<Mod>, selected: seq<Mod>, x: Mod)
    ensures var r := AddOthers(pl, ms, selected);
      r.skipped == pl.skipped &&
      (x in r.enabledToDelete <==> x in pl.enabledToDelete || (x in ms && x !in selected && x.isEnable)) &&
      (x in r.toDelete <==> x in pl.toDelete || (x in ms && x !in selected && !x.isEnable))
  {
    if ms != [] {
      AddOthersMember(pl, ms[..|ms| - 1], selected, x);
      SnocSplit(ms);
    }
  }

  /** Adding the other mods of a package never lists a mod twice: each list only grows at its
    * end, and stays free of repeats. */
  lemma {:induction false} AddOthersDistinct(pl: Plan, ms: seq<Mod>, selected: seq<Mod>)
    requires Distinct(pl.enabledToDelete) && Distinct(pl.toDelete)
    ensures var r := AddOthers(pl, ms, selected);
      Distinct(r.enabledToDelete) && Distinct(r.toDelete) &&
      |pl.enabledToDelete| <= |r.enabledToDelete| && r.enabledToDelete[..|pl.enabledToDelete|] == pl.enabledToDelete &&
      |pl.toDelete| <= |r.toDelete| && r.toDelete[..|pl.toDelete|] == pl.toDelete
  {
    if ms != [] {
      var front := AddOthers(pl, ms[..|ms| - 1], selected);
      AddOthersDistinct(pl, ms[..|ms| - 1], selected);
      var m := ms[|ms| - 1];
      if m !in selected && m.isEnable && m !in front.enabledToDelete {
        DistinctSnoc(front.enabledToDelete, m);
        PrefixOfSnoc(front.enabledToDelete, m, |pl.enabledToDelete|);
      } else if m !in selected && !m.isEnable && m !in front.toDelete {
        DistinctSnoc(front.toDelete, m);
        PrefixOfSnoc(front.toDelete, m, |pl.toDelete|);
      }
    }
  }

  lemma DistinctSnoc(s: seq<Mod>, m: Mod)
    requires Distinct(s) && m !in s
    ensures Distinct(s + [m])
  {
  }

  lemma PrefixOfSnoc(s: seq<Mod>, m: Mod, n: nat)
    requires n <= |s|
    ensures (s + [m])[..n] == s[..n]
  {
  }

  lemma PlanPathMember(pl: Plan, p: string, mods: seq<Mod>, deleteIntegrated: bool, s: Services, x: Mod)
    ensures var r := PlanPath(pl, p, mods, deleteIntegrated, s);
      (x in r.skipped <==> x in pl.skipped || SkipsAt(mods, deleteIntegrated, s, p, x)) &&
      (x in r.enabledToDelete <==> x in pl.enabledToDelete || (x.isEnable && DeletesAt(mods, deleteIntegrated, s, p, x))) &&
      (x in r.toDelete <==> x in pl.toDelete || (!x.isEnable && DeletesAt(mods, deleteIntegrated, s, p, x)))
  {
    var selected := AtPath(mods, p);
    var skip := IsIntegrated(p, s) && !deleteIntegrated;
    ClassifyAllMember(pl, selected, skip, x);
    AddOthersMember(ClassifyAll(pl, selected, skip), s.modsByPath(p), selected, x);
  }

  /** What the filtering loop puts in each list: exactly the mods some path contributes. */
  lemma {:induction false} PlanPathsMember(pl: Plan, ps: seq<string>, mods: seq<Mod>, deleteIntegrated: bool, s: Services, x: Mod)
    ensures var r := PlanPaths(pl, ps, mods, deleteIntegrated, s);
      (x in r.skipped <==> x in pl.skipped || exists p :: p in ps && SkipsAt(mods, deleteIntegrated, s, p, x)) &&
      (x in r.enabledToDelete <==>
        x in pl.enabledToDelete || (x.isEnable && exists p :: p in ps && DeletesAt(mods, deleteIntegrated, s, p, x))) &&
      (x in r.toDelete <==>
        x in pl.toDelete || (!x.isEnable && exists p :: p in ps && DeletesAt(mods, deleteIntegrated, s, p, x)))
  {
    if ps != [] {
      var front := ps[..|ps| - 1];
      PlanPathsMember(pl, front, mods, deleteIntegrated, s, x);
      PlanPathMember(PlanPaths(pl, front, mods, deleteIntegrated, s), ps[|ps| - 1], mods, deleteIntegrated, s, x);
      SnocSplit(ps);
    }
  }

  /** Each selected mod lands in one list: skipped exactly when its path is an integrated
    * package being kept, otherwise among the enabled or the disabled mods to delete by its own
    * enabled state. */
  lemma SelectedModPlanned(mods: seq<Mod>, deleteIntegrated: bool, s: Services, x: Mod)
    requires x in mods
    ensures var pl := MakePlan(mods, deleteIntegrated, s);
      (x in pl.skipped <==> IsIntegrated(x.path, s) && !deleteIntegrated) &&
      (!(IsIntegrated(x.path, s) && !deleteIntegrated) ==>
        if x.isEnable then x in pl.enabledToDelete else x in pl.toDelete)
  {
    var ps := KeysInOrder(mods, ModPath);
    PlanPathsMember(NoPlan, ps, mods, deleteIntegrated, s, x);
    AtPathMember(mods, x.path, x);
    assert x.path in ps && x in AtPath(mods, x.path);
    forall p | p in ps && SkipsAt(mods, deleteIntegrated, s, p, x) ensures p == x.path {
      AtPathMember(mods, p, x);
    }
  }

  /** With `deleteIntegratedPackage`, every unselected mod of an integrated package among the
    * selected paths is deleted with it, in the list its enabled state picks. */
  lemma OtherModPlanned(mods: seq<Mod>, s: Services, p: string, x: Mod)
    requires p in KeysInOrder(mods, ModPath) && IsIntegrated(p, s)
    requires x in s.modsByPath(p) && x !in AtPath(mods, p)
    ensures var pl := MakePlan(mods, true, s);
      if x.isEnable then x in pl.enabledToDelete else x in pl.toDelete
  {
    PlanPathsMember(NoPlan, KeysInOrder(mods, ModPath), mods, true, s, x);
    assert DeletesAt(mods, true, s, p, x);
  }

  /** Nothing but selected mods is skipped, and the two delete lists split by enabled state. */
  lemma PlanLists(mods: seq<Mod>, deleteIntegrated: bool, s: Services, x: Mod)
    ensures var pl := MakePlan(mods, deleteIntegrated, s);
      (x in pl.skipped ==> x in mods && IsIntegrated(x.path, s) && !deleteIntegrated) &&
      (x in pl.enabledToDelete ==> x.isEnable) &&
      (x in pl.toDelete ==> !x.isEnable)
  {
    var ps := KeysInOrder(mods, ModPath);
    PlanPathsMember(NoPlan, ps, mods, deleteIntegrated, s, x);
    if x in MakePlan(mods, deleteIntegrated, s).skipped {
      var p :| p in ps && SkipsAt(mods, deleteIntegrated, s, p, x);
      AtPathMember(mods, p, x);
    }
  }

  // ---------------------------------------------------------------------------------------
  // Deleting: one file-service call per distinct path
  // ---------------------------------------------------------------------------------------

  /** Each mod of `ms` paired with the error `e`. */
  function Failures(ms: seq<Mod>, e: AppError): seq<(Mod, AppError)>
  {
    Map(ms, (m: Mod) => (m, e))
  }

  lemma FailuresMember(ms: seq<Mod>, e: AppError, x: Mod, e': AppError)
    ensures (x, e') in Failures(ms, e) <==> x in ms && e' == e
  {
    var f := Failures(ms, e);
    if x in ms && e' == e {
      var i :| 0 <= i < |ms| && ms[i] == x;
      assert f[i] == (x, e);
    }
  }

  /** One path of the deletion loop, with the mods to delete there: a failed file delete fails
    * every one of them; after a successful one the disabled mods leave the database (or fail
    * with a database error) and the enabled ones are only reported. */
  function DeleteAt(r: DeleteResult, group: seq<Mod>, p: string, s: Services): DeleteResult
  {
    match s.deleteFile(p)
    case None =>
      var enabledMods := Filter(group, IsEnabled);
      var disabledMods := Filter(group, IsDisabled);
      var r1 :=
        if disabledMods == [] then r
        else if s.deleteAllSucceeds(disabledMods) then r.(deletedMods := r.deletedMods + disabledMods)
        else r.(failedMods := r.failedMods + Failures(disabledMods, DatabaseDeleteFailed));
      r1.(deletedEnabledMods := r1.deletedEnabledMods + enabledMods)
    case Some(e) =>
      r.(failedMods := r.failedMods + Failures(group, e))
  }

  function DeleteGroups(r: DeleteResult, all: seq<Mod>, ps: seq<string>, s: Services): DeleteResult
  {
    if ps == [] then r
    else
      var p := ps[|ps| - 1];
      DeleteAt(DeleteGroups(r, all, ps[..|ps| - 1], s), AtPath(all, p), p, s)
  }

  lemma {:induction false} DeleteGroupsSkipped(r: DeleteResult, all: seq<Mod>, ps: seq<string>, s: Services)
    ensures DeleteGroups(r, all, ps, s).skippedIntegratedMods == r.skippedIntegratedMods
  {
    if ps != [] {
      DeleteGroupsSkipped(r, all, ps[..|ps| - 1], s);
    }
  }

  /** The disabled mods at the path of `x` among `all`, the list handed to `deleteAll`. */
  function DisabledAt(all: seq<Mod>, p: string): seq<Mod>
  {
    Filter(AtPath(all, p), IsDisabled)
  }

  predicate DeletedAt(all: seq<Mod>, p: string, s: Services, x: Mod)
  {
    x in AtPath(all, p) && !x.isEnable && s.deleteFile(p) == None && s.deleteAllSucceeds(DisabledAt(all, p))
  }

  predicate DeletedEnabledAt(all: seq<Mod>, p: string, s: Services, x: Mod)
  {
    x in AtPath(all, p) && x.isEnable && s.deleteFile(p) == None
  }

  predicate FailsAt(all: seq<Mod>, p: string, s: Services, x: Mod, e: AppError)
  {
    x in AtPath(all, p) &&
    (s.deleteFile(p) == Some(e) ||
     (s.deleteFile(p) == None && !x.isEnable && !s.deleteAllSucceeds(DisabledAt(all, p)) && e == DatabaseDeleteFailed))
  }

  lemma DeleteAtMember(r: DeleteResult, all: seq<Mod>, p: string, s: Services, x: Mod, e: AppError)
    ensures var r' := DeleteAt(r, AtPath(all, p), p, s);
      r'.skippedIntegratedMods == r.skippedIntegratedMods &&
      (x in r'.deletedMods <==> x in r.deletedMods || DeletedAt(all, p, s, x)) &&
      (x in r'.deletedEnabledMods <==> x in r.deletedEnabledMods || DeletedEnabledAt(all, p, s, x)) &&
      ((x, e) in r'.failedMods <==> (x, e) in r.failedMods || FailsAt(all, p, s, x, e))
  {
    var group := AtPath(all, p);
    FailuresMember(group, e, x, e);
    if s.deleteFile(p).Some? {
      FailuresMember(group, s.deleteFile(p).value, x, e);
    }
    FailuresMember(Filter(group, IsDisabled), DatabaseDeleteFailed, x, e);
  }

  lemma {:induction false} DeleteGroupsMember(r: DeleteResult, all: seq<Mod>, ps: seq<string>, s: Services, x: Mod, e: AppError)
    ensures var r' := DeleteGroups(r, all, ps, s);
      r'.skippedIntegratedMods == r.skippedIntegratedMods &&
      (x in r'.deletedMods <==> x in r.deletedMods || exists p :: DeletedAt(all, p, s, x) && p in ps) &&
      (x in r'.deletedEnabledMods <==> x in r.deletedEnabledMods || exists p :: DeletedEnabledAt(all, p, s, x) && p in ps) &&
      ((x, e) in r'.failedMods <==> (x, e) in r.failedMods || exists p :: p in ps && FailsAt(all, p, s, x, e))
  {
    if ps != [] {
      var front := ps[..|ps| - 1];
      DeleteGroupsMember(r, all, front, s, x, e);
      DeleteAtMember(DeleteGroups(r, all, front, s), all, ps[|ps| - 1], s, x, e);
      SnocSplit(ps);
    }
  }

  /** Where each mod handed to the deletion step ends up, by the answer of the file service at
    * its path and of the database: nothing else is reported. */
  lemma DeletionMeaning(r: DeleteResult, all: seq<Mod>, s: Services, x: Mod, e: AppError)
    ensures var r' := DeleteGroups(r, all, KeysInOrder(all, ModPath), s);
      r'.skippedIntegratedMods == r.skippedIntegratedMods &&
      (x in r'.deletedMods <==>
        x in r.deletedMods || (x in all && !x.isEnable && s.deleteFile(x.path) == None && s.deleteAllSucceeds(DisabledAt(all, x.path)))) &&
      (x in r'.deletedEnabledMods <==>
        x in r.deletedEnabledMods || (x in all && x.isEnable && s.deleteFile(x.path) == None)) &&
      ((x, e) in r'.failedMods <==>
        (x, e) in r.failedMods || (x in all && FailsAt(all, x.path, s, x, e)))
  {
    var ps := KeysInOrder(all, ModPath);
    DeleteGroupsMember(r, all, ps, s, x, e);
    AtPathMember(all, x.path, x);
    forall p | p in ps ensures x in AtPath(all, p) <==> x in all && p == x.path {
      AtPathMember(all, p, x);
    }
    if x in all {
      assert x.path in ps && x in AtPath(all, x.path);
    }
  }

  /** The paths the deletion step hands to the file service: each path of a mod to delete,
    * once. */
  lemma EachPathOnce(all: seq<Mod>, p: string)
    ensures Distinct(KeysInOrder(all, ModPath))
    ensures p in KeysInOrder(all, ModPath) <==> exists x :: x in all && x.path == p
  {
  }

  // ---------------------------------------------------------------------------------------
  // execute
  // ---------------------------------------------------------------------------------------

  /** The final state of `execute`. */
  function ExecuteSpec(modToDelete: seq<Mod>, deleteIntegrated: bool, s: Services): DeleteState
  {
    var mods := Refetched(modToDelete, s);
    if mods == [] then Success(NothingDeleted)
    else if !s.hasStoragePermission then Error(StoragePermissionDenied)
    else
      var pl := MakePlan(mods, deleteIntegrated, s);
      var start := NothingDeleted.(skippedIntegratedMods := pl.skipped);
      if pl.toDelete == [] && pl.enabledToDelete == [] then Success(start)
      else
        var all := pl.toDelete + pl.enabledToDelete;
        Success(DeleteGroups(start, all, KeysInOrder(all, ModPath), s))
  }

  /** The outcome of a whole run: an empty re-fetched list deletes nothing, a missing permission
    * is the only error, a run never reports a cancellation, and a success carries the skipped
    * mods of the filtering step. */
  lemma ExecuteOutcome(modToDelete: seq<Mod>, deleteIntegrated: bool, s: Services)
    ensures var st := ExecuteSpec(modToDelete, deleteIntegrated, s);
      var mods := Refetched(modToDelete, s);
      var pl := MakePlan(mods, deleteIntegrated, s);
      !st.Cancel? &&
      (mods == [] ==> st == Success(NothingDeleted)) &&
      (st.Error? <==> mods != [] && !s.hasStoragePermission) &&
      (st.Error? ==> st.error == StoragePermissionDenied) &&
      (st.Success? && mods != [] ==> st.result.skippedIntegratedMods == pl.skipped) &&
      (st.Success? && mods != [] && pl.toDelete == [] && pl.enabledToDelete == [] ==>
        st.result == NothingDeleted.(skippedIntegratedMods := pl.skipped))
  {
    var mods := Refetched(modToDelete, s);
    if mods != [] && s.hasStoragePermission {
      var pl := MakePlan(mods, deleteIntegrated, s);
      var all := pl.toDelete + pl.enabledToDelete;
      DeleteGroupsSkipped(NothingDeleted.(skippedIntegratedMods := pl.skipped), all, KeysInOrder(all, ModPath), s);
    }
  }

  // ---------------------------------------------------------------------------------------
  // checkBeforeDelete and its result
  // ---------------------------------------------------------------------------------------

  /** `IntegratedPackageInfo`. */
  datatype IntegratedPackageInfo = IntegratedPackageInfo(
    name: string,
    path: string,
    selectedMods: seq<Mod>,
    otherMods: seq<Mod>,
    enabledMods: seq<Mod>,
    totalCount: int)

  /** `DeleteCheckResult`. */
  datatype DeleteCheckResult = DeleteCheckResult(
    selectedMods: seq<Mod>,
    singleMods: seq<Mod>,
    singleEnabledMods: seq<Mod>,
    integratedPackages: seq<IntegratedPackageInfo>,
    hasEnabledMods: bool)

  /** No selected mod carries the id of `m`. */
  predicate NoneWithId(selected: seq<Mod>, m: Mod)
  {
    forall i :: 0 <= i < |selected| ==> selected[i].id != m.id
  }

  /** The mods at a package's path that are not selected, compared by id. */
  function OtherMods(all: seq<Mod>, selected: seq<Mod>): seq<Mod>
  {
    Filter(all, m => NoneWithId(selected, m))
  }

  /** The package record for a path with more than one mod. */
  function PackageInfo(p: string, all: seq<Mod>, selected: seq<Mod>): IntegratedPackageInfo
  {
    IntegratedPackageInfo(JavaFile.Name(p), p, selected, OtherMods(all, selected), Filter(all, IsEnabled), |all|)
  }

  /** One distinct path of the check loop. */
  function CheckPath(acc: DeleteCheckResult, p: string, all: seq<Mod>, selected: seq<Mod>): DeleteCheckResult
    requires selected != []
  {
    if |all| > 1 then
      var info := PackageInfo(p, all, selected);
      acc.(integratedPackages := acc.integratedPackages + [info],
           hasEnabledMods := acc.hasEnabledMods || info.enabledMods != [])
    else if Any(selected, IsEnabled) then
      acc.(singleEnabledMods := acc.singleEnabledMods + [selected[0]], hasEnabledMods := true)
    else
      acc.(singleMods := acc.singleMods + [selected[0]])
  }

  function CheckPaths(acc: DeleteCheckResult, ps: seq<string>, mods: seq<Mod>, s: Services): DeleteCheckResult
    requires forall p :: p in ps ==> p in KeysInOrder(mods, ModPath)
  {
    if ps == [] then acc
    else
      var p := ps[|ps| - 1];
      AtPathKey(mods, p);
      CheckPath(CheckPaths(acc, ps[..|ps| - 1], mods, s), p, s.modsByPath(p), AtPath(mods, p))
  }

  /** The result of `checkBeforeDelete`. */
  function CheckSpec(mods: seq<Mod>, s: Services): DeleteCheckResult
  {
    if mods == [] then DeleteCheckResult([], [], [], [], false)
    else CheckPaths(DeleteCheckResult(mods, [], [], [], false), KeysInOrder(mods, ModPath), mods, s)
  }

  function InfoPath(info: IntegratedPackageInfo): string { info.path }

  /** Whether the path's mod counts as enabled in the check: any enabled mod at a package's
    * path, or any enabled selected mod at a single-mod path. */
  predicate EnabledAtPath(mods: seq<Mod>, s: Services, p: string)
  {
    if IsIntegrated(p, s) then Any(s.modsByPath(p), IsEnabled) else Any(AtPath(mods, p), IsEnabled)
  }

  /** `x` is the mod a single-mod path `p` contributes, to the enabled list or to the other. */
  predicate SingleAt(mods: seq<Mod>, s: Services, p: string, enabled: bool, x: Mod)
  {
    var selected := AtPath(mods, p);
    !IsIntegrated(p, s) && selected != [] && Any(selected, IsEnabled) == enabled && x == selected[0]
  }

  lemma CheckPathsSnoc(acc: DeleteCheckResult, ps: seq<string>, mods: seq<Mod>, s: Services)
    requires ps != [] && forall p :: p in ps ==> p in KeysInOrder(mods, ModPath)
    ensures var p := ps[|ps| - 1];
      AtPath(mods, p) != [] &&
      CheckPaths(acc, ps, mods, s) == CheckPath(CheckPaths(acc, ps[..|ps| - 1], mods, s), p, s.modsByPath(p), AtPath(mods, p))
  {
    AtPathKey(mods, ps[|ps| - 1]);
  }

  lemma CheckPathSingle(prev: DeleteCheckResult, p: string, all: seq<Mod>, selected: seq<Mod>, enabled: bool, x: Mod)
    requires selected != []
    ensures x in SingleList(CheckPath(prev, p, all, selected), enabled) <==>
      x in SingleList(prev, enabled) || (|all| <= 1 && Any(selected, IsEnabled) == enabled && x == selected[0])
  {
  }

  /** The paths of `ps` that are integrated packages. */
  function IntegratedPaths(ps: seq<string>, s: Services): seq<string>
  {
    Filter(ps, (p: string) => IsIntegrated(p, s))
  }

  lemma IntegratedPathsSnoc(ps: seq<string>, s: Services)
    requires ps != []
    ensures var p := ps[|ps| - 1];
      IntegratedPaths(ps, s) == IntegratedPaths(ps[..|ps| - 1], s) + if IsIntegrated(p, s) then [p] else []
  {
    var p := ps[|ps| - 1];
    SnocSplit(ps);
    FilterConcat(ps[..|ps| - 1], [p], (q: string) => IsIntegrated(q, s));
    assert Filter([p], (q: string) => IsIntegrated(q, s)) == if IsIntegrated(p, s) then [p] else [];
  }

  lemma AnyEnabled(ms: seq<Mod>)
    ensures Filter(ms, IsEnabled) != [] <==> Any(ms, IsEnabled)
  {
    if Any(ms, IsEnabled) {
      var i :| 0 <= i < |ms| && IsEnabled(ms[i]);
      assert ms[i] in Filter(ms, IsEnabled);
    }
  }

  /** The check loop lists one package per integrated path, in path order. */
  lemma {:induction false} CheckPathsPackages(acc: DeleteCheckResult, ps: seq<string>, mods: seq<Mod>, s: Services)
    requires forall p :: p in ps ==> p in KeysInOrder(mods, ModPath)
    ensures var r := CheckPaths(acc, ps, mods, s);
      r.selectedMods == acc.selectedMods &&
      Map(r.integratedPackages, InfoPath) == Map(acc.integratedPackages, InfoPath) + IntegratedPaths(ps, s)
  {
    if ps != [] {
      var front := ps[..|ps| - 1];
      var p := ps[|ps| - 1];
      CheckPathsPackages(acc, front, mods, s);
      IntegratedPathsSnoc(ps, s);
      CheckPathsSnoc(acc, ps, mods, s);
      var prev := CheckPaths(acc, front, mods, s);
      var r := CheckPath(prev, p, s.modsByPath(p), AtPath(mods, p));
      if IsIntegrated(p, s) {
        var info := PackageInfo(p, s.modsByPath(p), AtPath(mods, p));
        assert r.integratedPackages == prev.integratedPackages + [info];
        MapSnoc(prev.integratedPackages, info, InfoPath);
        assert Map(r.integratedPackages, InfoPath) == Map(prev.integratedPackages, InfoPath) + [p];
      } else {
        assert r.integratedPackages == prev.integratedPackages;
      }
      var tail: seq<string> := if IsIntegrated(p, s) then [p] else [];
      assert Map(acc.integratedPackages, InfoPath) + IntegratedPaths(ps, s) ==
        (Map(acc.integratedPackages, InfoPath) + IntegratedPaths(front, s)) + tail;
    }
  }

  /** Each package record of the check describes the mods at its own path. */
  lemma {:induction false} CheckPathsDescribed(acc: DeleteCheckResult, ps: seq<string>, mods: seq<Mod>, s: Services)
    requires forall p :: p in ps ==> p in KeysInOrder(mods, ModPath)
    requires forall i :: 0 <= i < |acc.integratedPackages| ==> Describes(acc.integratedPackages[i], mods, s)
    ensures var r := CheckPaths(acc, ps, mods, s);
      forall i :: 0 <= i < |r.integratedPackages| ==> Describes(r.integratedPackages[i], mods, s)
  {
    if ps != [] {
      var front := ps[..|ps| - 1];
      var p := ps[|ps| - 1];
      CheckPathsDescribed(acc, front, mods, s);
      CheckPathsSnoc(acc, ps, mods, s);
      var prev := CheckPaths(acc, front, mods, s);
      var r := CheckPath(prev, p, s.modsByPath(p), AtPath(mods, p));
      if IsIntegrated(p, s) {
        var info := PackageInfo(p, s.modsByPath(p), AtPath(mods, p));
        assert r.integratedPackages == prev.integratedPackages + [info];
        assert Describes(info, mods, s);
        forall i | 0 <= i < |r.integratedPackages| ensures Describes(r.integratedPackages[i], mods, s) {
          if i < |prev.integratedPackages| {
            assert r.integratedPackages[i] == prev.integratedPackages[i];
          }
        }
      } else {
        assert r.integratedPackages == prev.integratedPackages;
      }
    }
  }

  /** A package record as the check builds it for its path. */
  predicate Describes(info: IntegratedPackageInfo, mods: seq<Mod>, s: Services)
  {
    info == PackageInfo(info.path, s.modsByPath(info.path), AtPath(mods, info.path))
  }

  /** `singleEnabledMods` or `singleMods`. */
  function SingleList(r: DeleteCheckResult, enabled: bool): seq<Mod>
  {
    if enabled then r.singleEnabledMods else r.singleMods
  }

  /** The check loop's single-mod lists: the first selected mod of each single-mod path, in the
    * enabled list exactly when some selected mod there is enabled. */
  lemma {:induction false} CheckPathsSingles(acc: DeleteCheckResult, ps: seq<string>, mods: seq<Mod>, s: Services, enabled: bool, x: Mod)
    requires forall p :: p in ps ==> p in KeysInOrder(mods, ModPath)
    ensures x in SingleList(CheckPaths(acc, ps, mods, s), enabled) <==>
      x in SingleList(acc, enabled) || exists p :: p in ps && SingleAt(mods, s, p, enabled, x)
  {
    if ps != [] {
      var front := ps[..|ps| - 1];
      var p := ps[|ps| - 1];
      CheckPathsSingles(acc, front, mods, s, enabled, x);
      SnocSplit(ps);
      CheckPathsSnoc(acc, ps, mods, s);
      var prev := CheckPaths(acc, front, mods, s);
      CheckPathSingle(prev, p, s.modsByPath(p), AtPath(mods, p), enabled, x);
      assert x in SingleList(CheckPaths(acc, ps, mods, s), enabled) <==>
        x in SingleList(prev, enabled) || SingleAt(mods, s, p, enabled, x);
      SomePathSnoc(ps, mods, s, enabled, x);
    }
  }

  lemma SomePathSnoc(ps: seq<string>, mods: seq<Mod>, s: Services, enabled: bool, x: Mod)
    requires ps != []
    ensures (exists q :: q in ps && SingleAt(mods, s, q, enabled, x)) <==>
      (exists q :: q in ps[..|ps| - 1] && SingleAt(mods, s, q, enabled, x)) || SingleAt(mods, s, ps[|ps| - 1], enabled, x)
  {
    var front := ps[..|ps| - 1];
    SnocSplit(ps);
    if exists q :: q in ps && SingleAt(mods, s, q, enabled, x) {
      var q :| q in ps && SingleAt(mods, s, q, enabled, x);
      if q != ps[|ps| - 1] {
        assert q in front;
      }
    }
  }

  /** `hasEnabledMods` is set exactly when some path has an enabled mod as the check counts it. */
  lemma {:induction false} CheckPathsFlag(acc: DeleteCheckResult, ps: seq<string>, mods: seq<Mod>, s: Services)
    requires forall p :: p in ps ==> p in KeysInOrder(mods, ModPath)
    ensures CheckPaths(acc, ps, mods, s).hasEnabledMods <==>
      acc.hasEnabledMods || exists p :: p in ps && EnabledAtPath(mods, s, p)
  {
    if ps != [] {
      var front := ps[..|ps| - 1];
      var p := ps[|ps| - 1];
      CheckPathsFlag(acc, front, mods, s);
      SnocSplit(ps);
      CheckPathsSnoc(acc, ps, mods, s);
      AnyEnabled(s.modsByPath(p));
      var prev := CheckPaths(acc, front, mods, s);
      var r := CheckPath(prev, p, s.modsByPath(p), AtPath(mods, p));
      assert r.hasEnabledMods <==> prev.hasEnabledMods || EnabledAtPath(mods, s, p);
      if exists q :: q in ps && EnabledAtPath(mods, s, q) {
        var q :| q in ps && EnabledAtPath(mods, s, q);
        if q != p {
          assert q in front;
        }
      }
    }
  }

  /** `otherMods` of a package: its mods whose id no selected mod carries. */
  lemma OtherModsMeaning(all: seq<Mod>, selected: seq<Mod>, x: Mod)
    ensures x in OtherMods(all, selected) <==> x in all && forall y :: y in selected ==> y.id != x.id
  {
    assert NoneWithId(selected, x) <==> forall y :: y in selected ==> y.id != x.id;
  }

  /** A package record names its file, counts all its mods and lists its enabled ones. */
  lemma PackageInfoMeaning(p: string, all: seq<Mod>, selected: seq<Mod>, x: Mod)
    ensures var info := PackageInfo(p, all, selected);
      info.name == JavaFile.Name(p) && info.totalCount == |all| &&
      (x in info.enabledMods <==> x in all && x.isEnable)
  {
  }

  /** `hasIntegratedPackages`. */
  function HasIntegratedPackages(r: DeleteCheckResult): bool
  {
    r.integratedPackages != []
  }

  /** `otherModsCount`: the unselected mods of all packages together. */
  function OtherModsCount(ps: seq<IntegratedPackageInfo>): int
  {
    if ps == [] then 0 else OtherModsCount(ps[..|ps| - 1]) + |ps[|ps| - 1].otherMods|
  }

  /** The enabled mods of all packages, one package after the other (`flatMap`). */
  function PackageEnabledMods(ps: seq<IntegratedPackageInfo>): seq<Mod>
  {
    if ps == [] then [] else PackageEnabledMods(ps[..|ps| - 1]) + ps[|ps| - 1].enabledMods
  }

  /** `allEnabledMods`. */
  function AllEnabledMods(r: DeleteCheckResult): seq<Mod>
  {
    DistinctBy(PackageEnabledMods(r.integratedPackages), ModId) + r.singleEnabledMods
  }

  lemma {:induction false} PackageEnabledMember(ps: seq<IntegratedPackageInfo>, x: Mod)
    ensures x in PackageEnabledMods(ps) <==> exists i :: 0 <= i < |ps| && x in ps[i].enabledMods
  {
    if ps != [] {
      var front := ps[..|ps| - 1];
      PackageEnabledMember(front, x);
      if exists i :: 0 <= i < |ps| && x in ps[i].enabledMods {
        var i :| 0 <= i < |ps| && x in ps[i].enabledMods;
        if i < |front| {
          assert ps[i] == front[i];
        }
      }
      if exists i :: 0 <= i < |front| && x in front[i].enabledMods {
        var i :| 0 <= i < |front| && x in front[i].enabledMods;
        assert ps[i] == front[i];
      }
    }
  }

  /** `allEnabledMods` holds the packages' enabled mods, one per id and by first occurrence,
    * with every id of them present, followed by the single enabled mods. */
  lemma AllEnabledModsMeaning(r: DeleteCheckResult, x: Mod)
    ensures var all := AllEnabledMods(r);
      var pkg := DistinctBy(PackageEnabledMods(r.integratedPackages), ModId);
      all == pkg + r.singleEnabledMods &&
      Distinct(Map(pkg, ModId)) &&
      ((exists i :: 0 <= i < |r.integratedPackages| && x in r.integratedPackages[i].enabledMods) ==>
        exists y :: y in pkg && y.id == x.id) &&
      (x in pkg ==> exists i :: 0 <= i < |r.integratedPackages| && x in r.integratedPackages[i].enabledMods)
  {
    var flat := PackageEnabledMods(r.integratedPackages);
    var pkg := DistinctBy(flat, ModId);
    PackageEnabledMember(r.integratedPackages, x);
    if x in flat {
      assert ModId(x) in KeysInOrder(flat, ModId);
      assert ModId(x) in Map(pkg, ModId);
      var i :| 0 <= i < |pkg| && Map(pkg, ModId)[i] == x.id;
      assert pkg[i] in pkg && pkg[i].id == x.id;
    }
    if x in pkg {
      var i :| 0 <= i < |pkg| && pkg[i] == x;
      assert EarliestWithKey(flat, ModId, x);
    }
  }

  /** `packageName`: the last segment of the path without its extension. */
  function PackageName(info: IntegratedPackageInfo): string
  {
    var last := SubstringAfterLast(info.path, '/', info.path);
    SubstringBeforeLast(last, '.', last)
  }

  /** The package name holds no '/', and is the last segment of the path when that has no
    * '.'; otherwise the segment is the name, a '.' and a '.'-free extension. */
  lemma PackageNameMeaning(info: IntegratedPackageInfo)
    ensures var last := SubstringAfterLast(info.path, '/', info.path);
      '/' !in PackageName(info) &&
      (LastIndexOf(info.path, '/') >= 0 ==> info.path == SubstringBeforeLast(info.path, '/', info.path) + "/" + last) &&
      ('.' !in last ==> PackageName(info) == last) &&
      ('.' in last ==> exists ext :: '.' !in ext && last == PackageName(info) + "." + ext)
  {
    var last := SubstringAfterLast(info.path, '/', info.path);
    if LastIndexOf(info.path, '/') >= 0 {
      LastSplit(info.path, '/');
    } else {
      assert forall j :: 0 <= j < |info.path| ==> info.path[j] != '/';
    }
    assert '/' !in last;
    if '.' !in last {
      NoCharLastIndex(last, '.');
    } else {
      var i := LastIndexOf(last, '.');
      assert i >= 0 by {
        var k :| 0 <= k < |last| && last[k] == '.';
      }
      LastSplit(last, '.');
      var ext := SubstringAfterLast(last, '.', last);
      assert last == PackageName(info) + "." + ext;
    }
    var i := LastIndexOf(last, '.');
    assert forall j :: 0 <= j < |PackageName(info)| ==> PackageName(info)[j] == last[j];
  }

  // ---------------------------------------------------------------------------------------
  // The use case
  // ---------------------------------------------------------------------------------------

  /** `DeleteModsUseCase` with its cancel flag. `cancel()` sets it and `execute` clears it on
    * entry; with no other task running in between, its checks never see it set. */
  class DeleteModsUseCase {
    var isCanceled: bool

    constructor()
      ensures !isCanceled
    {
      isCanceled := false;
    }

    method Cancel()
      modifies this
      ensures isCanceled
    {
      isCanceled := true;
    }

    /** `execute`: the final state as `ExecuteSpec` gives it, with the flag cleared. */
    method Execute(modToDelete: seq<Mod>, deleteIntegratedPackage: bool, s: Services) returns (state: DeleteState)
      modifies this
      ensures !isCanceled
      ensures state == ExecuteSpec(modToDelete, deleteIntegratedPackage, s)
    {
      isCanceled := false;
      var mods := Refetched(modToDelete, s);
      if mods == [] {
        return Success(NothingDeleted);
      }
      if !s.hasStoragePermission {
        return Error(StoragePermissionDenied);
      }
      var pl := Filtering(mods, deleteIntegratedPackage, s);
      var start := NothingDeleted.(skippedIntegratedMods := pl.skipped);
      if pl.toDelete == [] && pl.enabledToDelete == [] {
        return Success(start);
      }
      var result := Deleting(start, pl.toDelete + pl.enabledToDelete, s);
      return Success(result);
    }

    /** The filtering loop over the distinct paths of the selected mods. */
    static method Filtering(mods: seq<Mod>, deleteIntegratedPackage: bool, s: Services) returns (pl: Plan)
      ensures pl == MakePlan(mods, deleteIntegratedPackage, s)
    {
      var distinctPaths := KeysInOrder(mods, ModPath);
      pl := NoPlan;
      for i := 0 to |distinctPaths|
        invariant pl == PlanPaths(NoPlan, distinctPaths[..i], mods, deleteIntegratedPackage, s)
      {
        PrefixSnoc(distinctPaths, i);
        var path := distinctPaths[i];
        var allModsAtPath := s.modsByPath(path);
        var selectedModsAtPath := AtPath(mods, path);
        var isIntegratedPackage := |allModsAtPath| > 1;
        pl := ClassifySelected(pl, selectedModsAtPath, isIntegratedPackage && !deleteIntegratedPackage);
        if isIntegratedPackage && deleteIntegratedPackage {
          pl := AddUnselected(pl, allModsAtPath, selectedModsAtPath);
        }
      }
      assert distinctPaths[..|distinctPaths|] == distinctPaths;
    }

    static method ClassifySelected(pl0: Plan, selected: seq<Mod>, skip: bool) returns (pl: Plan)
      ensures pl == ClassifyAll(pl0, selected, skip)
    {
      pl := pl0;
      for i := 0 to |selected|
        invariant pl == ClassifyAll(pl0, selected[..i], skip)
      {
        PrefixSnoc(selected, i);
        var mod := selected[i];
        if skip {
          pl := pl.(skipped := pl.skipped + [mod]);
        } else if mod.isEnable {
          pl := pl.(enabledToDelete := pl.enabledToDelete + [mod]);
        } else {
          pl := pl.(toDelete := pl.toDelete + [mod]);
        }
      }
      assert selected[..|selected|] == selected;
    }

    static method AddUnselected(pl0: Plan, allModsAtPath: seq<Mod>, selected: seq<Mod>) returns (pl: Plan)
      ensures pl == AddOthers(pl0, allModsAtPath, selected)
    {
      pl := pl0;
      for i := 0 to |allModsAtPath|
        invariant pl == AddOthers(pl0, allModsAtPath[..i], selected)
      {
        PrefixSnoc(allModsAtPath, i);
        var mod := allModsAtPath[i];
        if mod !in selected {
          if mod.isEnable {
            if mod !in pl.enabledToDelete {
              pl := pl.(enabledToDelete := pl.enabledToDelete + [mod]);
            }
          } else if mod !in pl.toDelete {
            pl := pl.(toDelete := pl.toDelete + [mod]);
          }
        }
      }
      assert allModsAtPath[..|allModsAtPath|] == allModsAtPath;
    }

    /** The deletion loop: one file-service call per distinct path of the mods to delete. */
    static method Deleting(start: DeleteResult, all: seq<Mod>, s: Services) returns (r: DeleteResult)
      ensures r == DeleteGroups(start, all, KeysInOrder(all, ModPath), s)
    {
      var paths := KeysInOrder(all, ModPath);
      r := start;
      for i := 0 to |paths|
        invariant r == DeleteGroups(start, all, paths[..i], s)
      {
        PrefixSnoc(paths, i);
        var path := paths[i];
        var modsAtPath := AtPath(all, path);
        match s.deleteFile(path) {
          case None =>
            var enabledMods := Filter(modsAtPath, IsEnabled);
            var disabledMods := Filter(modsAtPath, IsDisabled);
            if disabledMods != [] {
              if s.deleteAllSucceeds(disabledMods) {
                r := r.(deletedMods := r.deletedMods + disabledMods);
              } else {
                r := r.(failedMods := r.failedMods + Failures(disabledMods, DatabaseDeleteFailed));
              }
            }
            r := r.(deletedEnabledMods := r.deletedEnabledMods + enabledMods);
          case Some(e) =>
            r := r.(failedMods := r.failedMods + Failures(modsAtPath, e));
        }
      }
      assert paths[..|paths|] == paths;
    }

    /** `checkBeforeDelete`: the result as `CheckSpec` gives it. */
    method CheckBeforeDelete(mods: seq<Mod>, s: Services) returns (r: DeleteCheckResult)
      ensures r == CheckSpec(mods, s)
    {
      if mods == [] {
        return DeleteCheckResult([], [], [], [], false);
      }
      var distinctPaths := KeysInOrder(mods, ModPath);
      var integratedPackages: seq<IntegratedPackageInfo> := [];
      var singleMods: seq<Mod> := [];
      var singleEnabledMods: seq<Mod> := [];
      var hasEnabledMods := false;
      for i := 0 to |distinctPaths|
        invariant DeleteCheckResult(mods, singleMods, singleEnabledMods, integratedPackages, hasEnabledMods)
          == CheckPaths(DeleteCheckResult(mods, [], [], [], false), distinctPaths[..i], mods, s)
      {
        PrefixSnoc(distinctPaths, i);
        var path := distinctPaths[i];
        var allModsAtPath := s.modsByPath(path);
        var selectedModsAtPath := AtPath(mods, path);
        AtPathKey(mods, path);
        if |allModsAtPath| > 1 {
          var otherMods := OtherMods(allModsAtPath, selectedModsAtPath);
          var enabledMods := Filter(allModsAtPath, IsEnabled);
          if enabledMods != [] {
            hasEnabledMods := true;
          }
          integratedPackages := integratedPackages + [IntegratedPackageInfo(
            JavaFile.Name(path), path, selectedModsAtPath, otherMods, enabledMods, |allModsAtPath|)];
        } else {
          if Any(selectedModsAtPath, IsEnabled) {
            hasEnabledMods := true;
            singleEnabledMods := singleEnabledMods + [selectedModsAtPath[0]];
          } else {
            singleMods := singleMods + [selectedModsAtPath[0]];
          }
        }
      }
      assert distinctPaths[..|distinctPaths|] == distinctPaths;
      r := DeleteCheckResult(mods, singleMods, singleEnabledMods, integratedPackages, hasEnabledMods);
    }
  }
}
