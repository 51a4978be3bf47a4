/**
 * `ModernModListViewModel`: the list state it derives from the game's mods, its multi-select
 * state machine, its navigation events and its scroll-position cache. The selection is a
 * Kotlin `Set<Int>`, which keeps insertion order, so it is a sequence without repeats here.
 */
module ModList {
  import opened Wrappers
  import opened Lists
  import opened DomainMod

  datatype ModListFilter = All | Enable | Disable

  datatype NavigationEvent = NavigateBack | NavigateToBrowser(path: Option<string>) | NavigateToList

  function ModDate(m: Mod): int { m.date }

  function ModId(m: Mod): int { m.id }

  predicate IsEnabled(m: Mod) { m.isEnable }

  predicate IsDisabled(m: Mod) { !m.isEnable }

  /** The state the screen shows. */
  datatype ModListUiState = ModListUiState(
    modList: seq<Mod>,
    enableModList: seq<Mod>,
    disableModList: seq<Mod>,
    isMultiSelect: bool,
    modsSelected: seq<int>,
    isLoading: bool,
    modSwitchEnable: bool,
    filter: ModListFilter,
    isBrowser: bool)

  /** The combination of the game's mods, the internal state and the "category view"
    * preference: the mods newest first, split by whether they are enabled. */
  function UiStateOf(allMods: seq<Mod>, isMultiSelect: bool, modsSelected: seq<int>, modSwitchEnable: bool,
                     filter: ModListFilter, showCategoryView: bool): ModListUiState
  {
    var sortedMods := SortedByDescending(allMods, ModDate);
    ModListUiState(sortedMods, Filter(sortedMods, IsEnabled), Filter(sortedMods, IsDisabled),
                   isMultiSelect, modsSelected, false, modSwitchEnable, filter, showCategoryView)
  }

  /** The shown list holds every mod once, newest first; the enabled and disabled lists split it
    * between them, each keeping its order. */
  lemma UiListsMeaning(allMods: seq<Mod>, isMultiSelect: bool, modsSelected: seq<int>, modSwitchEnable: bool,
                       filter: ModListFilter, showCategoryView: bool, m: Mod)
    ensures var u := UiStateOf(allMods, isMultiSelect, modsSelected, modSwitchEnable, filter, showCategoryView);
      IsDescending(u.modList, ModDate) && multiset(u.modList) == multiset(allMods) &&
      multiset(u.enableModList) + multiset(u.disableModList) == multiset(allMods) &&
      (m in u.enableModList <==> m in allMods && m.isEnable) &&
      (m in u.disableModList <==> m in allMods && !m.isEnable) &&
      !u.isLoading
  {
    var sortedMods := SortedByDescending(allMods, ModDate);
    SortedByDescendingSorts(allMods, ModDate);
    FilterPartition(sortedMods, IsEnabled, IsDisabled);
    assert m in sortedMods <==> m in multiset(sortedMods);
  }

  /** `set + id`. */
  function Plus(sel: seq<int>, id: int): seq<int>
  {
    if id in sel then sel else sel + [id]
  }

  /** `set - id`. */
  function Minus(sel: seq<int>, id: int): seq<int>
  {
    Filter(sel, (x: int) => x != id)
  }

  /** The selection after a multi-select click on `id`. */
  function Toggle(sel: seq<int>, id: int): seq<int>
  {
    if id in sel then Minus(sel, id) else Plus(sel, id)
  }

  /** Adding and removing keep a selection free of repeats and change only the one id. */
  lemma PlusMinusMeaning(sel: seq<int>, id: int, x: int)
    requires Distinct(sel)
    ensures Distinct(Plus(sel, id)) && Distinct(Minus(sel, id))
    ensures x in Plus(sel, id) <==> x in sel || x == id
    ensures x in Minus(sel, id) <==> x in sel && x != id
  {
    FilterDistinct(sel, (y: int) => y != id);
  }

  /** A click toggles exactly the clicked id, and a second click restores the selection: the
    * very same sequence when the id was not selected, the same ids (with the id moved to the
    * end) when it was. */
  lemma ToggleTwice(sel: seq<int>, id: int, x: int)
    requires Distinct(sel)
    ensures Distinct(Toggle(sel, id))
    ensures x in Toggle(sel, id) <==> (x in sel) != (x == id)
    ensures id !in sel ==> Toggle(Toggle(sel, id), id) == sel
    ensures x in Toggle(Toggle(sel, id), id) <==> x in sel
  {
    PlusMinusMeaning(sel, id, x);
    if id !in sel {
      FilterConcat(sel, [id], (y: int) => y != id);
      FilterAll(sel, (y: int) => y != id);
      assert Filter([id], (y: int) => y != id) == [] by {
        assert [id][..0] == [];
      }
    } else {
      PlusMinusMeaning(Minus(sel, id), id, x);
    }
  }

  /** The mod of `modList` with the given id, found for a switch to `target`: it must currently
    * be in the opposite state. */
  function SwitchCandidate(modList: seq<Mod>, id: int, target: bool): Option<Mod>
  {
    Find(modList, (m: Mod) => m.id == id && m.isEnable == !target)
  }

  /** The stored position for a key, (0, 0) if none was saved. */
  function ScrollLookup(states: map<string, (int, int)>, key: string): (int, int)
  {
    if key in states then states[key] else (0, 0)
  }

  /** A saved position is what the key then returns; the other keys are unaffected. */
  lemma ScrollSaveThenGet(states: map<string, (int, int)>, key: string, index: int, offset: int, other: string)
    ensures ScrollLookup(states[key := (index, offset)], key) == (index, offset)
    ensures other != key ==> ScrollLookup(states[key := (index, offset)], other) == ScrollLookup(states, other)
    ensures other !in states ==> ScrollLookup(states, other) == (0, 0)
  {
  }

  class ModListViewModel {
    var isMultiSelect: bool
    var modsSelected: seq<int>
    var modSwitchEnable: bool
    var filter: ModListFilter
    /** The navigation events offered to the screen, oldest first. */
    var sentEvents: seq<NavigationEvent>
    var scrollStates: map<string, (int, int)>

    ghost predicate Valid()
      reads this
    {
      Distinct(modsSelected)
    }

    constructor()
      ensures Valid()
      ensures !isMultiSelect && modsSelected == [] && !modSwitchEnable && filter == All
      ensures sentEvents == [] && scrollStates == map[]
    {
      isMultiSelect := false;
      modsSelected := [];
      modSwitchEnable := false;
      filter := All;
      sentEvents := [];
      scrollStates := map[];
    }

    /** What the screen is shown for the given mods of the current game and the preference. */
    function UiState(allMods: seq<Mod>, showCategoryView: bool): ModListUiState
      reads this
    {
      UiStateOf(allMods, isMultiSelect, modsSelected, modSwitchEnable, filter, showCategoryView)
    }

    method SetFilter(f: ModListFilter)
      modifies this
      ensures filter == f
      ensures isMultiSelect == old(isMultiSelect) && modsSelected == old(modsSelected)
      ensures modSwitchEnable == old(modSwitchEnable) && sentEvents == old(sentEvents) && scrollStates == old(scrollStates)
    {
      filter := f;
    }

    /** `modLongClick`: enters multi-select with the mod selected; does nothing when already
      * selecting. */
    method ModLongClick(m: Mod)
      requires Valid()
      modifies this
      ensures Valid()
      ensures old(isMultiSelect) ==> modsSelected == old(modsSelected) && isMultiSelect
      ensures !old(isMultiSelect) ==> isMultiSelect && modsSelected == Plus(old(modsSelected), m.id)
      ensures filter == old(filter) && modSwitchEnable == old(modSwitchEnable)
      ensures sentEvents == old(sentEvents) && scrollStates == old(scrollStates)
    {
      PlusMinusMeaning(modsSelected, m.id, m.id);
      if !isMultiSelect {
        isMultiSelect := true;
        modsSelected := Plus(modsSelected, m.id);
      }
    }

    /** `modMultiSelectClick`: toggles the mod's id in the selection. */
    method ModMultiSelectClick(m: Mod)
      requires Valid()
      modifies this
      ensures Valid()
      ensures modsSelected == Toggle(old(modsSelected), m.id)
      ensures isMultiSelect == old(isMultiSelect) && filter == old(filter) && modSwitchEnable == old(modSwitchEnable)
      ensures sentEvents == old(sentEvents) && scrollStates == old(scrollStates)
    {
      ToggleTwice(modsSelected, m.id, m.id);
      modsSelected := Toggle(modsSelected, m.id);
    }

    /** `exitSelect`: leaves multi-select and clears the selection. */
    method ExitSelect()
      modifies this
      ensures Valid()
      ensures !isMultiSelect && modsSelected == []
      ensures filter == old(filter) && modSwitchEnable == old(modSwitchEnable)
      ensures sentEvents == old(sentEvents) && scrollStates == old(scrollStates)
    {
      isMultiSelect := false;
      modsSelected := [];
    }

    /** `allSelect`: the selection becomes exactly the ids of `mods`, in their order. */
    method AllSelect(mods: seq<Mod>)
      modifies this
      ensures Valid()
      ensures modsSelected == AddAll([], Map(mods, ModId))
      ensures forall id :: id in modsSelected <==> exists m :: m in mods && m.id == id
      ensures isMultiSelect == old(isMultiSelect) && filter == old(filter) && modSwitchEnable == old(modSwitchEnable)
      ensures sentEvents == old(sentEvents) && scrollStates == old(scrollStates)
    {
      modsSelected := AddAll([], Map(mods, ModId));
      forall id | id in modsSelected ensures exists m :: m in mods && m.id == id {
        var i :| 0 <= i < |Map(mods, ModId)| && Map(mods, ModId)[i] == id;
        assert mods[i] in mods;
      }
      forall m | m in mods ensures m.id in modsSelected {
        var i :| 0 <= i < |mods| && mods[i] == m;
        assert Map(mods, ModId)[i] == m.id;
      }
    }

    /** `deselect`: empties the selection and stays in the current mode. */
    method Deselect()
      modifies this
      ensures Valid()
      ensures modsSelected == [] && isMultiSelect == old(isMultiSelect)
      ensures filter == old(filter) && modSwitchEnable == old(modSwitchEnable)
      ensures sentEvents == old(sentEvents) && scrollStates == old(scrollStates)
    {
      modsSelected := [];
    }

    method SetModSwitchEnable(b: bool)
      modifies this
      ensures modSwitchEnable == b
      ensures isMultiSelect == old(isMultiSelect) && modsSelected == old(modsSelected) && filter == old(filter)
      ensures sentEvents == old(sentEvents) && scrollStates == old(scrollStates)
    {
      modSwitchEnable := b;
    }

    /** `getSelectableModsForSwitch`: one entry per selected id, in selection order: the first mod
      * of the shown list with that id that is not yet in the `target` state, or null. */
    method SelectableModsForSwitch(target: bool, modList: seq<Mod>) returns (r: seq<Option<Mod>>)
      ensures |r| == |modsSelected|
      ensures forall i :: 0 <= i < |r| && r[i].Some? ==>
        r[i].value in modList && r[i].value.id == modsSelected[i] && r[i].value.isEnable == !target
      ensures forall i :: 0 <= i < |r| ==>
        (r[i].None? <==> forall j :: 0 <= j < |modList| ==> !(modList[j].id == modsSelected[i] && modList[j].isEnable == !target))
    {
      r := Map(modsSelected, (id: int) => SwitchCandidate(modList, id, target));
    }

    /** `removeModSelection`: takes only that id out of the selection. */
    method RemoveModSelection(id: int)
      requires Valid()
      modifies this
      ensures Valid()
      ensures modsSelected == Minus(old(modsSelected), id)
      ensures forall x :: x in modsSelected <==> x in old(modsSelected) && x != id
      ensures isMultiSelect == old(isMultiSelect) && filter == old(filter) && modSwitchEnable == old(modSwitchEnable)
      ensures sentEvents == old(sentEvents) && scrollStates == old(scrollStates)
    {
      FilterDistinct(modsSelected, (y: int) => y != id);
      modsSelected := Minus(modsSelected, id);
    }

    /** `onBackClick`: leaves multi-select if selecting; otherwise asks to go back unless at the
      * root, where it does nothing. */
    method OnBackClick(isRoot: bool)
      modifies this
      ensures old(isMultiSelect) ==> !isMultiSelect && modsSelected == [] && sentEvents == old(sentEvents)
      ensures !old(isMultiSelect) && !isRoot ==>
        sentEvents == old(sentEvents) + [NavigateBack] && modsSelected == old(modsSelected) && !isMultiSelect
      ensures !old(isMultiSelect) && isRoot ==>
        sentEvents == old(sentEvents) && modsSelected == old(modsSelected) && !isMultiSelect
      ensures filter == old(filter) && modSwitchEnable == old(modSwitchEnable) && scrollStates == old(scrollStates)
    {
      if isMultiSelect {
        ExitSelect();
      } else if !isRoot {
        sentEvents := sentEvents + [NavigateBack];
      }
    }

    method OnNavigateToBrowser(path: Option<string>)
      modifies this
      ensures sentEvents == old(sentEvents) + [NavigateToBrowser(path)]
      ensures isMultiSelect == old(isMultiSelect) && modsSelected == old(modsSelected)
      ensures filter == old(filter) && modSwitchEnable == old(modSwitchEnable) && scrollStates == old(scrollStates)
    {
      sentEvents := sentEvents + [NavigateToBrowser(path)];
    }

    method OnNavigateToList()
      modifies this
      ensures sentEvents == old(sentEvents) + [NavigateToList]
      ensures isMultiSelect == old(isMultiSelect) && modsSelected == old(modsSelected)
      ensures filter == old(filter) && modSwitchEnable == old(modSwitchEnable) && scrollStates == old(scrollStates)
    {
      sentEvents := sentEvents + [NavigateToList];
    }

    method SaveScrollState(key: string, index: int, offset: int)
      modifies this
      ensures scrollStates == old(scrollStates)[key := (index, offset)]
      ensures isMultiSelect == old(isMultiSelect) && modsSelected == old(modsSelected)
      ensures filter == old(filter) && modSwitchEnable == old(modSwitchEnable) && sentEvents == old(sentEvents)
    {
      scrollStates := scrollStates[key := (index, offset)];
    }

    /** `getScrollState`: the last position saved for the key, or (0, 0). */
    method GetScrollState(key: string) returns (r: (int, int))
      ensures key in scrollStates ==> r == scrollStates[key]
      ensures key !in scrollStates ==> r == (0, 0)
    {
      r := ScrollLookup(scrollStates, key);
    }
  }
}
