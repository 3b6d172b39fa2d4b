/**
 What every run of the application menu keeps, and what selecting and merging do to the open menus.
 */
module AppMenuRuns {
  import opened Strings
  import opened AppMenus
  import opened AppMenuState

  // ---------- Searching ----------

  lemma {:induction false} FindMenuIs(open: seq<Menu>, id: string, k: nat)
    requires k <= |open|
    ensures var n := FindMenu(open, id, k); k <= n <= |open| && (n < |open| ==> open[n].id == id)
    ensures forall j :: k <= j < FindMenu(open, id, k) ==> open[j].id != id
    decreases |open| - k
  {
    if k < |open| && open[k].id != id {
      FindMenuIs(open, id, k + 1);
    }
  }

  lemma {:induction false} FindParentIs(open: seq<Menu>, item: MenuItem, k: nat)
    requires k <= |open|
    ensures var n := FindParent(open, item, k); k <= n <= |open| && (n < |open| ==> item in open[n].items)
    ensures forall j :: k <= j < FindParent(open, item, k) ==> item !in open[j].items
    decreases |open| - k
  {
    if k < |open| && item !in open[k].items {
      FindParentIs(open, item, k + 1);
    }
  }

  lemma {:induction false} FindSubmenuIs(items: seq<MenuItem>, id: string, k: nat)
    requires k <= |items| && exists i :: k <= i < |items| && items[i].Submenu? && items[i].id == id
    ensures var f := FindSubmenu(items, id, k); f.Some? && f.value in items && f.value.Submenu? && f.value.id == id
    decreases |items| - k
  {
    if !(items[k].Submenu? && items[k].id == id) {
      FindSubmenuIs(items, id, k + 1);
    }
  }

  lemma {:induction false} FindSelectableIs(items: seq<MenuItem>, k: nat)
    requires k <= |items|
    ensures var f := FindSelectable(items, k);
      if f.None? then forall i :: k <= i < |items| ==> items[i].Separator? || !items[i].enabled || !items[i].visible
      else exists n ::
        && k <= n < |items| && f == Some(items[n])
        && !items[n].Separator? && items[n].enabled && items[n].visible
        && forall i :: k <= i < n ==> items[i].Separator? || !items[i].enabled || !items[i].visible
    decreases |items| - k
  {
    if k < |items| && !ItemIsSelectable(items[k]) {
      FindSelectableIs(items, k + 1);
    }
  }

  // ---------- Paths ----------

  lemma PathPrefix(root: Menu, open: seq<Menu>, n: nat)
    requires IsPath(root, open) && 0 < n <= |open|
    ensures IsPath(root, open[..n])
  {
    forall k | 0 < k < n ensures Owns(open[..n][k - 1], open[..n][k]) {
      assert Owns(open[k - 1], open[k]);
    }
  }

  lemma PathExtended(root: Menu, open: seq<Menu>, child: Menu)
    requires IsPath(root, open) && Owns(open[|open| - 1], child)
    ensures IsPath(root, open + [child])
  {
    var open' := open + [child];
    forall k | 0 < k < |open'| ensures Owns(open'[k - 1], open'[k]) {
      if k < |open| {
        assert Owns(open[k - 1], open[k]);
      }
    }
  }

  lemma SameOwns(a: Menu, b: Menu, a': Menu, b': Menu)
    requires Owns(a, b) && SameMenu(a, a') && SameMenu(b, b')
    ensures Owns(a', b')
  {
    var o :| o in a.items && IsOwner(o, b);
    assert o in a'.items && IsOwner(o, b');
  }

  /** Selecting does not change which menus are open. */
  lemma SamePath(root: Menu, open: seq<Menu>, open': seq<Menu>)
    requires IsPath(root, open) && |open'| == |open|
    requires forall k :: 0 <= k < |open| ==> SameMenu(open[k], open'[k])
    ensures IsPath(root, open')
  {
    forall k | 0 < k < |open'| ensures Owns(open'[k - 1], open'[k]) {
      assert SameMenu(open[k - 1], open'[k - 1]);
      SameOwns(open[k - 1], open[k], open'[k - 1], open'[k]);
    }
  }

  // ---------- One step ----------

  lemma InitialIsValid(menu: Menu)
    requires WellFormed(menu)
    ensures Initial(menu).Valid()
  {
  }

  lemma OpeningKeepsPath(s: AppMenu, item: MenuItem, selectFirst: bool)
    requires s.Valid() && s.WithOpenedMenu(item, selectFirst).Ok?
    ensures s.WithOpenedMenu(item, selectFirst).value.Valid()
  {
    if item.id in s.menuItemById {
      var ours := s.menuItemById[item.id];
      var p := FindParent(s.openMenus, ours, 0);
      FindParentIs(s.openMenus, ours, 0);
      FoundInTree(s.menu, item.id);
      WellFormedIn(s.menu.items, ours);
      if p < |s.openMenus| {
        PathPrefix(s.menu, s.openMenus, p + 1);
        var child := if selectFirst then ours.menu.(selectedItem := FindSelectable(ours.menu.items, 0)) else ours.menu;
        assert IsOwner(ours, child);
        PathExtended(s.menu, s.openMenus[..p + 1], child);
      }
    }
  }

  lemma ClosingKeepsPath(s: AppMenu, m: Menu)
    requires s.Valid()
    ensures s.WithClosedMenu(m).Valid() && s.WithLastMenu(m).Valid() && s.WithReset().Valid()
  {
    FindMenuIs(s.openMenus, m.id, 0);
    var k := FindMenu(s.openMenus, m.id, 0);
    if k < |s.openMenus| {
      PathPrefix(s.menu, s.openMenus, k + 1);
      if m.id != "" {
        PathPrefix(s.menu, s.openMenus, k);
      }
    }
  }

  lemma SelectingKeepsPath(s: AppMenu, item: MenuItem, m: Menu)
    requires s.Valid()
    ensures s.Selected(item).Valid() && s.Deselected(m).Valid()
  {
    if item.id in s.menuItemById {
      var ours := s.menuItemById[item.id];
      var p := FindParent(s.openMenus, ours, 0);
      if p < |s.openMenus| {
        SamePath(s.menu, s.openMenus, Reselected(s.openMenus, p, Some(ours), true));
      }
    }
    var p := FindMenu(s.openMenus, m.id, 0);
    if p < |s.openMenus| {
      SamePath(s.menu, s.openMenus, Reselected(s.openMenus, p, None, false));
    }
  }

  // ---------- Opening and closing ----------

  /**
   Opening an item whose menu is open: everything below that menu closes, and the item's menu opens below
   it, with the first selectable item selected, or none.
   */
  lemma OpeningOpensBelowOwner(s: AppMenu, item: MenuItem, selectFirst: bool)
    requires s.Valid() && item.id in s.menuItemById && s.menuItemById[item.id].Submenu?
    requires FindParent(s.openMenus, s.menuItemById[item.id], 0) < |s.openMenus|
    ensures var r, ours := s.WithOpenedMenu(item, selectFirst), s.menuItemById[item.id];
      var p := FindParent(s.openMenus, ours, 0);
      && r.Ok? && |r.value.openMenus| == p + 2 && r.value.openMenus[..p + 1] == s.openMenus[..p + 1]
      && ours.id == item.id && ours in r.value.openMenus[p].items && IsOwner(ours, r.value.openMenus[p + 1])
      && r.value.openMenus[p + 1].selectedItem == if selectFirst then FindSelectable(ours.menu.items, 0) else None
  {
    var ours := s.menuItemById[item.id];
    FindParentIs(s.openMenus, ours, 0);
    FoundInTree(s.menu, item.id);
    WellFormedIn(s.menu.items, ours);
  }

  /** A closed menu, and what was open below it, is not open any more; what was open above it still is. */
  lemma ClosedMenuIsNotOpen(s: AppMenu, m: Menu)
    requires s.Valid() && m.id != ""
    ensures var open := s.WithClosedMenu(m).openMenus;
      && open <= s.openMenus && (forall k :: 0 <= k < |open| ==> open[k].id != m.id)
      && (|open| < |s.openMenus| ==> s.openMenus[|open|].id == m.id)
  {
    FindMenuIs(s.openMenus, m.id, 0);
  }

  /** After `WithLastMenu` that menu, if it was open, is the last one. */
  lemma LastMenuIsLast(s: AppMenu, m: Menu)
    requires s.Valid()
    ensures var open := s.WithLastMenu(m).openMenus;
      && open <= s.openMenus
      && (open[|open| - 1].id == m.id || (open == s.openMenus && forall k :: 0 <= k < |open| ==> open[k].id != m.id))
  {
    FindMenuIs(s.openMenus, m.id, 0);
  }

  /** After a reset only the root menu is open, and nothing is selected. */
  lemma ResetLeavesRoot(s: AppMenu)
    requires s.Valid()
    ensures var r := s.WithReset();
      r.openMenus == [s.menu] && s.menu.selectedItem == None && r.menu == s.menu && r.menuItemById == s.menuItemById
  {
  }

  // ---------- When nothing happens ----------

  /** An item that the tree does not have is neither opened nor selected. */
  lemma UnknownItemIsIgnored(s: AppMenu, item: MenuItem, selectFirst: bool)
    requires s.Valid() && forall x :: x in PreOrder(s.menu.items) ==> x.id != item.id
    ensures s.WithOpenedMenu(item, selectFirst) == Ok(s) && s.Selected(item) == s
  {
    if item.id in s.menuItemById {
      FoundInTree(s.menu, item.id);
    }
  }

  /** The tree's item with the id of the given one counts: opening one that has no menu is an error. */
  lemma WrongItemIsAnError(s: AppMenu, item: MenuItem, x: MenuItem, selectFirst: bool)
    requires s.Valid() && x in PreOrder(s.menu.items) && x.id == item.id
    ensures s.WithOpenedMenu(item, selectFirst).Err? <==> !x.Submenu?
  {
    IdMapIsTree(s.menu, x);
  }

  /** An item that is in no open menu is neither opened nor selected. */
  lemma ItemOfClosedMenuIsIgnored(s: AppMenu, item: MenuItem, x: MenuItem, selectFirst: bool)
    requires s.Valid() && x in PreOrder(s.menu.items) && x.id == item.id
    requires forall k :: 0 <= k < |s.openMenus| ==> x !in s.openMenus[k].items
    ensures x.Submenu? ==> s.WithOpenedMenu(item, selectFirst) == Ok(s)
    ensures s.Selected(item) == s
  {
    IdMapIsTree(s.menu, x);
    FindParentIs(s.openMenus, x, 0);
  }

  /** A menu that is not open is neither closed nor made the last nor cleared. */
  lemma MenuNotOpenIsIgnored(s: AppMenu, m: Menu)
    requires forall k :: 0 <= k < |s.openMenus| ==> s.openMenus[k].id != m.id
    ensures s.WithClosedMenu(m) == s && s.WithLastMenu(m) == s && s.Deselected(m) == s
  {
    FindMenuIs(s.openMenus, m.id, 0);
  }

  lemma RootIsNotClosed(s: AppMenu, m: Menu)
    requires m.id == ""
    ensures s.WithClosedMenu(m) == s
  {
  }

  // ---------- Selection paths ----------

  /** Every menu above `p` selects the submenu item that owns the next menu. */
  ghost predicate SelectsPathTo(open: seq<Menu>, p: nat) {
    p < |open| && forall i {:trigger open[i]} :: 0 <= i < p ==>
      && open[i].selectedItem.Some? && open[i].selectedItem.value in open[i].items
      && IsOwner(open[i].selectedItem.value, open[i + 1])
  }

  /** The submenu item with the id of the next menu is there, and it is the item that owns that menu. */
  lemma OwnerIsFound(s: AppMenu, i: nat)
    requires s.Valid() && i + 1 < |s.openMenus|
    ensures var f := FindSubmenu(s.openMenus[i].items, s.openMenus[i + 1].id, 0);
      f.Some? && f.value in s.openMenus[i].items && IsOwner(f.value, s.openMenus[i + 1])
  {
    var items, id := s.openMenus[i].items, s.openMenus[i + 1].id;
    var o := OwnerInTree(s.menu, s.openMenus, i + 1);
    var n :| 0 <= n < |items| && items[n] == o;
    FindSubmenuIs(items, id, 0);
    var f := FindSubmenu(items, id, 0).value;
    ItemInTree(items, f);
    PathInTree(s.menu, s.openMenus, i, f);
    SameIdSameItem(PreOrder(s.menu.items), o, f);
  }

  lemma ReselectedSelectsPath(s: AppMenu, p: nat, selected: Option<MenuItem>, clearBelow: bool)
    requires s.Valid() && p < |s.openMenus|
    ensures SelectsPathTo(Reselected(s.openMenus, p, selected, clearBelow), p)
  {
    var open := Reselected(s.openMenus, p, selected, clearBelow);
    forall i | 0 <= i < p
      ensures open[i].selectedItem.Some? && open[i].selectedItem.value in open[i].items
      ensures IsOwner(open[i].selectedItem.value, open[i + 1])
    {
      OwnerIsFound(s, i);
    }
  }

  lemma ReselectedKeepsMenus(open: seq<Menu>, p: nat, selected: Option<MenuItem>, clearBelow: bool)
    requires p < |open|
    ensures SameMenus(Reselected(open, p, selected, clearBelow), open)
    ensures Reselected(open, p, selected, clearBelow)[p].selectedItem == selected
  {
  }

  /** The same menus are open, whatever is selected in them. */
  ghost predicate SameMenus(a: seq<Menu>, b: seq<Menu>) {
    |a| == |b| && forall i :: 0 <= i < |a| ==> SameMenu(a[i], b[i])
  }

  /**
   Selecting an item whose menu is open: that menu selects it, every menu above selects the owner of
   the next one, every menu below selects nothing, and the same menus are open.
   */
  lemma SelectedItemHasPath(s: AppMenu, item: MenuItem)
    requires s.Valid() && item.id in s.menuItemById
    requires FindParent(s.openMenus, s.menuItemById[item.id], 0) < |s.openMenus|
    ensures var open, ours := s.Selected(item).openMenus, s.menuItemById[item.id];
      var p := FindParent(s.openMenus, ours, 0);
      && SelectsPathTo(open, p) && open[p].selectedItem == Some(ours) && ours in open[p].items
      && SameMenus(open, s.openMenus) && (forall i :: p < i < |open| ==> open[i].selectedItem == None)
  {
    var ours := s.menuItemById[item.id];
    var p := FindParent(s.openMenus, ours, 0);
    FindParentIs(s.openMenus, ours, 0);
    ReselectedSelectsPath(s, p, Some(ours), true);
    ReselectedKeepsMenus(s.openMenus, p, Some(ours), true);
  }

  /** Clearing an open menu leads the same path to it and leaves the menus below it alone. */
  lemma DeselectedMenuHasPath(s: AppMenu, m: Menu)
    requires s.Valid() && FindMenu(s.openMenus, m.id, 0) < |s.openMenus|
    ensures var open, p := s.Deselected(m).openMenus, FindMenu(s.openMenus, m.id, 0);
      && SelectsPathTo(open, p) && open[p].selectedItem == None && open[p].id == m.id
      && SameMenus(open, s.openMenus) && (forall i :: p < i < |open| ==> open[i] == s.openMenus[i])
  {
    var p := FindMenu(s.openMenus, m.id, 0);
    FindMenuIs(s.openMenus, m.id, 0);
    ReselectedSelectsPath(s, p, None, false);
    ReselectedKeepsMenus(s.openMenus, p, None, false);
  }

  // ---------- Merging ----------

  lemma {:induction false} ReopenedAt(open: seq<Menu>, k: nat, newMenu: Menu, newMap: IdMap, i: nat)
    requires k <= |open| && i < |Reopened(open, k, newMenu, newMap)|
    ensures k + i < |open| && Reopen(open[k + i], newMenu, newMap) == Some(Reopened(open, k, newMenu, newMap)[i])
    decreases |open| - k
  {
    if i > 0 {
      ReopenedAt(open, k + 1, newMenu, newMap, i - 1);
    }
  }

  lemma ReopenKeepsId(m: Menu, newMenu: Menu)
    requires WellFormed(newMenu) && Reopen(m, newMenu, IdMapOf(newMenu)).Some?
    ensures Reopen(m, newMenu, IdMapOf(newMenu)).value.id == m.id
  {
    if m.id != "" {
      FoundInTree(newMenu, m.id);
      WellFormedIn(newMenu.items, IdMapOf(newMenu)[m.id]);
    }
  }

  /** Merging keeps a prefix of the open menus, by their ids. */
  lemma MergeKeepsPrefix(s: AppMenu, newMenu: Menu)
    requires WellFormed(newMenu)
    ensures var open := s.Merged(newMenu).openMenus;
      |open| <= |s.openMenus| && forall i :: 0 <= i < |open| ==> open[i].id == s.openMenus[i].id
  {
    var open, m := s.Merged(newMenu).openMenus, IdMapOf(newMenu);
    if |open| > 0 {
      ReopenedAt(s.openMenus, 0, newMenu, m, |open| - 1);
    }
    forall i | 0 <= i < |open| ensures i < |s.openMenus| && open[i].id == s.openMenus[i].id {
      ReopenedAt(s.openMenus, 0, newMenu, m, i);
      ReopenKeepsId(s.openMenus[i], newMenu);
    }
  }

  /** It keeps the selection of each of them exactly if the new tree has an item with the selected id. */
  lemma MergeKeepsSelection(s: AppMenu, newMenu: Menu, i: nat)
    requires WellFormed(newMenu) && i < |s.Merged(newMenu).openMenus| && i < |s.openMenus|
    ensures var was, now := s.openMenus[i].selectedItem, s.Merged(newMenu).openMenus[i].selectedItem;
      && (now.Some? ==> was.Some? && now.value.id == was.value.id && now.value in PreOrder(newMenu.items))
      && (was.Some? && now.None? ==> forall x :: x in PreOrder(newMenu.items) ==> x.id != was.value.id)
  {
    var was := s.openMenus[i].selectedItem;
    ReopenedAt(s.openMenus, 0, newMenu, IdMapOf(newMenu), i);
    if was.Some? && was.value.id in IdMapOf(newMenu) {
      FoundInTree(newMenu, was.value.id);
    } else if was.Some? {
      forall x | x in PreOrder(newMenu.items) ensures x.id != was.value.id {
        IdMapIsTree(newMenu, x);
      }
    }
  }

  /** A menu that was reopened is reopened as it is. */
  lemma ReopenTwice(m: Menu, newMenu: Menu)
    requires WellFormed(newMenu) && Reopen(m, newMenu, IdMapOf(newMenu)).Some?
    ensures var m' := Reopen(m, newMenu, IdMapOf(newMenu)).value; Reopen(m', newMenu, IdMapOf(newMenu)) == Some(m')
  {
    ReopenKeepsId(m, newMenu);
    if m.selectedItem.Some? && m.selectedItem.value.id in IdMapOf(newMenu) {
      FoundInTree(newMenu, m.selectedItem.value.id);
    }
  }

  lemma {:induction false} ReopenedTwice(open: seq<Menu>, k: nat, again: seq<Menu>, j: nat, newMenu: Menu)
    requires WellFormed(newMenu) && k <= |open| && j <= |again|
    requires again[j..] == Reopened(open, k, newMenu, IdMapOf(newMenu))
    ensures Reopened(again, j, newMenu, IdMapOf(newMenu)) == again[j..]
    decreases |again| - j
  {
    if j < |again| {
      ReopenTwice(open[k], newMenu);
      assert again[j] == again[j..][0];
      assert again[j + 1..] == again[j..][1..];
      ReopenedTwice(open, k + 1, again, j + 1, newMenu);
      assert [again[j]] + again[j + 1..] == again[j..];
    }
  }

  /** Merging twice with the same menu is merging once. */
  lemma MergeIsIdempotent(s: AppMenu, newMenu: Menu)
    requires WellFormed(newMenu)
    ensures s.Merged(newMenu).Merged(newMenu) == s.Merged(newMenu)
  {
    var again := s.Merged(newMenu).openMenus;
    assert again[0..] == again;
    ReopenedTwice(s.openMenus, 0, again, 0, newMenu);
  }

  /** The items that the new tree has in place of the menu with that id, if it has such a menu. */
  function NewItems(id: string, newMenu: Menu): Option<seq<MenuItem>> {
    if id == "" then Some(newMenu.items)
    else if id in IdMapOf(newMenu) && IdMapOf(newMenu)[id].Submenu? then Some(IdMapOf(newMenu)[id].menu.items)
    else None
  }

  /** The new tree has a menu in place of every open menu up to `k`. */
  ghost predicate Survives(open: seq<Menu>, k: nat, newMenu: Menu) {
    k < |open| && forall j :: 0 <= j <= k ==> NewItems(open[j].id, newMenu).Some?
  }

  /** In the new tree, the item of each open menu that survives is among the items of the menu before it. */
  ghost predicate KeepsOwners(open: seq<Menu>, newMenu: Menu) {
    forall k {:trigger open[k]} :: 0 < k < |open| && Survives(open, k, newMenu) ==>
      open[k].id in IdMapOf(newMenu) && IdMapOf(newMenu)[open[k].id] in NewItems(open[k - 1].id, newMenu).value
  }

  /** The same, read off the merged menus. */
  ghost predicate MergedKeepsOwners(s: AppMenu, newMenu: Menu) {
    var open := s.Merged(newMenu).openMenus;
    forall k {:trigger open[k]} :: 0 < k < |open| ==>
      open[k].id in IdMapOf(newMenu) && IdMapOf(newMenu)[open[k].id] in open[k - 1].items
  }

  /** Just the menus that survive are reopened. */
  lemma {:induction false} SurvivorsAreReopened(open: seq<Menu>, k: nat, newMenu: Menu, i: nat)
    requires k <= |open|
    ensures i < |Reopened(open, k, newMenu, IdMapOf(newMenu))|
       <==> k + i < |open| && forall j :: k <= j <= k + i ==> NewItems(open[j].id, newMenu).Some?
    decreases |open| - k
  {
    if i > 0 && k < |open| {
      SurvivorsAreReopened(open, k + 1, newMenu, i - 1);
    }
  }

  lemma SurvivorIs(s: AppMenu, newMenu: Menu, k: nat)
    requires WellFormed(newMenu)
    ensures var open := s.Merged(newMenu).openMenus;
      && (k < |open| <==> Survives(s.openMenus, k, newMenu))
      && (k < |open| ==> open[k].id == s.openMenus[k].id && NewItems(open[k].id, newMenu) == Some(open[k].items))
  {
    SurvivorsAreReopened(s.openMenus, 0, newMenu, k);
    if k < |s.Merged(newMenu).openMenus| {
      ReopenedAt(s.openMenus, 0, newMenu, IdMapOf(newMenu), k);
      ReopenKeepsId(s.openMenus[k], newMenu);
    }
  }

  lemma KeptOwnersAreMerged(s: AppMenu, newMenu: Menu)
    requires WellFormed(newMenu)
    ensures KeepsOwners(s.openMenus, newMenu) <==> MergedKeepsOwners(s, newMenu)
  {
    var open := s.Merged(newMenu).openMenus;
    MergeKeepsPrefix(s, newMenu);
    forall k | 0 < k < |s.openMenus|
      ensures k < |open| <==> Survives(s.openMenus, k, newMenu)
      ensures k < |open| ==> open[k].id == s.openMenus[k].id
                             && NewItems(s.openMenus[k - 1].id, newMenu) == Some(open[k - 1].items)
    {
      SurvivorIs(s, newMenu, k);
      SurvivorIs(s, newMenu, k - 1);
    }
    if KeepsOwners(s.openMenus, newMenu) {
      forall k | 0 < k < |open|
        ensures open[k].id in IdMapOf(newMenu) && IdMapOf(newMenu)[open[k].id] in open[k - 1].items
      {
        assert Survives(s.openMenus, k, newMenu);
      }
    }
    if MergedKeepsOwners(s, newMenu) {
      forall k | 0 < k < |s.openMenus| && Survives(s.openMenus, k, newMenu)
        ensures s.openMenus[k].id in IdMapOf(newMenu)
        ensures IdMapOf(newMenu)[s.openMenus[k].id] in NewItems(s.openMenus[k - 1].id, newMenu).value
      {
        assert open[k].id == s.openMenus[k].id;
      }
    }
  }

  lemma MergeKeepsRoot(s: AppMenu, newMenu: Menu)
    requires s.Valid() && WellFormed(newMenu)
    ensures var open := s.Merged(newMenu).openMenus; |open| > 0 && SameMenu(open[0], newMenu)
  {
  }

  /** A surviving menu, but the root, is the menu of the item with its id. */
  lemma SurvivorOfItem(s: AppMenu, newMenu: Menu, k: nat)
    requires s.Valid() && WellFormed(newMenu) && 0 < k < |s.Merged(newMenu).openMenus|
    ensures var open := s.Merged(newMenu).openMenus;
      open[k].id in IdMapOf(newMenu) && IsOwner(IdMapOf(newMenu)[open[k].id], open[k])
  {
    ReopenedAt(s.openMenus, 0, newMenu, IdMapOf(newMenu), k);
    ReopenKeepsId(s.openMenus[k], newMenu);
    var o := OwnerInTree(s.menu, s.openMenus, k);
    WellFormedIn(s.menu.items, o);
    FoundInTree(newMenu, s.openMenus[k].id);
    WellFormedIn(newMenu.items, IdMapOf(newMenu)[s.openMenus[k].id]);
  }

  lemma OwnersKeptIsPath(s: AppMenu, newMenu: Menu)
    requires s.Valid() && WellFormed(newMenu) && MergedKeepsOwners(s, newMenu)
    ensures IsPath(newMenu, s.Merged(newMenu).openMenus)
  {
    var open := s.Merged(newMenu).openMenus;
    MergeKeepsRoot(s, newMenu);
    forall k | 0 < k < |open| ensures Owns(open[k - 1], open[k]) {
      SurvivorOfItem(s, newMenu, k);
    }
  }

  lemma PathKeepsOwners(s: AppMenu, newMenu: Menu)
    requires s.Valid() && WellFormed(newMenu) && IsPath(newMenu, s.Merged(newMenu).openMenus)
    ensures MergedKeepsOwners(s, newMenu)
  {
    var open := s.Merged(newMenu).openMenus;
    forall k | 0 < k < |open|
      ensures open[k].id in IdMapOf(newMenu) && IdMapOf(newMenu)[open[k].id] in open[k - 1].items
    {
      var o := OwnerInTree(newMenu, open, k);
      IdMapIsTree(newMenu, o);
    }
  }

  /** Merging keeps the invariant exactly if the new tree keeps the owner of every open menu that survives. */
  lemma MergeIsValidIff(s: AppMenu, newMenu: Menu)
    requires s.Valid() && WellFormed(newMenu)
    ensures s.Merged(newMenu).Valid() <==> KeepsOwners(s.openMenus, newMenu)
  {
    KeptOwnersAreMerged(s, newMenu);
    if MergedKeepsOwners(s, newMenu) {
      OwnersKeptIsPath(s, newMenu);
    } else if IsPath(newMenu, s.Merged(newMenu).openMenus) {
      PathKeepsOwners(s, newMenu);
    }
  }

  function SubmenuItem(id: string, items: seq<MenuItem>): MenuItem {
    Submenu(id, true, true, Menu(id, items, None))
  }

  /** The menu "c" is open below "b"; the new tree has moved it up to the root. */
  lemma MovedMenuLeavesPath()
    ensures var c := SubmenuItem("c", []);
      var b := SubmenuItem("b", [c]);
      var tree, newTree := Menu("", [b], None), Menu("", [SubmenuItem("b", []), c], None);
      var s := AppMenu(tree, [tree, b.menu, c.menu], IdMapOf(tree));
      s.Valid() && WellFormed(newTree) && !KeepsOwners(s.openMenus, newTree) && !s.Merged(newTree).Valid()
  {
    var c := SubmenuItem("c", []);
    var b := SubmenuItem("b", [c]);
    var bare := SubmenuItem("b", []);
    var tree, newTree := Menu("", [b], None), Menu("", [bare, c], None);
    var s := AppMenu(tree, [tree, b.menu, c.menu], IdMapOf(tree));
    OneItem(c);
    OneItem(b);
    TwoItems(bare, c);
    assert IsOwner(b, b.menu) && IsOwner(c, c.menu);
    assert Owns(tree, b.menu) && Owns(b.menu, c.menu);
    MovedMenu(s.openMenus, newTree, bare, c);
    MergeIsValidIff(s, newTree);
  }

  lemma OneItem(item: MenuItem)
    requires item.Submenu? && item.id != "" && item.menu == Menu(item.id, item.menu.items, None)
    requires WellFormedItems(item.menu.items) && UniqueIds([item] + PreOrder(item.menu.items))
    ensures PreOrder([item]) == [item] + PreOrder(item.menu.items) && WellFormed(Menu("", [item], None))
  {
    assert [item][1..] == [];
    assert PreOrder(item.menu.items) + [] == PreOrder(item.menu.items);
  }

  lemma TwoItems(a: MenuItem, b: MenuItem)
    requires a == SubmenuItem(a.id, []) && b == SubmenuItem(b.id, []) && a.id != "" && b.id != "" && a.id != b.id
    ensures PreOrder([a, b]) == [a, b] && WellFormed(Menu("", [a, b], None))
  {
    OneItem(b);
    assert [a, b][1..] == [b];
    assert [] + PreOrder([b]) == [b];
  }

  lemma MovedMenu(open: seq<Menu>, newTree: Menu, bare: MenuItem, c: MenuItem)
    requires WellFormed(newTree) && newTree.items == [bare, c] && PreOrder(newTree.items) == [bare, c]
    requires bare == SubmenuItem("b", []) && c == SubmenuItem("c", [])
    requires |open| == 3 && open[0].id == "" && open[1].id == "b" && open[2].id == "c"
    ensures !KeepsOwners(open, newTree)
  {
    assert PreOrder(newTree.items)[0] == bare && PreOrder(newTree.items)[1] == c;
    IdMapIsTree(newTree, bare);
    IdMapIsTree(newTree, c);
    assert Survives(open, 2, newTree);
    assert NewItems(open[2 - 1].id, newTree) == Some([]);
  }

  // ---------- Selected items ----------

  predicate SelectsOwnItem(m: Menu) {
    m.selectedItem.Some? ==> m.selectedItem.value in m.items
  }

  /** Each open menu selects nothing or one of its own items. */
  ghost predicate SelectsOwnItems(open: seq<Menu>) {
    forall k {:trigger open[k]} :: 0 <= k < |open| ==> SelectsOwnItem(open[k])
  }

  lemma OpeningSelectsOwn(s: AppMenu, item: MenuItem, selectFirst: bool)
    requires s.Valid() && SelectsOwnItems(s.openMenus) && s.WithOpenedMenu(item, selectFirst).Ok?
    ensures SelectsOwnItems(s.WithOpenedMenu(item, selectFirst).value.openMenus)
  {
    if item.id in s.menuItemById {
      var ours := s.menuItemById[item.id];
      FoundInTree(s.menu, item.id);
      WellFormedIn(s.menu.items, ours);
      FindSelectableIs(ours.menu.items, 0);
    }
  }

  lemma ClosingSelectsOwn(s: AppMenu, m: Menu)
    requires s.Valid() && SelectsOwnItems(s.openMenus)
    ensures SelectsOwnItems(s.WithClosedMenu(m).openMenus) && SelectsOwnItems(s.WithLastMenu(m).openMenus)
    ensures SelectsOwnItems(s.WithReset().openMenus)
  {
    FindMenuIs(s.openMenus, m.id, 0);
  }

  lemma ReselectingSelectsOwn(s: AppMenu, p: nat, selected: Option<MenuItem>, clearBelow: bool)
    requires s.Valid() && SelectsOwnItems(s.openMenus) && p < |s.openMenus|
    requires selected.Some? ==> selected.value in s.openMenus[p].items
    ensures SelectsOwnItems(Reselected(s.openMenus, p, selected, clearBelow))
  {
    var open := Reselected(s.openMenus, p, selected, clearBelow);
    forall i | 0 <= i < |open| ensures SelectsOwnItem(open[i]) {
      if i < p {
        OwnerIsFound(s, i);
      } else {
        assert SelectsOwnItem(s.openMenus[i]);
      }
    }
  }

  lemma SelectingSelectsOwn(s: AppMenu, item: MenuItem, m: Menu)
    requires s.Valid() && SelectsOwnItems(s.openMenus)
    ensures SelectsOwnItems(s.Selected(item).openMenus) && SelectsOwnItems(s.Deselected(m).openMenus)
  {
    if item.id in s.menuItemById {
      var ours := s.menuItemById[item.id];
      var p := FindParent(s.openMenus, ours, 0);
      FindParentIs(s.openMenus, ours, 0);
      if p < |s.openMenus| {
        ReselectingSelectsOwn(s, p, Some(ours), true);
      }
    }
    var p := FindMenu(s.openMenus, m.id, 0);
    if p < |s.openMenus| {
      ReselectingSelectsOwn(s, p, None, false);
    }
  }

  /** If the new tree has the item that a menu selects, it is among the menu's new items. */
  predicate StaysWithin(m: Menu, newMenu: Menu) {
    var items, selected := NewItems(m.id, newMenu), m.selectedItem;
    items.Some? && selected.Some? && selected.value.id in IdMapOf(newMenu) ==>
      IdMapOf(newMenu)[selected.value.id] in items.value
  }

  /** That holds of every open menu that survives. */
  ghost predicate KeepsSelected(open: seq<Menu>, newMenu: Menu) {
    forall k {:trigger open[k]} :: 0 <= k < |open| && Survives(open, k, newMenu) ==> StaysWithin(open[k], newMenu)
  }

  lemma SurvivorSelectsOwnIff(s: AppMenu, newMenu: Menu, k: nat)
    requires WellFormed(newMenu) && k < |s.Merged(newMenu).openMenus|
    ensures Survives(s.openMenus, k, newMenu)
    ensures SelectsOwnItem(s.Merged(newMenu).openMenus[k]) <==> StaysWithin(s.openMenus[k], newMenu)
  {
    SurvivorIs(s, newMenu, k);
    ReopenedAt(s.openMenus, 0, newMenu, IdMapOf(newMenu), k);
  }

  /** Merging keeps every selection within its menu exactly if no selected item leaves a menu that survives. */
  lemma MergeSelectsOwnIff(s: AppMenu, newMenu: Menu)
    requires WellFormed(newMenu)
    ensures SelectsOwnItems(s.Merged(newMenu).openMenus) <==> KeepsSelected(s.openMenus, newMenu)
  {
    var open := s.Merged(newMenu).openMenus;
    if SelectsOwnItems(open) {
      forall k | 0 <= k < |s.openMenus| && Survives(s.openMenus, k, newMenu)
        ensures StaysWithin(s.openMenus[k], newMenu)
      {
        SurvivorIs(s, newMenu, k);
        SurvivorSelectsOwnIff(s, newMenu, k);
        assert SelectsOwnItem(open[k]);
      }
    }
    if KeepsSelected(s.openMenus, newMenu) {
      forall k | 0 <= k < |open| ensures SelectsOwnItem(open[k]) {
        SurvivorSelectsOwnIff(s, newMenu, k);
        assert StaysWithin(s.openMenus[k], newMenu);
      }
    }
  }

  /** The item "c" is selected in "b"; the new tree has moved it up to the root, and "b" still selects it. */
  lemma MovedItemLeavesMenu()
    ensures var c := SubmenuItem("c", []);
      var b := SubmenuItem("b", [c]);
      var tree, newTree := Menu("", [b], None), Menu("", [SubmenuItem("b", []), c], None);
      var s := Initial(tree).WithOpenedMenu(b, true);
      && WellFormed(tree) && WellFormed(newTree)
      && s.Ok? && s.value.openMenus == [tree, Menu("b", [c], Some(c))] && KeepsOwners(s.value.openMenus, newTree)
      && s.value.Merged(newTree).openMenus == [newTree, Menu("b", [], Some(c))]
  {
    var c := SubmenuItem("c", []);
    var b := SubmenuItem("b", [c]);
    var bare := SubmenuItem("b", []);
    var tree, newTree := Menu("", [b], None), Menu("", [bare, c], None);
    var child := b.menu.(selectedItem := Some(c));
    OneItem(c);
    OneItem(b);
    TwoItems(bare, c);
    OpenedFromRoot(tree, b, c);
    MovedItem([tree, child], newTree, bare, c);
  }

  /** Opening the only item of the root selects the only item of its menu. */
  lemma OpenedFromRoot(tree: Menu, b: MenuItem, c: MenuItem)
    requires WellFormed(tree) && tree.items == [b] && b.Submenu? && b.menu.items == [c] && ItemIsSelectable(c)
    ensures Initial(tree).WithOpenedMenu(b, true)
         == Ok(AppMenu(tree, [tree, b.menu.(selectedItem := Some(c))], IdMapOf(tree)))
  {
    ItemInTree(tree.items, b);
    IdMapIsTree(tree, b);
    assert FindSelectable(b.menu.items, 0) == Some(c);
    assert FindParent([tree], b, 0) == 0;
    assert [tree][..1] + [b.menu.(selectedItem := Some(c))] == [tree, b.menu.(selectedItem := Some(c))];
  }

  lemma MovedItem(open: seq<Menu>, newTree: Menu, bare: MenuItem, c: MenuItem)
    requires WellFormed(newTree) && newTree.items == [bare, c]
    requires bare == SubmenuItem("b", []) && c == SubmenuItem("c", [])
    requires |open| == 2 && open[0].id == "" && open[0].selectedItem == None
    requires open[1].id == "b" && open[1].selectedItem == Some(c)
    ensures KeepsOwners(open, newTree)
    ensures Reopened(open, 0, newTree, IdMapOf(newTree)) == [newTree, Menu("b", [], Some(c))]
  {
    assert newTree.items[0] == bare && newTree.items[1] == c;
    ItemInTree(newTree.items, bare);
    ItemInTree(newTree.items, c);
    IdMapIsTree(newTree, bare);
    IdMapIsTree(newTree, c);
    MergedTwo(open[0], open[1], newTree);
    assert open == [open[0], open[1]];
  }

  lemma MergedTwo(root: Menu, child: Menu, newTree: Menu)
    requires root.id == "" && root.selectedItem == None && newTree.id == "" && newTree.selectedItem == None
    requires Reopen(child, newTree, IdMapOf(newTree)).Some?
    ensures Reopened([root, child], 0, newTree, IdMapOf(newTree))
         == [newTree, Reopen(child, newTree, IdMapOf(newTree)).value]
  {
    assert Reopened([root, child], 2, newTree, IdMapOf(newTree)) == [];
    assert Reopened([root, child], 1, newTree, IdMapOf(newTree)) == [Reopen(child, newTree, IdMapOf(newTree)).value];
  }

  // ---------- Runs ----------

  datatype Op =
    | Open(item: MenuItem, selectFirst: bool)
    | Close(m: Menu)
    | CloseBelow(m: Menu)
    | Select(item: MenuItem)
    | Deselect(m: Menu)
    | Reset
    | Merge(newMenu: Menu)

  /** One transformer; where it throws, the state before it remains. */
  function Step(s: AppMenu, op: Op): AppMenu {
    match op
    case Open(item, selectFirst) =>
      var r := s.WithOpenedMenu(item, selectFirst);
      if r.Ok? then r.value else s
    case Close(m) => s.WithClosedMenu(m)
    case CloseBelow(m) => s.WithLastMenu(m)
    case Select(item) => s.Selected(item)
    case Deselect(m) => s.Deselected(m)
    case Reset => s.WithReset()
    case Merge(newMenu) => s.Merged(newMenu)
  }

  /** Only merging changes the tree, and the map is always the tree's. */
  lemma TreeIsKept(s: AppMenu, op: Op)
    requires s.Valid()
    ensures Step(s, op).menu == (if op.Merge? then op.newMenu else s.menu)
    ensures Step(s, op).menuItemById == IdMapOf(Step(s, op).menu)
  {
  }

  function Run(s: AppMenu, ops: seq<Op>): AppMenu
    decreases ops
  {
    if |ops| == 0 then s else Run(Step(s, ops[0]), ops[1..])
  }

  /** Every menu merged into the run is well-formed and keeps the owners of the open menus. */
  ghost predicate MergesKeepOwners(s: AppMenu, ops: seq<Op>)
    decreases ops
  {
    |ops| > 0 ==>
      && (ops[0].Merge? ==> WellFormed(ops[0].newMenu) && KeepsOwners(s.openMenus, ops[0].newMenu))
      && MergesKeepOwners(Step(s, ops[0]), ops[1..])
  }

  lemma StepKeepsValid(s: AppMenu, op: Op)
    requires s.Valid() && (op.Merge? ==> WellFormed(op.newMenu) && KeepsOwners(s.openMenus, op.newMenu))
    ensures Step(s, op).Valid()
  {
    match op
    case Open(item, selectFirst) =>
      if s.WithOpenedMenu(item, selectFirst).Ok? {
        OpeningKeepsPath(s, item, selectFirst);
      }
    case Close(m) => ClosingKeepsPath(s, m);
    case CloseBelow(m) => ClosingKeepsPath(s, m);
    case Select(item) => SelectingKeepsPath(s, item, s.menu);
    case Deselect(m) => SelectingKeepsPath(s, Separator("", false), m);
    case Reset => ClosingKeepsPath(s, s.menu);
    case Merge(newMenu) => MergeIsValidIff(s, newMenu);
  }

  lemma {:induction false} RunKeepsValid(s: AppMenu, ops: seq<Op>)
    requires s.Valid() && MergesKeepOwners(s, ops)
    ensures Run(s, ops).Valid()
    decreases ops
  {
    if |ops| > 0 {
      StepKeepsValid(s, ops[0]);
      RunKeepsValid(Step(s, ops[0]), ops[1..]);
    }
  }

  /** Every menu merged into the run keeps the selected items within the open menus. */
  ghost predicate MergesKeepSelected(s: AppMenu, ops: seq<Op>)
    decreases ops
  {
    |ops| > 0 ==>
      && (ops[0].Merge? ==> KeepsSelected(s.openMenus, ops[0].newMenu))
      && MergesKeepSelected(Step(s, ops[0]), ops[1..])
  }

  lemma StepSelectsOwn(s: AppMenu, op: Op)
    requires s.Valid() && SelectsOwnItems(s.openMenus)
    requires op.Merge? ==> WellFormed(op.newMenu) && KeepsSelected(s.openMenus, op.newMenu)
    ensures SelectsOwnItems(Step(s, op).openMenus)
  {
    match op
    case Open(item, selectFirst) =>
      if s.WithOpenedMenu(item, selectFirst).Ok? {
        OpeningSelectsOwn(s, item, selectFirst);
      }
    case Close(m) => ClosingSelectsOwn(s, m);
    case CloseBelow(m) => ClosingSelectsOwn(s, m);
    case Select(item) => SelectingSelectsOwn(s, item, s.menu);
    case Deselect(m) => SelectingSelectsOwn(s, Separator("", false), m);
    case Reset => ClosingSelectsOwn(s, s.menu);
    case Merge(newMenu) => MergeSelectsOwnIff(s, newMenu);
  }

  lemma {:induction false} RunSelectsOwn(s: AppMenu, ops: seq<Op>)
    requires s.Valid() && SelectsOwnItems(s.openMenus) && MergesKeepOwners(s, ops) && MergesKeepSelected(s, ops)
    ensures SelectsOwnItems(Run(s, ops).openMenus)
    decreases ops
  {
    if |ops| > 0 {
      StepKeepsValid(s, ops[0]);
      StepSelectsOwn(s, ops[0]);
      RunSelectsOwn(Step(s, ops[0]), ops[1..]);
    }
  }

  /** After every run from a well-formed menu each open menu selects nothing or one of its own items. */
  lemma EveryRunSelectsOwnItems(menu: Menu, ops: seq<Op>)
    requires WellFormed(menu) && MergesKeepOwners(Initial(menu), ops) && MergesKeepSelected(Initial(menu), ops)
    ensures SelectsOwnItems(Run(Initial(menu), ops).openMenus)
  {
    InitialIsValid(menu);
    RunSelectsOwn(Initial(menu), ops);
  }

  /**
   Every run from a well-formed menu: the open menus are a path from the root, no two have the same id,
   and there are at most as many as the tree is high.
   */
  lemma EveryRunKeepsPath(menu: Menu, ops: seq<Op>)
    requires WellFormed(menu) && MergesKeepOwners(Initial(menu), ops)
    ensures var s := Run(Initial(menu), ops);
      && IsPath(s.menu, s.openMenus) && |s.openMenus| <= Height(s.menu.items)
      && (forall j, k :: 0 <= j < k < |s.openMenus| ==> s.openMenus[j].id != s.openMenus[k].id)
  {
    var s := Run(Initial(menu), ops);
    InitialIsValid(menu);
    RunKeepsValid(Initial(menu), ops);
    PathDescends(s.menu, s.openMenus, |s.openMenus| - 1);
    forall j, k | 0 <= j < k < |s.openMenus| ensures s.openMenus[j].id != s.openMenus[k].id {
      PathHasDistinctIds(s.menu, s.openMenus, j, k);
    }
  }
}
