/**
 The class `AppMenu` of `app/src/models/app-menu.ts` and its transformers.
 */
module AppMenuState {
  import opened Strings
  import opened AppMenus

  datatype MenuError = WrongItemType

  // ---------- Searching ----------

  /** `openMenus.findIndex(m => m.id === id)`, or the length if there is none. */
  function FindMenu(open: seq<Menu>, id: string, k: nat): nat
    decreases |open| - k
  {
    if k >= |open| then |open| else if open[k].id == id then k else FindMenu(open, id, k + 1)
  }

  /** `openMenus.findIndex(m => m.items.indexOf(item) !== -1)`, or the length if there is none. */
  function FindParent(open: seq<Menu>, item: MenuItem, k: nat): nat
    decreases |open| - k
  {
    if k >= |open| then |open| else if item in open[k].items then k else FindParent(open, item, k + 1)
  }

  /** The first submenu item with that id. */
  function FindSubmenu(items: seq<MenuItem>, id: string, k: nat): Option<MenuItem>
    decreases |items| - k
  {
    if k >= |items| then None
    else if items[k].Submenu? && items[k].id == id then Some(items[k])
    else FindSubmenu(items, id, k + 1)
  }

  function FindSelectable(items: seq<MenuItem>, k: nat): Option<MenuItem>
    decreases |items| - k
  {
    if k >= |items| then None
    else if ItemIsSelectable(items[k]) then Some(items[k])
    else FindSelectable(items, k + 1)
  }

  // ---------- States ----------

  datatype AppMenu = AppMenu(menu: Menu, openMenus: seq<Menu>, menuItemById: IdMap) {

    /** The tree is well-formed, the map is its map, and the open menus are a path from its root. */
    ghost predicate Valid() {
      WellFormed(menu) && menuItemById == IdMapOf(menu) && IsPath(menu, openMenus)
    }

    function WithOpen(open: seq<Menu>): AppMenu {
      AppMenu(menu, open, menuItemById)
    }

    function WithOpenedMenu(submenuItem: MenuItem, selectFirstItem: bool): Result<AppMenu, MenuError> {
      if submenuItem.id !in menuItemById then Ok(this)
      else
        var ours := menuItemById[submenuItem.id];
        if !ours.Submenu? then Err(WrongItemType)
        else
          var parent := FindParent(openMenus, ours, 0);
          if parent >= |openMenus| then Ok(this)
          else
            var child := if selectFirstItem then ours.menu.(selectedItem := FindSelectable(ours.menu.items, 0))
                         else ours.menu;
            Ok(WithOpen(openMenus[..parent + 1] + [child]))
    }

    function WithClosedMenu(m: Menu): AppMenu {
      var k := FindMenu(openMenus, m.id, 0);
      if m.id == "" || k >= |openMenus| then this else WithOpen(openMenus[..k])
    }

    function WithLastMenu(m: Menu): AppMenu {
      var k := FindMenu(openMenus, m.id, 0);
      if k >= |openMenus| then this else WithOpen(openMenus[..k + 1])
    }

    function WithReset(): AppMenu {
      WithOpen([menu])
    }

    /** What `WithSelectedItem` gives. */
    function Selected(item: MenuItem): AppMenu {
      if item.id !in menuItemById then this
      else
        var ours := menuItemById[item.id];
        var p := FindParent(openMenus, ours, 0);
        if p >= |openMenus| then this else WithOpen(Reselected(openMenus, p, Some(ours), true))
    }

    /** What `WithDeselectedMenu` gives. */
    function Deselected(m: Menu): AppMenu {
      var p := FindMenu(openMenus, m.id, 0);
      if p >= |openMenus| then this else WithOpen(Reselected(openMenus, p, None, false))
    }

    /** What `WithMenu` gives. */
    function Merged(newMenu: Menu): AppMenu {
      AppMenu(newMenu, Reopened(openMenus, 0, newMenu, IdMapOf(newMenu)), IdMapOf(newMenu))
    }

    method WithSelectedItem(item: MenuItem) returns (r: AppMenu)
      ensures r == Selected(item)
    {
      if item.id !in menuItemById {
        return this;
      }
      var ours := menuItemById[item.id];
      var p := FindParent(openMenus, ours, 0);
      if p >= |openMenus| {
        return this;
      }
      var open := openMenus;
      open := open[p := open[p].(selectedItem := Some(ours))];
      for i := p + 1 to |open|
        invariant SelectionSoFar(openMenus, open, p, Some(ours), p, i)
      {
        open := open[i := open[i].(selectedItem := None)];
      }
      open := SelectPathTo(openMenus, open, p, Some(ours), |open|);
      ReselectedIs(openMenus, open, p, Some(ours), true);
      r := WithOpen(open);
    }

    method WithDeselectedMenu(m: Menu) returns (r: AppMenu)
      ensures r == Deselected(m)
    {
      var p := FindMenu(openMenus, m.id, 0);
      if p >= |openMenus| {
        return this;
      }
      var open := openMenus;
      open := open[p := open[p].(selectedItem := None)];
      open := SelectPathTo(openMenus, open, p, None, p + 1);
      ReselectedIs(openMenus, open, p, None, false);
      r := WithOpen(open);
    }

    method WithMenu(newMenu: Menu) returns (r: AppMenu)
      ensures r == Merged(newMenu)
    {
      var newMap := BuildIdMap(newMenu, map[]);
      var newOpen: seq<Menu> := [];
      var k := 0;
      while k < |openMenus|
        invariant 0 <= k <= |openMenus|
        invariant newOpen + Reopened(openMenus, k, newMenu, newMap) == Reopened(openMenus, 0, newMenu, newMap)
      {
        var m := Reopen(openMenus[k], newMenu, newMap);
        if m.None? {
          break;
        }
        OneMoreReopened(newOpen, m.value, Reopened(openMenus, k + 1, newMenu, newMap));
        newOpen := newOpen + [m.value];
        k := k + 1;
      }
      NoneBehind(newOpen, Reopened(openMenus, k, newMenu, newMap));
      r := AppMenu(newMenu, newOpen, newMap);
    }
  }

  method FromMenu(menu: Menu) returns (r: AppMenu)
    ensures r == Initial(menu)
  {
    var m := BuildIdMap(menu, map[]);
    r := AppMenu(menu, [menu], m);
  }

  function Initial(menu: Menu): AppMenu {
    AppMenu(menu, [menu], IdMapOf(menu))
  }

  // ---------- Merging with a new menu ----------

  /** The counterpart of an open menu in the new tree, with the counterpart of its selected item selected. */
  function Reopen(openMenu: Menu, newMenu: Menu, newMap: IdMap): Option<Menu> {
    if openMenu.id != "" && !(openMenu.id in newMap && newMap[openMenu.id].Submenu?) then None
    else
      var found := if openMenu.id == "" then newMenu else newMap[openMenu.id].menu;
      var selected := if openMenu.selectedItem.Some? && openMenu.selectedItem.value.id in newMap
                      then Some(newMap[openMenu.selectedItem.value.id]) else None;
      Some(Menu(found.id, found.items, selected))
  }

  /** The counterparts of the open menus from `k` on, up to the first that has none. */
  function Reopened(open: seq<Menu>, k: nat, newMenu: Menu, newMap: IdMap): seq<Menu>
    decreases |open| - k
  {
    if k >= |open| then []
    else match Reopen(open[k], newMenu, newMap)
      case None => []
      case Some(m) => [m] + Reopened(open, k + 1, newMenu, newMap)
  }

  lemma OneMoreReopened(a: seq<Menu>, m: Menu, rest: seq<Menu>)
    ensures a + ([m] + rest) == a + [m] + rest
  {
  }

  lemma NoneBehind(a: seq<Menu>, rest: seq<Menu>)
    requires rest == []
    ensures a + rest == a
  {
  }

  // ---------- Selection paths ----------

  /**
   Menus above `p` select the item that owns the next menu, menu `p` selects `selected`, and menus
   below select nothing, or what they did.
   */
  function Reselect(open: seq<Menu>, p: nat, selected: Option<MenuItem>, clearBelow: bool, i: nat): Menu
    requires p < |open| && i < |open|
  {
    if i < p then open[i].(selectedItem := FindSubmenu(open[i].items, open[i + 1].id, 0))
    else if i == p then open[i].(selectedItem := selected)
    else if clearBelow then open[i].(selectedItem := None)
    else open[i]
  }

  function Reselected(open: seq<Menu>, p: nat, selected: Option<MenuItem>, clearBelow: bool): seq<Menu>
    requires p < |open|
  {
    seq(|open|, i requires 0 <= i < |open| => Reselect(open, p, selected, clearBelow, i))
  }

  /** The open menus while they are reselected: done from `from` up to `to`. */
  ghost predicate SelectionSoFar(before: seq<Menu>, open: seq<Menu>, p: nat, selected: Option<MenuItem>, from: nat,
                                 to: nat) {
    && p < |before| && |open| == |before| && from <= p < to <= |before|
    && forall i {:trigger open[i]} :: 0 <= i < |open| ==>
         open[i] == if from <= i < to then Reselect(before, p, selected, true, i) else before[i]
  }

  /** The loop up from menu `p` to the root. */
  method SelectPathTo(ghost before: seq<Menu>, start: seq<Menu>, p: nat, ghost selected: Option<MenuItem>,
                      ghost to: nat)
    returns (open: seq<Menu>)
    requires SelectionSoFar(before, start, p, selected, p, to)
    ensures SelectionSoFar(before, open, p, selected, 0, to)
  {
    open := start;
    for i := p downto 0
      invariant SelectionSoFar(before, open, p, selected, i, to)
    {
      var child := open[i + 1];
      open := open[i := open[i].(selectedItem := FindSubmenu(open[i].items, child.id, 0))];
    }
  }

  lemma ReselectedIs(before: seq<Menu>, open: seq<Menu>, p: nat, selected: Option<MenuItem>, clearBelow: bool)
    requires p < |before|
    requires SelectionSoFar(before, open, p, selected, 0, if clearBelow then |before| else p + 1)
    ensures open == Reselected(before, p, selected, clearBelow)
  {
    assert open == Reselected(before, p, selected, clearBelow);
  }
}
