/**
 `app/src/models/app-menu.ts`: the application menu, an immutable state machine over a menu tree. Its
 state is the chain of open menus, each with the item selected in it. A missing menu id is the
 empty string here. Items are compared as values, which is comparing objects as long as ids are unique.
 */
module AppMenus {
  import opened Strings

  // ---------- Menus ----------

  datatype MenuItem =
    | Separator(id: string, visible: bool)
    | Executable(id: string, visible: bool, enabled: bool)
    | Submenu(id: string, visible: bool, enabled: bool, menu: Menu)

  datatype Menu = Menu(id: string, items: seq<MenuItem>, selectedItem: Option<MenuItem>)

  predicate ItemIsSelectable(item: MenuItem) {
    !item.Separator? && item.enabled && item.visible
  }

  type IdMap = map<string, MenuItem>

  // ---------- The tree ----------

  /** All items of a menu and of its submenus, each before the items of its own submenu. */
  function PreOrder(items: seq<MenuItem>): seq<MenuItem>
    decreases items
  {
    if |items| == 0 then []
    else
      var rest := PreOrder(items[1..]);
      [items[0]] + (if items[0].Submenu? then PreOrder(items[0].menu.items) + rest else rest)
  }

  /** How many menus can be open at most when one leads to the next. */
  function Height(items: seq<MenuItem>): (h: nat)
    ensures h >= 1
    decreases items
  {
    if |items| == 0 then 1
    else
      var rest := Height(items[1..]);
      if items[0].Submenu? && Height(items[0].menu.items) + 1 > rest then Height(items[0].menu.items) + 1 else rest
  }

  /** Adds the items of a list, and of its submenus, to the map. */
  function AddItems(items: seq<MenuItem>, m: IdMap): IdMap
    decreases items
  {
    if |items| == 0 then m
    else
      var m' := m[items[0].id := items[0]];
      AddItems(items[1..], if items[0].Submenu? then AddItems(items[0].menu.items, m') else m')
  }

  /** The map of a list of items in which the last item with an id wins. */
  function LastWins(items: seq<MenuItem>, m: IdMap): IdMap {
    if |items| == 0 then m else LastWins(items[1..], m[items[0].id := items[0]])
  }

  lemma {:induction false} LastWinsAppend(a: seq<MenuItem>, b: seq<MenuItem>, m: IdMap)
    ensures LastWins(a + b, m) == LastWins(b, LastWins(a, m))
  {
    if |a| == 0 {
      assert a + b == b;
    } else {
      assert (a + b)[1..] == a[1..] + b;
      LastWinsAppend(a[1..], b, m[a[0].id := a[0]]);
    }
  }

  /** Building the map by recursion is a pre-order walk in which the last item with an id wins. */
  lemma {:induction false} AddItemsIsPreOrder(items: seq<MenuItem>, m: IdMap)
    ensures AddItems(items, m) == LastWins(PreOrder(items), m)
    decreases items
  {
    if |items| > 0 {
      var m', rest := m[items[0].id := items[0]], PreOrder(items[1..]);
      var behind := if items[0].Submenu? then PreOrder(items[0].menu.items) + rest else rest;
      assert ([items[0]] + behind)[1..] == behind;
      if items[0].Submenu? {
        AddItemsIsPreOrder(items[0].menu.items, m');
        LastWinsAppend(PreOrder(items[0].menu.items), rest, m');
        AddItemsIsPreOrder(items[1..], AddItems(items[0].menu.items, m'));
      } else {
        AddItemsIsPreOrder(items[1..], m');
      }
    }
  }

  /** Fills the map in place. */
  method BuildIdMap(menu: Menu, start: IdMap) returns (m: IdMap)
    ensures m == AddItems(menu.items, start)
    decreases menu
  {
    m := start;
    ghost var rest := menu.items;
    for k := 0 to |menu.items|
      invariant rest == menu.items[k..]
      invariant AddItems(rest, m) == AddItems(menu.items, start)
    {
      var item := menu.items[k];
      assert rest[0] == item && rest[1..] == menu.items[k + 1..];
      m := m[item.id := item];
      if item.Submenu? {
        m := BuildIdMap(item.menu, m);
      }
      rest := rest[1..];
    }
  }

  // ---------- Well-formed trees ----------

  /** Ids are not empty, a submenu has the id of its item, and nothing is selected. */
  predicate WellFormedItems(items: seq<MenuItem>)
    decreases items
  {
    |items| > 0 ==>
      && items[0].id != ""
      && (items[0].Submenu? ==> items[0].menu.id == items[0].id && items[0].menu.selectedItem == None
                                && WellFormedItems(items[0].menu.items))
      && WellFormedItems(items[1..])
  }

  ghost predicate UniqueIds(items: seq<MenuItem>) {
    forall i, j :: 0 <= i < j < |items| ==> items[i].id != items[j].id
  }

  ghost predicate WellFormed(menu: Menu) {
    menu.id == "" && menu.selectedItem == None && WellFormedItems(menu.items) && UniqueIds(PreOrder(menu.items))
  }

  /** Every item of the tree is well-formed, and so is what is below it. */
  lemma {:induction false} WellFormedIn(items: seq<MenuItem>, x: MenuItem)
    requires WellFormedItems(items) && x in PreOrder(items)
    ensures x.id != "" && (x.Submenu? ==> x.menu.id == x.id && x.menu.selectedItem == None)
    decreases items
  {
    if x == items[0] {
    } else if items[0].Submenu? && x in PreOrder(items[0].menu.items) {
      WellFormedIn(items[0].menu.items, x);
    } else {
      WellFormedIn(items[1..], x);
    }
  }

  lemma {:induction false} ItemInTree(items: seq<MenuItem>, x: MenuItem)
    requires x in items
    ensures x in PreOrder(items)
  {
    if x != items[0] {
      ItemInTree(items[1..], x);
    }
  }

  /** What is below an item is below the list the item is in. */
  lemma {:induction false} BelowInTree(items: seq<MenuItem>, o: MenuItem, x: MenuItem)
    requires o in items && o.Submenu? && x in PreOrder(o.menu.items)
    ensures x in PreOrder(items)
  {
    if o != items[0] {
      BelowInTree(items[1..], o, x);
    }
  }

  lemma {:induction false} LowerBelow(items: seq<MenuItem>, o: MenuItem)
    requires o in items && o.Submenu?
    ensures Height(o.menu.items) < Height(items)
  {
    if o != items[0] {
      LowerBelow(items[1..], o);
    }
  }

  // ---------- Looking up ids ----------

  lemma {:induction false} LookupIsItem(items: seq<MenuItem>, m: IdMap, id: string)
    requires id in LastWins(items, m)
    ensures var x := LastWins(items, m)[id]; (x in items && x.id == id) || (id in m && x == m[id])
  {
    if |items| > 0 {
      LookupIsItem(items[1..], m[items[0].id := items[0]], id);
    }
  }

  lemma {:induction false} LookupIsKept(items: seq<MenuItem>, m: IdMap, id: string)
    requires id in m && forall i :: 0 <= i < |items| ==> items[i].id != id
    ensures id in LastWins(items, m) && LastWins(items, m)[id] == m[id]
  {
    if |items| > 0 {
      LookupIsKept(items[1..], m[items[0].id := items[0]], id);
    }
  }

  lemma {:induction false} LookupFinds(items: seq<MenuItem>, m: IdMap, i: nat)
    requires UniqueIds(items) && i < |items|
    ensures items[i].id in LastWins(items, m) && LastWins(items, m)[items[i].id] == items[i]
  {
    if i == 0 {
      LookupIsKept(items[1..], m[items[0].id := items[0]], items[0].id);
    } else {
      LookupFinds(items[1..], m[items[0].id := items[0]], i - 1);
    }
  }

  function IdMapOf(menu: Menu): IdMap {
    AddItems(menu.items, map[])
  }

  /** In a tree with unique ids the map holds just the items of the tree, each under its id. */
  lemma IdMapIsTree(menu: Menu, x: MenuItem)
    requires UniqueIds(PreOrder(menu.items))
    ensures x in PreOrder(menu.items) <==> x.id in IdMapOf(menu) && IdMapOf(menu)[x.id] == x
  {
    AddItemsIsPreOrder(menu.items, map[]);
    if x in PreOrder(menu.items) {
      var i :| 0 <= i < |PreOrder(menu.items)| && PreOrder(menu.items)[i] == x;
      LookupFinds(PreOrder(menu.items), map[], i);
    } else if x.id in IdMapOf(menu) {
      LookupIsItem(PreOrder(menu.items), map[], x.id);
    }
  }

  lemma FoundInTree(menu: Menu, id: string)
    requires id in IdMapOf(menu)
    ensures IdMapOf(menu)[id].id == id && IdMapOf(menu)[id] in PreOrder(menu.items)
  {
    AddItemsIsPreOrder(menu.items, map[]);
    LookupIsItem(PreOrder(menu.items), map[], id);
  }

  // ---------- Paths ----------

  /** The same menu, whatever is selected in it. */
  predicate SameMenu(a: Menu, b: Menu) {
    a.id == b.id && a.items == b.items
  }

  predicate IsOwner(item: MenuItem, child: Menu) {
    item.Submenu? && item.id == child.id && SameMenu(item.menu, child)
  }

  ghost predicate Owns(parent: Menu, child: Menu) {
    exists item :: item in parent.items && IsOwner(item, child)
  }

  /** The root first, and each next menu is owned by a submenu item of the one before. */
  ghost predicate IsPath(root: Menu, open: seq<Menu>) {
    && |open| > 0 && SameMenu(open[0], root)
    && forall k {:trigger open[k]} :: 0 < k < |open| ==> Owns(open[k - 1], open[k])
  }

  lemma {:induction false} PathInTree(root: Menu, open: seq<Menu>, k: nat, x: MenuItem)
    requires IsPath(root, open) && k < |open| && x in PreOrder(open[k].items)
    ensures x in PreOrder(root.items)
  {
    if k > 0 {
      var o :| o in open[k - 1].items && IsOwner(o, open[k]);
      BelowInTree(open[k - 1].items, o, x);
      PathInTree(root, open, k - 1, x);
    }
  }

  lemma {:induction false} PathDescends(root: Menu, open: seq<Menu>, k: nat)
    requires IsPath(root, open) && k < |open|
    ensures Height(open[k].items) + k <= Height(root.items)
  {
    if k > 0 {
      var o :| o in open[k - 1].items && IsOwner(o, open[k]);
      LowerBelow(open[k - 1].items, o);
      PathDescends(root, open, k - 1);
    }
  }

  lemma {:induction false} LowerAlongPath(root: Menu, open: seq<Menu>, j: nat, k: nat)
    requires IsPath(root, open) && j < k < |open|
    ensures Height(open[k].items) < Height(open[j].items)
    decreases k
  {
    assert Owns(open[k - 1], open[k]);
    var o :| o in open[k - 1].items && IsOwner(o, open[k]);
    LowerBelow(open[k - 1].items, o);
    if j < k - 1 {
      LowerAlongPath(root, open, j, k - 1);
    }
  }

  /** A menu on the path, but the root, belongs to an item of the tree. */
  lemma OwnerInTree(root: Menu, open: seq<Menu>, k: nat) returns (o: MenuItem)
    requires IsPath(root, open) && 0 < k < |open|
    ensures o in open[k - 1].items && IsOwner(o, open[k]) && o in PreOrder(root.items)
  {
    assert Owns(open[k - 1], open[k]);
    o :| o in open[k - 1].items && IsOwner(o, open[k]);
    ItemInTree(open[k - 1].items, o);
    PathInTree(root, open, k - 1, o);
  }

  lemma SameIdSameItem(items: seq<MenuItem>, a: MenuItem, b: MenuItem)
    requires UniqueIds(items) && a in items && b in items && a.id == b.id
    ensures a == b
  {
  }

  /** No two menus on a path have the same id, and there are at most as many as the tree is high. */
  lemma PathHasDistinctIds(root: Menu, open: seq<Menu>, j: nat, k: nat)
    requires WellFormed(root) && IsPath(root, open) && j < k < |open|
    ensures open[j].id != open[k].id && |open| <= Height(root.items)
  {
    PathDescends(root, open, |open| - 1);
    var o := OwnerInTree(root, open, k);
    WellFormedIn(root.items, o);
    if j > 0 {
      var p := OwnerInTree(root, open, j);
      LowerAlongPath(root, open, j, k);
      if o.id == p.id {
        SameIdSameItem(PreOrder(root.items), o, p);
      }
    }
  }

  /** The item whose submenu is the highest, if there is a submenu. */
  lemma {:induction false} HighestItem(items: seq<MenuItem>) returns (o: Option<MenuItem>)
    requires WellFormedItems(items)
    ensures o.Some? ==> o.value.Submenu? && o.value.id == o.value.menu.id && WellFormedItems(o.value.menu.items)
    ensures o.None? ==> Height(items) == 1
    ensures o.Some? ==> o.value in items && o.value.Submenu? && Height(items) == Height(o.value.menu.items) + 1
  {
    o := None;
    if |items| > 0 {
      o := HighestItem(items[1..]);
      if items[0].Submenu? && Height(items[0].menu.items) + 1 == Height(items) {
        o := Some(items[0]);
      }
    }
  }

  /** As many menus as a tree is high can be open. */
  lemma {:induction false} HighestPath(root: Menu) returns (open: seq<Menu>)
    requires WellFormedItems(root.items)
    ensures IsPath(root, open) && |open| == Height(root.items) && open[0] == root
    decreases root
  {
    var o := HighestItem(root.items);
    open := [root];
    if o.Some? {
      var behind := HighestPath(o.value.menu);
      open := [root] + behind;
      assert IsOwner(o.value, behind[0]);
      forall k | 0 < k < |open| ensures Owns(open[k - 1], open[k]) {
        assert k > 1 ==> Owns(behind[k - 2], behind[k - 1]);
      }
    }
  }
}
