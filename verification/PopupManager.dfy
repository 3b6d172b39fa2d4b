/**
 `app/src/lib/popup-manager.ts`: the stack of open popups. Ids come from outside, where they are drawn at random.
 */
module PopupManager {
  import opened Strings

  /** The kind of a popup, and of what an error popup reports, its message. */
  datatype Popup = Popup(id: Option<string>, kind: string, error: string)

  const ERROR := "Error"
  const DEFAULT_POPUP_STACK_LIMIT := 50

  predicate IsError(p: Popup) {
    p.kind == ERROR
  }

  // ---------- The stack as a list ----------

  /** `popupStack.filter(keep)` */
  function Filter(s: seq<Popup>, keep: Popup -> bool): seq<Popup> {
    if |s| == 0 then []
    else if keep(s[|s| - 1]) then Filter(s[..|s| - 1], keep) + [s[|s| - 1]]
    else Filter(s[..|s| - 1], keep)
  }

  function OfKind(kind: string): Popup -> bool {
    (p: Popup) => p.kind == kind
  }

  function NotOfKind(kind: string): Popup -> bool {
    (p: Popup) => p.kind != kind
  }

  function WithoutId(id: string): Popup -> bool {
    (p: Popup) => p.id != Some(id)
  }

  /** `popupStack.at(-1)` */
  function Current(s: seq<Popup>): Option<Popup> {
    if |s| > 0 then Some(s[|s| - 1]) else None
  }

  /** Without its lowest popup if it is too long. */
  function Checked(s: seq<Popup>, limit: nat): seq<Popup> {
    if |s| > limit then s[1..] else s
  }

  predicate EndsWithError(s: seq<Popup>) {
    |s| > 0 && IsError(s[|s| - 1])
  }

  function Inserted(s: seq<Popup>, p: Popup): seq<Popup> {
    if !EndsWithError(s) then s + [p] else Filter(s, NotOfKind(ERROR)) + [p] + Filter(s, OfKind(ERROR))
  }

  /** The popup that an addition makes: its own id, if it has one, or the new one. */
  function Identified(p: Popup, newId: string): Popup {
    if p.id.Some? then p else p.(id := Some(newId))
  }

  function WithError(s: seq<Popup>, error: string, newId: string, limit: nat): seq<Popup> {
    Checked(s + [Popup(Some(newId), ERROR, error)], limit)
  }

  /** The popup that `addPopup` returns. */
  function Returned(s: seq<Popup>, p: Popup, newId: string): Popup {
    if IsError(p) then Popup(Some(newId), ERROR, p.error)
    else if Filter(s, OfKind(p.kind)) != [] then p
    else Identified(p, newId)
  }

  function Added(s: seq<Popup>, p: Popup, newId: string, limit: nat): seq<Popup> {
    if IsError(p) then WithError(s, p.error, newId, limit)
    else if Filter(s, OfKind(p.kind)) != [] then s
    else Checked(Inserted(s, Identified(p, newId)), limit)
  }

  /** The index of the first popup with that id, or the length if there is none. */
  function FindId(s: seq<Popup>, id: Option<string>, k: nat): nat
    decreases |s| - k
  {
    if k >= |s| then |s| else if s[k].id == id then k else FindId(s, id, k + 1)
  }

  function Updated(s: seq<Popup>, p: Popup): seq<Popup> {
    var k := FindId(s, p.id, 0);
    if p.id.None? || k >= |s| then s else s[..k] + [p] + s[k + 1..]
  }

  function Removed(s: seq<Popup>, p: Popup): seq<Popup> {
    if p.id.None? then s else Filter(s, WithoutId(p.id.value))
  }

  // ---------- The manager ----------

  class PopupManager {
    const popupLimit: nat
    var popupStack: seq<Popup>

    constructor (popupLimit: nat := DEFAULT_POPUP_STACK_LIMIT)
      ensures this.popupLimit == popupLimit && popupStack == []
    {
      this.popupLimit := popupLimit;
      popupStack := [];
    }

    function CurrentPopup(): Option<Popup>
      reads this
    {
      Current(popupStack)
    }

    method GetPopupsOfType(kind: string) returns (popups: seq<Popup>)
      ensures popups == Filter(popupStack, OfKind(kind))
    {
      popups := Filter(popupStack, OfKind(kind));
    }

    method AddPopup(popupToAdd: Popup, newId: string) returns (popup: Popup)
      modifies this`popupStack
      ensures popupStack == Added(old(popupStack), popupToAdd, newId, popupLimit)
      ensures popup == Returned(old(popupStack), popupToAdd, newId)
    {
      if IsError(popupToAdd) {
        popup := AddErrorPopup(popupToAdd.error, newId);
        return;
      }
      var existingPopup := GetPopupsOfType(popupToAdd.kind);
      popup := Identified(popupToAdd, newId);
      if |existingPopup| > 0 {
        return popupToAdd;
      }
      InsertBeforeErrorPopups(popup);
      CheckStackLength();
    }

    method InsertBeforeErrorPopups(popup: Popup)
      modifies this`popupStack
      ensures popupStack == Inserted(old(popupStack), popup)
    {
      if |popupStack| == 0 || !IsError(popupStack[|popupStack| - 1]) {
        popupStack := popupStack + [popup];
        return;
      }
      var errorPopups := GetPopupsOfType(ERROR);
      var nonErrorPopups := Filter(popupStack, NotOfKind(ERROR));
      popupStack := nonErrorPopups + [popup] + errorPopups;
    }

    method AddErrorPopup(error: string, newId: string) returns (popup: Popup)
      modifies this`popupStack
      ensures popup == Popup(Some(newId), ERROR, error)
      ensures popupStack == WithError(old(popupStack), error, newId, popupLimit)
    {
      popup := Popup(Some(newId), ERROR, error);
      popupStack := popupStack + [popup];
      CheckStackLength();
    }

    method CheckStackLength()
      modifies this`popupStack
      ensures popupStack == Checked(old(popupStack), popupLimit)
    {
      if |popupStack| > popupLimit {
        popupStack := popupStack[1..];
      }
    }

    method UpdatePopup(popupToUpdate: Popup)
      modifies this`popupStack
      ensures popupStack == Updated(old(popupStack), popupToUpdate)
    {
      if popupToUpdate.id.None? {
        return;
      }
      var index := FindId(popupStack, popupToUpdate.id, 0);
      if index >= |popupStack| {
        return;
      }
      popupStack := popupStack[..index] + [popupToUpdate] + popupStack[index + 1..];
    }

    method RemovePopup(popup: Popup)
      modifies this`popupStack
      ensures popupStack == Removed(old(popupStack), popup)
    {
      if popup.id.None? {
        return;
      }
      popupStack := Filter(popupStack, WithoutId(popup.id.value));
    }

    method RemovePopupByType(kind: string)
      modifies this`popupStack
      ensures popupStack == Filter(old(popupStack), NotOfKind(kind))
    {
      popupStack := Filter(popupStack, NotOfKind(kind));
    }

    method RemovePopupById(id: string)
      modifies this`popupStack
      ensures popupStack == Filter(old(popupStack), WithoutId(id))
    {
      popupStack := Filter(popupStack, WithoutId(id));
    }
  }

  // ---------- Pairs of popups ----------

  type Relation = (Popup, Popup) -> bool

  /** Each popup is related to every popup above it. */
  ghost predicate Pairwise(s: seq<Popup>, r: Relation) {
    forall i, j :: 0 <= i < j < |s| ==> r(s[i], s[j])
  }

  /** Every popup that is kept was there, and the kept ones are in their order. */
  lemma {:induction false} FilterKeeps(s: seq<Popup>, keep: Popup -> bool, r: Relation)
    ensures var f := Filter(s, keep);
      && |f| <= |s| && (forall p :: p in f <==> p in s && keep(p))
      && (Pairwise(s, r) ==> Pairwise(f, r))
  {
    if |s| > 0 {
      var front, last := s[..|s| - 1], s[|s| - 1];
      FilterKeeps(front, keep, r);
      assert forall p :: p in s <==> p in front || p == last;
      if Pairwise(s, r) {
        assert Pairwise(front, r);
        var f := Filter(front, keep);
        forall i | 0 <= i < |f| ensures r(f[i], last) {
          assert f[i] in front;
        }
      }
    }
  }

  lemma TailKeeps(s: seq<Popup>, r: Relation)
    requires |s| > 0 && Pairwise(s, r)
    ensures Pairwise(s[1..], r)
  {
  }

  lemma AppendKeeps(s: seq<Popup>, p: Popup, r: Relation)
    requires Pairwise(s, r) && forall a :: a in s ==> r(a, p)
    ensures Pairwise(s + [p], r)
  {
  }

  lemma InsertKeeps(a: seq<Popup>, p: Popup, b: seq<Popup>, r: Relation)
    requires Pairwise(a, r) && Pairwise(b, r)
    requires (forall x :: x in a ==> r(x, p)) && (forall y :: y in b ==> r(p, y))
    requires (forall x, y :: x in a && y in b ==> r(x, y))
    ensures Pairwise(a + [p] + b, r)
  {
  }

  lemma ReplaceKeeps(s: seq<Popup>, k: nat, p: Popup, r: Relation)
    requires k < |s| && Pairwise(s, r)
    requires forall q :: (r(q, s[k]) ==> r(q, p)) && (r(s[k], q) ==> r(p, q))
    ensures Pairwise(s[..k] + [p] + s[k + 1..], r)
  {
  }

  // ---------- What every step keeps ----------

  function ErrorsLast(): Relation {
    (a: Popup, b: Popup) => IsError(a) ==> IsError(b)
  }

  function DistinctKinds(): Relation {
    (a: Popup, b: Popup) => !IsError(a) ==> a.kind != b.kind
  }

  lemma CheckedKeeps(s: seq<Popup>, limit: nat, r: Relation)
    requires Pairwise(s, r)
    ensures Pairwise(Checked(s, limit), r)
    ensures |s| <= limit + 1 ==> |Checked(s, limit)| <= limit
    ensures forall p :: p in Checked(s, limit) ==> p in s
  {
    if |s| > limit {
      TailKeeps(s, r);
    }
  }

  /** What a new popup must be to the ones that are there, for a relation to be kept. */
  ghost predicate Joins(s: seq<Popup>, p: Popup, r: Relation) {
    if IsError(p) then forall a :: a in s ==> r(a, p)
    else
      && (forall a :: a in s && !IsError(a) ==> r(a, p))
      && (forall b :: b in s && IsError(b) ==> r(p, b))
      && (forall a, b :: a in s && b in s && !IsError(a) && IsError(b) ==> r(a, b))
  }

  lemma InsertedKeeps(s: seq<Popup>, p: Popup, r: Relation)
    requires Pairwise(s, r) && Pairwise(s, ErrorsLast()) && !IsError(p) && Joins(s, p, r)
    ensures Pairwise(Inserted(s, p), r) && |Inserted(s, p)| <= |s| + 1
    ensures forall q :: q in Inserted(s, p) ==> q in s || q == p
  {
    FilterKeeps(s, NotOfKind(ERROR), r);
    FilterKeeps(s, OfKind(ERROR), r);
    if EndsWithError(s) {
      InsertKeeps(Filter(s, NotOfKind(ERROR)), p, Filter(s, OfKind(ERROR)), r);
      FilterPartition(s);
    } else {
      forall a | a in s ensures r(a, p) {
        var i :| 0 <= i < |s| && s[i] == a;
        if i < |s| - 1 {
          assert ErrorsLast()(s[i], s[|s| - 1]);
        }
      }
      AppendKeeps(s, p, r);
    }
  }

  lemma {:induction false} FilterPartition(s: seq<Popup>)
    ensures |Filter(s, NotOfKind(ERROR))| + |Filter(s, OfKind(ERROR))| == |s|
  {
    if |s| > 0 {
      FilterPartition(s[..|s| - 1]);
    }
  }

  /** An addition keeps a relation that the new popup joins. */
  lemma AddedKeeps(s: seq<Popup>, p: Popup, newId: string, limit: nat, r: Relation)
    requires Pairwise(s, r) && Pairwise(s, ErrorsLast()) && |s| <= limit
    requires Filter(s, OfKind(p.kind)) == [] || IsError(p) ==>
      Joins(s, if IsError(p) then Popup(Some(newId), ERROR, p.error) else Identified(p, newId), r)
    ensures Pairwise(Added(s, p, newId, limit), r) && |Added(s, p, newId, limit)| <= limit
  {
    if IsError(p) {
      AppendKeeps(s, Popup(Some(newId), ERROR, p.error), r);
      CheckedKeeps(s + [Popup(Some(newId), ERROR, p.error)], limit, r);
    } else if Filter(s, OfKind(p.kind)) == [] {
      InsertedKeeps(s, Identified(p, newId), r);
      CheckedKeeps(Inserted(s, Identified(p, newId)), limit, r);
    }
  }

  lemma {:induction false} FindIdIs(s: seq<Popup>, id: Option<string>, k: nat)
    requires k <= |s|
    ensures var n := FindId(s, id, k); k <= n <= |s| && (n < |s| ==> s[n].id == id)
    decreases |s| - k
  {
    if k < |s| && s[k].id != id {
      FindIdIs(s, id, k + 1);
    }
  }

  /** A relation that looks at ids and kinds only. */
  ghost predicate LooksAtIds(r: Relation) {
    && (forall a: Popup, b: Popup, c: Popup :: a.id == b.id && a.kind == b.kind && r(a, c) ==> r(b, c))
    && (forall a: Popup, b: Popup, c: Popup :: a.id == b.id && a.kind == b.kind && r(c, a) ==> r(c, b))
  }

  lemma UpdatedKeeps(s: seq<Popup>, p: Popup, r: Relation)
    requires Pairwise(s, r) && LooksAtIds(r) && forall q :: q in s && q.id == p.id ==> q.kind == p.kind
    ensures Pairwise(Updated(s, p), r) && |Updated(s, p)| == |s|
    ensures forall q :: q in Updated(s, p) ==> q in s || (q == p && exists o :: o in s && o.id == p.id)
  {
    var k := FindId(s, p.id, 0);
    FindIdIs(s, p.id, 0);
    if p.id.Some? && k < |s| {
      assert s[k] in s;
      ReplaceKeeps(s, k, p, r);
    }
  }

  // ---------- What a step leaves ----------

  lemma {:induction false} FilterAppend(a: seq<Popup>, b: seq<Popup>, keep: Popup -> bool)
    ensures Filter(a + b, keep) == Filter(a, keep) + Filter(b, keep)
    decreases |b|
  {
    if |b| == 0 {
      assert a + b == a && Filter(a, keep) + [] == Filter(a, keep);
    } else {
      var front, last := b[..|b| - 1], b[|b| - 1];
      FilterAppend(a, front, keep);
      assert (a + b)[..|a + b| - 1] == a + front && (a + b)[|a + b| - 1] == last;
      assert Filter(a, keep) + (Filter(front, keep) + [last]) == Filter(a, keep) + Filter(front, keep) + [last];
    }
  }

  lemma FilterOne(q: Popup, keep: Popup -> bool)
    ensures Filter([q], keep) == if keep(q) then [q] else []
  {
    assert [q][..0] == [] && Filter([], keep) == [];
  }

  /** With a step that removes popups this one goes. */
  predicate Goes(q: Popup, op: Op) {
    match op
    case Remove(p) => p.id.Some? && q.id == p.id
    case RemoveByType(kind) => q.kind == kind
    case RemoveById(id) => q.id == Some(id)
    case _ => false
  }

  /** Removing goes popup by popup: just those meant go, and the others keep their order. */
  lemma RemovingIs(a: seq<Popup>, q: Popup, b: seq<Popup>, op: Op, newId: string, limit: nat)
    requires op.Remove? || op.RemoveByType? || op.RemoveById?
    ensures Step([], op, newId, limit) == []
    ensures Step(a + [q] + b, op, newId, limit)
         == Step(a, op, newId, limit) + (if Goes(q, op) then [] else [q]) + Step(b, op, newId, limit)
  {
    if !(op.Remove? && op.popup.id.None?) {
      var keep := match op
        case Remove(p) => WithoutId(p.id.value)
        case RemoveByType(kind) => NotOfKind(kind)
        case RemoveById(id) => WithoutId(id)
        case _ => NotOfKind("");
      FilterAppend(a + [q], b, keep);
      FilterAppend(a, [q], keep);
      FilterOne(q, keep);
    }
  }

  /** An update replaces the first popup with that id, where it stands, and no other; without one it does nothing. */
  lemma UpdatingIs(s: seq<Popup>, p: Popup)
    ensures forall k :: 0 <= k < |s| && p.id.Some? && s[k].id == p.id && (forall j :: 0 <= j < k ==> s[j].id != p.id)
              ==> Updated(s, p) == s[k := p]
    ensures p.id.None? || (forall j :: 0 <= j < |s| ==> s[j].id != p.id) ==> Updated(s, p) == s
  {
    FindIdIs(s, p.id, 0);
    FindIdIsFirst(s, p.id, 0);
  }

  lemma {:induction false} FindIdIsFirst(s: seq<Popup>, id: Option<string>, k: nat)
    requires k <= |s|
    ensures forall j :: k <= j < FindId(s, id, k) && j < |s| ==> s[j].id != id
    decreases |s| - k
  {
    if k < |s| && s[k].id != id {
      FindIdIsFirst(s, id, k + 1);
    }
  }

  /** Some popup is of that kind. */
  ghost predicate HasKind(s: seq<Popup>, kind: string) {
    exists k :: 0 <= k < |s| && s[k].kind == kind
  }

  lemma HasKindIff(s: seq<Popup>, kind: string)
    ensures Filter(s, OfKind(kind)) != [] <==> HasKind(s, kind)
  {
    FilterKeeps(s, OfKind(kind), ErrorsLast());
    if Filter(s, OfKind(kind)) != [] {
      assert Filter(s, OfKind(kind))[0] in s;
    }
    if HasKind(s, kind) {
      var k :| 0 <= k < |s| && s[k].kind == kind;
      assert s[k] in Filter(s, OfKind(kind));
    }
  }

  lemma InsertedIs(a: seq<Popup>, b: seq<Popup>, p: Popup)
    requires (forall k :: 0 <= k < |a| ==> a[k].kind != "Error") && (forall k :: 0 <= k < |b| ==> b[k].kind == "Error")
    ensures Inserted(a + b, p) == a + [p] + b
  {
    if b == [] {
      assert a + b == a && a + [p] + b == a + [p];
    } else {
      FilterAppend(a, b, NotOfKind(ERROR));
      FilterAppend(a, b, OfKind(ERROR));
      FilterAll(a, NotOfKind(ERROR), true);
      FilterAll(a, OfKind(ERROR), false);
      FilterAll(b, NotOfKind(ERROR), false);
      FilterAll(b, OfKind(ERROR), true);
      assert (a + b)[|a + b| - 1] == b[|b| - 1] && a + [] == a && [] + b == b;
    }
  }

  /** What has become of non-errors `a` below errors `b` when a popup is added and the length not yet checked. */
  function GrownTo(a: seq<Popup>, b: seq<Popup>, p: Popup, newId: string): seq<Popup> {
    if p.kind == "Error" then a + b + [Popup(Some(newId), "Error", p.error)]
    else a + [if p.id.Some? then p else p.(id := Some(newId))] + b
  }

  /**
   What an addition leaves of non-errors `a` below errors `b`: an error goes on top, another popup between them if
   there is none of its kind, and the lowest popup goes if there are too many.
   */
  lemma AddingIs(a: seq<Popup>, b: seq<Popup>, p: Popup, newId: string, limit: nat)
    requires |a| + |b| <= limit
    requires (forall k :: 0 <= k < |a| ==> a[k].kind != "Error") && (forall k :: 0 <= k < |b| ==> b[k].kind == "Error")
    ensures Added(a + b, p, newId, limit)
         == if p.kind != "Error" && HasKind(a, p.kind) then a + b
            else if |a| + |b| == limit then GrownTo(a, b, p, newId)[1..] else GrownTo(a, b, p, newId)
  {
    HasKindIff(a, p.kind);
    FilterAppend(a, b, OfKind(p.kind));
    if p.kind != "Error" {
      FilterAll(b, OfKind(p.kind), false);
      assert Filter(a, OfKind(p.kind)) + [] == Filter(a, OfKind(p.kind));
      InsertedIs(a, b, if p.id.Some? then p else p.(id := Some(newId)));
    }
  }

  // ---------- Runs ----------

  datatype Op =
    | Add(popup: Popup)
    | AddError(error: string)
    | Update(popup: Popup)
    | Remove(popup: Popup)
    | RemoveByType(kind: string)
    | RemoveById(id: string)

  /** The id drawn at each step. */
  type Ids = nat -> string

  function Step(s: seq<Popup>, op: Op, newId: string, limit: nat): seq<Popup> {
    match op
    case Add(p) => Added(s, p, newId, limit)
    case AddError(error) => WithError(s, error, newId, limit)
    case Update(p) => Updated(s, p)
    case Remove(p) => Removed(s, p)
    case RemoveByType(kind) => Filter(s, NotOfKind(kind))
    case RemoveById(id) => Filter(s, WithoutId(id))
  }

  /** The stack after the first `n` steps of a run. */
  function Stack(ops: seq<Op>, n: nat, ids: Ids, limit: nat): seq<Popup>
    requires n <= |ops|
  {
    if n == 0 then [] else Step(Stack(ops, n - 1, ids, limit), ops[n - 1], ids(n - 1), limit)
  }

  /** Additions carry no id, and updates keep the kind. */
  predicate Allowed(s: seq<Popup>, op: Op) {
    match op
    case Add(p) => p.id.None?
    case Update(p) => forall q :: q in s && q.id == p.id ==> q.kind == p.kind
    case _ => true
  }

  /** The first `n` steps of a run are allowed. */
  predicate AllAllowed(ops: seq<Op>, n: nat, ids: Ids, limit: nat)
    requires n <= |ops|
  {
    n > 0 ==> AllAllowed(ops, n - 1, ids, limit) && Allowed(Stack(ops, n - 1, ids, limit), ops[n - 1])
  }

  ghost predicate AllDifferent(ids: Ids) {
    forall i: nat, j: nat :: ids(i) == ids(j) ==> i == j
  }

  /** The popup was added at step `n`. */
  predicate AddedAt(p: Popup, ids: Ids, n: nat) {
    p.id == Some(ids(n))
  }

  /** Of two errors, and of two other popups, the lower one was added before the upper one. */
  ghost predicate IsBefore(a: Popup, b: Popup, ids: Ids) {
    IsError(a) == IsError(b) ==> forall i: nat, j: nat :: AddedAt(a, ids, i) && AddedAt(b, ids, j) ==> i < j
  }

  ghost function AddedBefore(ids: Ids): Relation {
    (a: Popup, b: Popup) => IsBefore(a, b, ids)
  }

  ghost predicate AddedUpTo(s: seq<Popup>, ids: Ids, n: nat) {
    forall p :: p in s ==> exists m: nat :: m < n && AddedAt(p, ids, m)
  }

  /** Non-error popups, at most one of a kind, then errors, each group in the order of addition; not too many. */
  ghost predicate Ordered(s: seq<Popup>, ids: Ids, n: nat, limit: nat) {
    && Pairwise(s, ErrorsLast()) && Pairwise(s, DistinctKinds()) && Pairwise(s, AddedBefore(ids))
    && AddedUpTo(s, ids, n) && |s| <= limit
  }

  lemma NewPopupJoins(s: seq<Popup>, p: Popup, ids: Ids, n: nat)
    requires AllDifferent(ids) && AddedUpTo(s, ids, n) && AddedAt(p, ids, n)
    requires !IsError(p) ==> forall q :: q in s ==> q.kind != p.kind
    ensures Joins(s, p, ErrorsLast()) && Joins(s, p, DistinctKinds()) && Joins(s, p, AddedBefore(ids))
  {
    forall a | a in s && IsError(a) == IsError(p) ensures AddedBefore(ids)(a, p) {
      forall i: nat, j: nat | AddedAt(a, ids, i) && AddedAt(p, ids, j) ensures i < j {
        var m: nat :| m < n && AddedAt(a, ids, m);
      }
    }
  }

  lemma AddKeepsOrder(s: seq<Popup>, p: Popup, ids: Ids, n: nat, limit: nat)
    requires AllDifferent(ids) && Ordered(s, ids, n, limit) && p.id.None?
    ensures Ordered(Added(s, p, ids(n), limit), ids, n + 1, limit)
  {
    var x := if IsError(p) then Popup(Some(ids(n)), ERROR, p.error) else Identified(p, ids(n));
    FilterKeeps(s, OfKind(p.kind), ErrorsLast());
    if IsError(p) || Filter(s, OfKind(p.kind)) == [] {
      forall q | q in s && !IsError(p) ensures q.kind != p.kind {
        assert q in Filter(s, OfKind(p.kind)) <==> q in s && OfKind(p.kind)(q);
      }
      NewPopupJoins(s, x, ids, n);
    }
    AddedKeeps(s, p, ids(n), limit, ErrorsLast());
    AddedKeeps(s, p, ids(n), limit, DistinctKinds());
    AddedKeeps(s, p, ids(n), limit, AddedBefore(ids));
    AddedIds(s, p, ids, n, limit);
  }

  lemma AddedIds(s: seq<Popup>, p: Popup, ids: Ids, n: nat, limit: nat)
    requires AddedUpTo(s, ids, n) && Pairwise(s, ErrorsLast()) && p.id.None?
    ensures AddedUpTo(Added(s, p, ids(n), limit), ids, n + 1)
  {
    var x := if IsError(p) then Popup(Some(ids(n)), ERROR, p.error) else Identified(p, ids(n));
    FilterKeeps(s, NotOfKind(ERROR), ErrorsLast());
    FilterKeeps(s, OfKind(ERROR), ErrorsLast());
    forall q | q in Added(s, p, ids(n), limit) ensures exists m: nat :: m < n + 1 && AddedAt(q, ids, m) {
      if q == x {
        assert AddedAt(q, ids, n);
      } else {
        assert q in s;
        var m: nat :| m < n && AddedAt(q, ids, m);
      }
    }
  }

  lemma FilterKeepsOrder(s: seq<Popup>, keep: Popup -> bool, ids: Ids, n: nat, limit: nat)
    requires Ordered(s, ids, n, limit)
    ensures Ordered(Filter(s, keep), ids, n, limit)
  {
    FilterKeeps(s, keep, ErrorsLast());
    FilterKeeps(s, keep, DistinctKinds());
    FilterKeeps(s, keep, AddedBefore(ids));
  }

  lemma SameIdIsBefore(a: Popup, b: Popup, a': Popup, b': Popup, ids: Ids)
    requires a.id == a'.id && a.kind == a'.kind && b.id == b'.id && b.kind == b'.kind && IsBefore(a, b, ids)
    ensures IsBefore(a', b', ids)
  {
    forall i: nat, j: nat | IsError(a) == IsError(b) && AddedAt(a', ids, i) && AddedAt(b', ids, j) ensures i < j {
      assert AddedAt(a, ids, i) && AddedAt(b, ids, j);
    }
  }

  lemma AddedBeforeLooksAtIds(ids: Ids)
    ensures LooksAtIds(AddedBefore(ids))
  {
    forall a: Popup, b: Popup, c: Popup | a.id == b.id && a.kind == b.kind && AddedBefore(ids)(a, c)
      ensures AddedBefore(ids)(b, c)
    {
      SameIdIsBefore(a, c, b, c, ids);
    }
    forall a: Popup, b: Popup, c: Popup | a.id == b.id && a.kind == b.kind && AddedBefore(ids)(c, a)
      ensures AddedBefore(ids)(c, b)
    {
      SameIdIsBefore(c, a, c, b, ids);
    }
  }

  lemma UpdatedIds(s: seq<Popup>, p: Popup, ids: Ids, n: nat)
    requires AddedUpTo(s, ids, n)
    requires forall q :: q in Updated(s, p) ==> q in s || (q == p && exists o :: o in s && o.id == p.id)
    ensures AddedUpTo(Updated(s, p), ids, n)
  {
    forall q | q in Updated(s, p) ensures exists m: nat :: m < n && AddedAt(q, ids, m) {
      if q !in s {
        var o :| o in s && o.id == p.id;
        var m: nat :| m < n && AddedAt(o, ids, m);
        assert AddedAt(q, ids, m);
      }
    }
  }

  lemma UpdateKeepsOrder(s: seq<Popup>, p: Popup, ids: Ids, n: nat, limit: nat)
    requires Ordered(s, ids, n, limit) && Allowed(s, Update(p))
    ensures Ordered(Updated(s, p), ids, n, limit)
  {
    UpdatedKeeps(s, p, ErrorsLast());
    UpdatedKeeps(s, p, DistinctKinds());
    AddedBeforeLooksAtIds(ids);
    UpdatedKeeps(s, p, AddedBefore(ids));
    UpdatedIds(s, p, ids, n);
  }

  lemma LaterIsFine(s: seq<Popup>, ids: Ids, n: nat, limit: nat)
    requires Ordered(s, ids, n, limit)
    ensures Ordered(s, ids, n + 1, limit)
  {
    forall p | p in s ensures exists m: nat :: m < n + 1 && AddedAt(p, ids, m) {
      var m: nat :| m < n && AddedAt(p, ids, m);
    }
  }

  lemma StepKeepsOrder(s: seq<Popup>, op: Op, ids: Ids, n: nat, limit: nat)
    requires AllDifferent(ids) && Ordered(s, ids, n, limit) && Allowed(s, op)
    ensures Ordered(Step(s, op, ids(n), limit), ids, n + 1, limit)
  {
    LaterIsFine(s, ids, n, limit);
    match op
    case Add(p) => AddKeepsOrder(s, p, ids, n, limit);
    case AddError(error) => AddKeepsOrder(s, Popup(None, ERROR, error), ids, n, limit);
    case Update(p) => UpdateKeepsOrder(s, p, ids, n + 1, limit);
    case Remove(p) =>
      if p.id.Some? {
        FilterKeepsOrder(s, WithoutId(p.id.value), ids, n + 1, limit);
      }
    case RemoveByType(kind) => FilterKeepsOrder(s, NotOfKind(kind), ids, n + 1, limit);
    case RemoveById(id) => FilterKeepsOrder(s, WithoutId(id), ids, n + 1, limit);
  }

  /** In every reachable state the stack is ordered. */
  lemma {:induction false} EveryRunIsOrdered(ops: seq<Op>, n: nat, ids: Ids, limit: nat)
    requires n <= |ops| && AllDifferent(ids) && AllAllowed(ops, n, ids, limit)
    ensures Ordered(Stack(ops, n, ids, limit), ids, n, limit)
  {
    if n > 0 {
      EveryRunIsOrdered(ops, n - 1, ids, limit);
      StepKeepsOrder(Stack(ops, n - 1, ids, limit), ops[n - 1], ids, n - 1, limit);
    }
  }

  lemma TopIsNewest(s: seq<Popup>, ids: Ids)
    requires Pairwise(s, ErrorsLast()) && Pairwise(s, AddedBefore(ids)) && s != []
    ensures IsError(s[|s| - 1]) <==> exists p :: p in s && IsError(p)
    ensures forall k :: 0 <= k < |s| - 1 ==> IsBefore(s[k], s[|s| - 1], ids)
  {
    forall k | 0 <= k < |s| - 1 ensures ErrorsLast()(s[k], s[|s| - 1]) && AddedBefore(ids)(s[k], s[|s| - 1]) {
    }
    assert s[|s| - 1] in s;
  }

  /**
   In every reachable state: while there is an error, the current popup is the error added last among
   those that remain; otherwise it is the popup added last among those that remain.
   */
  lemma CurrentPopupIsNewest(ops: seq<Op>, n: nat, ids: Ids, limit: nat)
    requires n <= |ops| && AllDifferent(ids) && AllAllowed(ops, n, ids, limit) && Stack(ops, n, ids, limit) != []
    ensures var s := Stack(ops, n, ids, limit);
      var current := Current(s);
      && current.Some? && current.value in s
      && (IsError(current.value) <==> exists p :: p in s && IsError(p))
      && (forall k :: 0 <= k < |s| - 1 ==> IsBefore(s[k], current.value, ids))
  {
    EveryRunIsOrdered(ops, n, ids, limit);
    TopIsNewest(Stack(ops, n, ids, limit), ids);
  }

  /** The first popup that is no error. */
  function FirstNonError(s: seq<Popup>, k: nat): Option<Popup>
    decreases |s| - k
  {
    if k >= |s| then None else if !IsError(s[k]) then Some(s[k]) else FirstNonError(s, k + 1)
  }

  /**
   In a reachable state without errors the current popup is the first popup that is no error, as documented,
   exactly if there is at most one popup.
   */
  lemma CurrentIsFirstIff(ops: seq<Op>, n: nat, ids: Ids, limit: nat)
    requires n <= |ops| && AllDifferent(ids) && AllAllowed(ops, n, ids, limit)
    requires forall p :: p in Stack(ops, n, ids, limit) ==> !IsError(p)
    ensures var s := Stack(ops, n, ids, limit); Current(s) == FirstNonError(s, 0) <==> |s| <= 1
  {
    var s := Stack(ops, n, ids, limit);
    EveryRunIsOrdered(ops, n, ids, limit);
    OnlyOneIsBoth(s);
  }

  lemma OnlyOneIsBoth(s: seq<Popup>)
    requires Pairwise(s, DistinctKinds()) && forall p :: p in s ==> !IsError(p)
    ensures Current(s) == FirstNonError(s, 0) <==> |s| <= 1
  {
    if |s| > 0 {
      assert s[0] in s;
    }
    if |s| > 1 {
      assert DistinctKinds()(s[0], s[|s| - 1]);
    }
  }

  /** Two popups are added: the second is the current one, the first the first one. */
  lemma SecondPopupIsCurrent(ids: Ids)
    ensures var ops := [Add(Popup(None, "About", "")), Add(Popup(None, "Preferences", ""))];
      var s := Stack(ops, 2, ids, DEFAULT_POPUP_STACK_LIMIT);
      && Current(s) == Some(Popup(Some(ids(1)), "Preferences", ""))
      && FirstNonError(s, 0) == Some(Popup(Some(ids(0)), "About", ""))
  {
    var first, second := Popup(Some(ids(0)), "About", ""), Popup(Some(ids(1)), "Preferences", "");
    var ops := [Add(first.(id := None)), Add(second.(id := None))];
    assert "About"[0] != "Error"[0] && "Preferences"[0] != "Error"[0] && "About"[0] != "Preferences"[0];
    AddingIs([], [], first.(id := None), ids(0), DEFAULT_POPUP_STACK_LIMIT);
    assert [] + [first] + [] == [first];
    AddingIs([first], [], second.(id := None), ids(1), DEFAULT_POPUP_STACK_LIMIT);
    assert [first] + [] == [first] && [first] + [second] + [] == [first, second];
    assert Stack(ops, 0, ids, DEFAULT_POPUP_STACK_LIMIT) == [];
    assert Stack(ops, 1, ids, DEFAULT_POPUP_STACK_LIMIT) == [first];
  }

  lemma {:induction false} FilterAll(s: seq<Popup>, keep: Popup -> bool, all: bool)
    requires forall k :: 0 <= k < |s| ==> keep(s[k]) == all
    ensures Filter(s, keep) == if all then s else []
  {
    if |s| > 0 {
      FilterAll(s[..|s| - 1], keep, all);
      assert s[..|s| - 1] + [s[|s| - 1]] == s;
    }
  }

  // ---------- What the limit takes away ----------

  ghost predicate FullOfErrors(s: seq<Popup>, limit: nat) {
    |s| == limit && forall q :: q in s ==> IsError(q)
  }

  /** A popup of a new kind stays if there is room or another popup that is no error below it. */
  lemma InsertedStaysIff(s: seq<Popup>, p: Popup, limit: nat)
    requires |s| <= limit && !IsError(p) && p !in s && Pairwise(s, ErrorsLast())
    ensures p in Checked(Inserted(s, p), limit) <==> !FullOfErrors(s, limit)
  {
    var others, errors := Filter(s, NotOfKind(ERROR)), Filter(s, OfKind(ERROR));
    FilterKeeps(s, NotOfKind(ERROR), ErrorsLast());
    FilterKeeps(s, OfKind(ERROR), ErrorsLast());
    FilterPartition(s);
    if EndsWithError(s) {
      StaysUnlessLowest(others, p, errors, limit);
      assert others != [] ==> others[0] in s && !IsError(others[0]);
      assert forall q :: q in s && !IsError(q) ==> q in others;
    } else {
      StaysUnlessLowest(s, p, [], limit);
      assert s != [] ==> s[|s| - 1] in s;
      assert s + [p] + [] == s + [p];
    }
  }

  lemma StaysUnlessLowest(below: seq<Popup>, p: Popup, above: seq<Popup>, limit: nat)
    requires p !in below && p !in above && |below| + |above| <= limit
    ensures p in Checked(below + [p] + above, limit) <==> below != [] || |above| < limit
  {
    var s := below + [p] + above;
    assert s[|below|] == p;
    if below != [] {
      assert s[1..][|below| - 1] == p;
    } else {
      assert s[1..] == above;
    }
  }

  /**
   In every reachable state the popup that `addPopup` returns is on the stack exactly if it is an error and
   popups are allowed at all, or it is the first of its kind and the stack is not full of errors.
   */
  lemma ReturnedPopupIsOnStackIff(ops: seq<Op>, n: nat, ids: Ids, limit: nat, p: Popup)
    requires n <= |ops| && AllDifferent(ids) && AllAllowed(ops, n, ids, limit) && p.id.None?
    ensures var s := Stack(ops, n, ids, limit);
      Returned(s, p, ids(n)) in Added(s, p, ids(n), limit)
      <==> if IsError(p) then limit > 0
           else (forall q :: q in s ==> q.kind != p.kind) && !FullOfErrors(s, limit)
  {
    var s := Stack(ops, n, ids, limit);
    var popup := Returned(s, p, ids(n));
    EveryRunIsOrdered(ops, n, ids, limit);
    NewIdIsNotThere(s, popup, ids, n);
    FilterKeeps(s, OfKind(p.kind), ErrorsLast());
    if IsError(p) {
      StaysUnlessLowest(s, popup, [], limit);
      assert s + [popup] + [] == s + [popup];
    } else if Filter(s, OfKind(p.kind)) == [] {
      InsertedStaysIff(s, popup, limit);
      assert forall q :: q in s && q.kind == p.kind ==> q in Filter(s, OfKind(p.kind));
    } else {
      assert Filter(s, OfKind(p.kind))[0] in s;
    }
  }

  lemma NewIdIsNotThere(s: seq<Popup>, p: Popup, ids: Ids, n: nat)
    requires AddedUpTo(s, ids, n) && AllDifferent(ids) && (p.id.None? || AddedAt(p, ids, n))
    ensures p !in s
  {
    forall q | q in s ensures q.id != p.id {
      var m: nat :| m < n && AddedAt(q, ids, m);
    }
  }

  /** The stack before its length is checked. */
  function Grown(s: seq<Popup>, p: Popup, newId: string): seq<Popup> {
    if IsError(p) then s + [Popup(Some(newId), ERROR, p.error)] else Inserted(s, Identified(p, newId))
  }

  lemma GrownIsOrdered(s: seq<Popup>, p: Popup, ids: Ids, n: nat, limit: nat)
    requires AllDifferent(ids) && Ordered(s, ids, n, limit) && p.id.None?
    requires !IsError(p) ==> forall q :: q in s ==> q.kind != p.kind
    ensures Pairwise(Grown(s, p, ids(n)), ErrorsLast()) && Pairwise(Grown(s, p, ids(n)), AddedBefore(ids))
    ensures forall q :: q in s ==> q in Grown(s, p, ids(n))
  {
    var x := if IsError(p) then Popup(Some(ids(n)), ERROR, p.error) else Identified(p, ids(n));
    NewPopupJoins(s, x, ids, n);
    FilterKeeps(s, NotOfKind(ERROR), ErrorsLast());
    FilterKeeps(s, OfKind(ERROR), ErrorsLast());
    if IsError(p) {
      AppendKeeps(s, x, ErrorsLast());
      AppendKeeps(s, x, AddedBefore(ids));
    } else {
      InsertedKeeps(s, x, ErrorsLast());
      InsertedKeeps(s, x, AddedBefore(ids));
    }
  }

  /** Of the two the first was added first. */
  ghost predicate IsOlder(a: Popup, b: Popup, ids: Ids) {
    forall i: nat, j: nat :: AddedAt(a, ids, i) && AddedAt(b, ids, j) ==> i < j
  }

  lemma OlderThanFirst(q: Popup, errors: seq<Popup>, ids: Ids, n: nat)
    requires Pairwise(errors, AddedBefore(ids)) && AddedUpTo(errors, ids, n) && errors != []
    requires (forall e :: e in errors ==> IsError(e)) && IsOlder(q, errors[0], ids)
    ensures forall e :: e in errors ==> IsOlder(q, e, ids)
  {
    assert errors[0] in errors;
    var m: nat :| m < n && AddedAt(errors[0], ids, m);
    forall k | 0 <= k < |errors| ensures IsOlder(q, errors[k], ids) {
      assert errors[k] in errors;
      if k > 0 {
        assert AddedBefore(ids)(errors[0], errors[k]);
      }
    }
  }

  /** No error unless all that stay are errors, and added before all that stay in its group. */
  ghost predicate OldestOfGroup(dropped: Popup, t: seq<Popup>, ids: Ids) {
    && (IsError(dropped) ==> forall q :: q in t ==> IsError(q))
    && (forall q :: q in t ==> IsBefore(dropped, q, ids))
  }

  ghost predicate OldestOfAll(dropped: Popup, t: seq<Popup>, ids: Ids) {
    forall q :: q in t ==> IsOlder(dropped, q, ids)
  }

  lemma DroppedIsOldestOfGroup(s: seq<Popup>, ids: Ids, n: nat, limit: nat, p: Popup, dropped: Popup)
    requires AllDifferent(ids) && Ordered(s, ids, n, limit) && p.id.None?
    requires dropped in s && dropped !in Added(s, p, ids(n), limit)
    ensures OldestOfGroup(dropped, Added(s, p, ids(n), limit), ids)
  {
    var grown := Grown(s, p, ids(n));
    FilterKeeps(s, OfKind(p.kind), ErrorsLast());
    assert forall q :: q in s && q.kind == p.kind ==> q in Filter(s, OfKind(p.kind));
    GrownIsOrdered(s, p, ids, n, limit);
    assert dropped == grown[0] && Added(s, p, ids(n), limit) == grown[1..];
    LowestIsBefore(grown, ids);
  }

  /** The oldest of its group is the oldest of all exactly if it is older than the lowest error, if there is one. */
  lemma OldestIff(dropped: Popup, t: seq<Popup>, ids: Ids, n: nat, limit: nat)
    requires OldestOfGroup(dropped, t, ids) && Ordered(t, ids, n, limit)
    ensures var errors := Filter(t, OfKind(ERROR));
      OldestOfAll(dropped, t, ids) <==> errors == [] || IsOlder(dropped, errors[0], ids)
  {
    var errors := Filter(t, OfKind(ERROR));
    FilterKeeps(t, OfKind(ERROR), AddedBefore(ids));
    if errors != [] {
      assert errors[0] in errors;
      if IsOlder(dropped, errors[0], ids) {
        OlderThanFirst(dropped, errors, ids, n);
      }
    }
    assert forall q :: q in t && IsError(q) ==> q in errors;
  }

  /**
   What an addition drops from a reachable stack is no error while any other popup stays, and was added before
   all that stay in its group. It is the oldest of all, as the source has it, exactly if no error stays or it was
   added before the lowest of them.
   */
  lemma DroppedIsOldestIff(ops: seq<Op>, n: nat, ids: Ids, limit: nat, p: Popup, dropped: Popup)
    requires n <= |ops| && AllDifferent(ids) && AllAllowed(ops, n, ids, limit) && p.id.None?
    requires var s := Stack(ops, n, ids, limit); dropped in s && dropped !in Added(s, p, ids(n), limit)
    ensures var t := Added(Stack(ops, n, ids, limit), p, ids(n), limit);
      var errors := Filter(t, OfKind(ERROR));
      && OldestOfGroup(dropped, t, ids)
      && (OldestOfAll(dropped, t, ids) <==> errors == [] || IsOlder(dropped, errors[0], ids))
  {
    var s := Stack(ops, n, ids, limit);
    EveryRunIsOrdered(ops, n, ids, limit);
    AddKeepsOrder(s, p, ids, n, limit);
    DroppedIsOldestOfGroup(s, ids, n, limit, p, dropped);
    OldestIff(dropped, Added(s, p, ids(n), limit), ids, n + 1, limit);
  }

  lemma LowestIsBefore(s: seq<Popup>, ids: Ids)
    requires Pairwise(s, ErrorsLast()) && Pairwise(s, AddedBefore(ids)) && s != []
    ensures IsError(s[0]) ==> forall q :: q in s[1..] ==> IsError(q)
    ensures forall q :: q in s[1..] ==> IsBefore(s[0], q, ids)
  {
    forall k | 1 <= k < |s| ensures ErrorsLast()(s[0], s[k]) && AddedBefore(ids)(s[0], s[k]) {
    }
  }


  /** An error and two other popups are added where two are allowed: the second popup goes, the older error stays. */
  lemma OlderErrorStays(error: string, kind1: string, kind2: string, ids: Ids)
    requires kind1 != ERROR && kind2 != ERROR && kind1 != kind2
    ensures var ops := [AddError(error), Add(Popup(None, kind1, "")), Add(Popup(None, kind2, ""))];
      && Stack(ops, 2, ids, 2) == [Popup(Some(ids(1)), kind1, ""), Popup(Some(ids(0)), ERROR, error)]
      && Stack(ops, 3, ids, 2) == [Popup(Some(ids(2)), kind2, ""), Popup(Some(ids(0)), ERROR, error)]
  {
    var first := Popup(Some(ids(0)), ERROR, error);
    var second, third := Popup(Some(ids(1)), kind1, ""), Popup(Some(ids(2)), kind2, "");
    var ops := [AddError(error), Add(second.(id := None)), Add(third.(id := None))];
    assert Stack(ops, 0, ids, 2) == [];
    assert Stack(ops, 1, ids, 2) == [first];
    AddingIs([], [first], second.(id := None), ids(1), 2);
    assert [] + [first] == [first] && [] + [second] + [first] == [second, first];
    assert Stack(ops, 2, ids, 2) == [second, first];
    AddingIs([second], [first], third.(id := None), ids(2), 2);
    assert [second] + [first] == [second, first] && ([second] + [third] + [first])[1..] == [third, first];
  }

  /** When the stack is full of errors, a new popup of another kind is the one that is dropped. */
  lemma FullOfErrorsDropsNewPopup(s: seq<Popup>, p: Popup, newId: string)
    requires s != [] && (forall k :: 0 <= k < |s| ==> IsError(s[k])) && !IsError(p)
    ensures Added(s, p, newId, |s|) == s
  {
    FilterAll(s, OfKind(p.kind), false);
    FilterAll(s, NotOfKind(ERROR), false);
    FilterAll(s, OfKind(ERROR), true);
    assert ([] + [Identified(p, newId)] + s)[1..] == s;
  }
}
