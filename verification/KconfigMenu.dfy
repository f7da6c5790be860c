/** The menu tree and menu_finalize (util/kconfig/menu.c:282-425), as far as it moves
    entries: later siblings are nested under an entry, and the entries of a menu without a
    prompt text are hoisted into the list that holds the menu. */
module KconfigMenu {

  // A struct menu is known by the number of its allocation, so pointers are numbers.
  type Id = nat

  datatype Ref = Null | To(id: Id)

  /** One pointer field of all entries; an entry that is not a key has a null pointer there. */
  type Field = map<Id, Id>

  function Get(f: Field, m: Id): Ref {
    if m in f then To(f[m]) else Null
  }

  function Set(f: Field, m: Id, r: Ref): (g: Field)
    ensures Get(g, m) == r
    ensures forall x {:trigger Get(g, x)} :: x != m ==> Get(g, x) == Get(f, x)
  {
    match r
    case Null => f - {m}
    case To(x) => f[m := x]
  }

  /** What the parser has recorded about the entries, with the outcome nests(p, m) of the
      test in KconfigNesting for every two of them. */
  datatype Entries = Entries(hasSym: Id -> bool, hasText: Id -> bool, nests: (Id, Id) -> bool)

  // ----- the tree the links stand for -----

  datatype Tree = Node(menu: Id, kids: seq<Tree>)

  ghost function Preorder(t: Tree): seq<Id>
    decreases t, 0
  {
    [t.menu] + PreorderAll(t.kids)
  }

  ghost function PreorderAll(ts: seq<Tree>): seq<Id>
    decreases ts, 1
  {
    if ts == [] then [] else Preorder(ts[0]) + PreorderAll(ts[1..])
  }

  ghost function Count(ts: seq<Tree>): nat {
    if ts == [] then 0 else 1 + Count(ts[0].kids) + Count(ts[1..])
  }

  ghost function Menus(ts: seq<Tree>): set<Id> {
    if ts == [] then {} else {ts[0].menu} + Menus(ts[0].kids) + Menus(ts[1..])
  }

  /** No entry occurs twice. */
  ghost predicate Distinct(ts: seq<Tree>) {
    ts != [] ==>
      && ts[0].menu !in Menus(ts[0].kids) && ts[0].menu !in Menus(ts[1..])
      && Menus(ts[0].kids) !! Menus(ts[1..])
      && Distinct(ts[0].kids) && Distinct(ts[1..])
  }

  /** From `head`, the next links run through the roots of ts and stop at `end`; the list
      link of each root starts the list of its kids. */
  ghost predicate Linked(next: Field, list: Field, ts: seq<Tree>, head: Ref, end: Ref) {
    if ts == [] then head == end
    else
      && head == To(ts[0].menu)
      && Linked(next, list, ts[0].kids, Get(list, ts[0].menu), Null)
      && Linked(next, list, ts[1..], Get(next, ts[0].menu), end)
  }

  /** Every entry's parent link names the entry whose list holds it. */
  ghost predicate Parented(parent: Field, ts: seq<Tree>, up: Ref) {
    ts != [] ==>
      && Get(parent, ts[0].menu) == up
      && Parented(parent, ts[0].kids, To(ts[0].menu))
      && Parented(parent, ts[1..], up)
  }

  // ----- what menu_finalize makes of the tree -----

  /** Finalises the entry at the root of t; `rest` are its later siblings, of which some may
      be nested under it.  Returns the finished entry and the siblings that are left. */
  ghost function Finalize(t: Tree, rest: seq<Tree>, es: Entries): (r: (Tree, seq<Tree>))
    ensures r.0.menu == t.menu
    ensures 1 + Count(r.0.kids) + Count(r.1) == 1 + Count(t.kids) + Count(rest)
    decreases Count(t.kids) + Count(rest) + 1, 0
  {
    if t.kids != [] then (Node(t.menu, Hoist(FinalizeAll(t.kids, es), es)), rest)
    else if es.hasSym(t.menu) then
      var (kids, left) := Steal(t.menu, rest, es);
      (Node(t.menu, Hoist(kids, es)), left)
    else (t, rest)
  }

  ghost function FinalizeAll(ts: seq<Tree>, es: Entries): (r: seq<Tree>)
    ensures Count(r) == Count(ts)
    decreases Count(ts), 1
  {
    if ts == [] then []
    else
      var (t, rest) := Finalize(ts[0], ts[1..], es);
      [t] + FinalizeAll(rest, es)
  }

  ghost function Steal(p: Id, ts: seq<Tree>, es: Entries): (r: (seq<Tree>, seq<Tree>))
    ensures Count(r.0) + Count(r.1) == Count(ts)
    decreases Count(ts), 1
  {
    if ts == [] || !es.nests(p, ts[0].menu) then ([], ts)
    else
      var (t, rest) := Finalize(ts[0], ts[1..], es);
      var (more, left) := Steal(p, rest, es);
      ([t] + more, left)
  }

  ghost predicate Promptless(t: Tree, es: Entries) {
    t.kids != [] && !es.hasText(t.menu)
  }

  ghost function Hoist(ts: seq<Tree>, es: Entries): (r: seq<Tree>)
    ensures Count(r) == Count(ts)
    decreases Count(ts)
  {
    if ts == [] then []
    else if Promptless(ts[0], es) then
      CountAppend(ts[0].kids, ts[1..]);
      [Node(ts[0].menu, [])] + Hoist(ts[0].kids + ts[1..], es)
    else [ts[0]] + Hoist(ts[1..], es)
  }

  lemma {:induction false} CountAppend(a: seq<Tree>, b: seq<Tree>)
    ensures Count(a + b) == Count(a) + Count(b)
  {
    if a == [] {
      assert a + b == b;
    } else {
      assert (a + b)[1..] == a[1..] + b;
      CountAppend(a[1..], b);
    }
  }

  lemma {:induction false} PreorderAppend(a: seq<Tree>, b: seq<Tree>)
    ensures PreorderAll(a + b) == PreorderAll(a) + PreorderAll(b)
  {
    if a == [] {
      assert a + b == b;
    } else {
      assert (a + b)[1..] == a[1..] + b;
      PreorderAppend(a[1..], b);
    }
  }

  lemma PreorderCons(t: Tree, ts: seq<Tree>)
    ensures PreorderAll([t] + ts) == Preorder(t) + PreorderAll(ts)
  {
    assert ([t] + ts)[1..] == ts;
  }

  lemma Associative(a: seq<Id>, b: seq<Id>, c: seq<Id>)
    ensures (a + b) + c == a + (b + c)
  {
  }

  /** Neither nesting nor hoisting changes the order in which the entries are met. */
  lemma {:induction false} FinalizePreorder(t: Tree, rest: seq<Tree>, es: Entries)
    ensures var (t', rest') := Finalize(t, rest, es);
      Preorder(t') + PreorderAll(rest') == Preorder(t) + PreorderAll(rest)
    decreases Count(t.kids) + Count(rest) + 1, 0
  {
    if t.kids != [] {
      FinalizeAllPreorder(t.kids, es);
      HoistPreorder(FinalizeAll(t.kids, es), es);
    } else if es.hasSym(t.menu) {
      var (kids, left) := Steal(t.menu, rest, es);
      StealPreorder(t.menu, rest, es);
      HoistPreorder(kids, es);
      Associative([t.menu], PreorderAll(kids), PreorderAll(left));
      assert Preorder(t) == [t.menu];
    }
  }

  lemma {:induction false} FinalizeAllPreorder(ts: seq<Tree>, es: Entries)
    ensures PreorderAll(FinalizeAll(ts, es)) == PreorderAll(ts)
    decreases Count(ts), 1
  {
    if ts != [] {
      var (t, rest) := Finalize(ts[0], ts[1..], es);
      FinalizePreorder(ts[0], ts[1..], es);
      FinalizeAllPreorder(rest, es);
      PreorderCons(t, FinalizeAll(rest, es));
    }
  }

  lemma {:induction false} StealPreorder(p: Id, ts: seq<Tree>, es: Entries)
    ensures var (kids, left) := Steal(p, ts, es); PreorderAll(kids) + PreorderAll(left) == PreorderAll(ts)
    decreases Count(ts), 1
  {
    if ts != [] && es.nests(p, ts[0].menu) {
      var (t, rest) := Finalize(ts[0], ts[1..], es);
      var (more, left) := Steal(p, rest, es);
      FinalizePreorder(ts[0], ts[1..], es);
      StealPreorder(p, rest, es);
      PreorderCons(t, more);
      Associative(Preorder(t), PreorderAll(more), PreorderAll(left));
    }
  }

  lemma {:induction false} HoistPreorder(ts: seq<Tree>, es: Entries)
    ensures PreorderAll(Hoist(ts, es)) == PreorderAll(ts)
    decreases Count(ts)
  {
    if ts == [] {
    } else if Promptless(ts[0], es) {
      var bare, more := Node(ts[0].menu, []), ts[0].kids + ts[1..];
      CountAppend(ts[0].kids, ts[1..]);
      HoistPreorder(more, es);
      PreorderAppend(ts[0].kids, ts[1..]);
      PreorderCons(bare, Hoist(more, es));
      Associative([ts[0].menu], PreorderAll(ts[0].kids), PreorderAll(ts[1..]));
    } else {
      HoistPreorder(ts[1..], es);
      PreorderCons(ts[0], Hoist(ts[1..], es));
    }
  }

  // ----- what the finished tree looks like -----

  /** The entries taken over are the longest run of later siblings that pass the test, each
      looked at after those before it have taken theirs. */
  lemma {:induction false} StealTaken(p: Id, ts: seq<Tree>, es: Entries)
    ensures var (kids, left) := Steal(p, ts, es);
      && (forall i :: 0 <= i < |kids| ==> es.nests(p, kids[i].menu))
      && (left == [] || !es.nests(p, left[0].menu))
    decreases Count(ts)
  {
    if ts != [] && es.nests(p, ts[0].menu) {
      StealTaken(p, Finalize(ts[0], ts[1..], es).1, es);
    }
  }

  /** No entry of ts, at any depth, has children but no prompt text. */
  ghost predicate Flat(ts: seq<Tree>, es: Entries) {
    ts != [] ==> (ts[0].kids == [] || es.hasText(ts[0].menu)) && Flat(ts[0].kids, es) && Flat(ts[1..], es)
  }

  ghost predicate KidsFlat(ts: seq<Tree>, es: Entries) {
    ts != [] ==> Flat(ts[0].kids, es) && KidsFlat(ts[1..], es)
  }

  lemma {:induction false} KidsFlatAppend(a: seq<Tree>, b: seq<Tree>, es: Entries)
    requires Flat(a, es) && KidsFlat(b, es)
    ensures KidsFlat(a + b, es)
  {
    if a == [] {
      assert a + b == b;
    } else {
      assert (a + b)[1..] == a[1..] + b;
      KidsFlatAppend(a[1..], b, es);
    }
  }

  lemma {:induction false} HoistFlat(ts: seq<Tree>, es: Entries)
    requires KidsFlat(ts, es)
    ensures Flat(Hoist(ts, es), es)
    decreases Count(ts)
  {
    if ts == [] {
    } else if Promptless(ts[0], es) {
      CountAppend(ts[0].kids, ts[1..]);
      KidsFlatAppend(ts[0].kids, ts[1..], es);
      HoistFlat(ts[0].kids + ts[1..], es);
      assert ([Node(ts[0].menu, [])] + Hoist(ts[0].kids + ts[1..], es))[1..] == Hoist(ts[0].kids + ts[1..], es);
    } else {
      HoistFlat(ts[1..], es);
      assert ([ts[0]] + Hoist(ts[1..], es))[1..] == Hoist(ts[1..], es);
    }
  }

  /** Below a finished entry every menu without a prompt text has been emptied. */
  lemma {:induction false} FinalizeFlat(t: Tree, rest: seq<Tree>, es: Entries)
    ensures Flat(Finalize(t, rest, es).0.kids, es)
    decreases Count(t.kids) + Count(rest) + 1, 0
  {
    if t.kids != [] {
      FinalizeAllFlat(t.kids, es);
      HoistFlat(FinalizeAll(t.kids, es), es);
    } else if es.hasSym(t.menu) {
      StealFlat(t.menu, rest, es);
      HoistFlat(Steal(t.menu, rest, es).0, es);
    }
  }

  lemma {:induction false} FinalizeAllFlat(ts: seq<Tree>, es: Entries)
    ensures KidsFlat(FinalizeAll(ts, es), es)
    decreases Count(ts), 1
  {
    if ts != [] {
      var (t, rest) := Finalize(ts[0], ts[1..], es);
      FinalizeFlat(ts[0], ts[1..], es);
      FinalizeAllFlat(rest, es);
      assert ([t] + FinalizeAll(rest, es))[1..] == FinalizeAll(rest, es);
    }
  }

  lemma {:induction false} StealFlat(p: Id, ts: seq<Tree>, es: Entries)
    ensures KidsFlat(Steal(p, ts, es).0, es)
    decreases Count(ts), 1
  {
    if ts != [] && es.nests(p, ts[0].menu) {
      var (t, rest) := Finalize(ts[0], ts[1..], es);
      FinalizeFlat(ts[0], ts[1..], es);
      StealFlat(p, rest, es);
      assert ([t] + Steal(p, rest, es).0)[1..] == Steal(p, rest, es).0;
    }
  }

  // ----- sets and lists of entries -----

  lemma {:induction false} MenusAppend(a: seq<Tree>, b: seq<Tree>)
    ensures Menus(a + b) == Menus(a) + Menus(b)
  {
    if a == [] {
      assert a + b == b;
    } else {
      assert (a + b)[1..] == a[1..] + b;
      MenusAppend(a[1..], b);
    }
  }

  lemma {:induction false} DistinctAppend(a: seq<Tree>, b: seq<Tree>)
    ensures Distinct(a + b) <==> Distinct(a) && Distinct(b) && Menus(a) !! Menus(b)
  {
    if a == [] {
      assert a + b == b;
    } else {
      assert (a + b)[1..] == a[1..] + b;
      MenusAppend(a[1..], b);
      DistinctAppend(a[1..], b);
    }
  }

  lemma {:induction false} LinkedAppend(next: Field, list: Field, a: seq<Tree>, b: seq<Tree>, head: Ref, mid: Ref,
                                        end: Ref)
    requires Linked(next, list, a, head, mid) && Linked(next, list, b, mid, end)
    ensures Linked(next, list, a + b, head, end)
  {
    if a == [] {
      assert a + b == b;
    } else {
      assert (a + b)[1..] == a[1..] + b;
      LinkedAppend(next, list, a[1..], b, Get(next, a[0].menu), mid, end);
    }
  }

  lemma {:induction false} LinkedSplit(next: Field, list: Field, a: seq<Tree>, b: seq<Tree>, head: Ref, end: Ref)
    returns (mid: Ref)
    requires Linked(next, list, a + b, head, end)
    ensures Linked(next, list, a, head, mid) && Linked(next, list, b, mid, end)
  {
    if a == [] {
      assert a + b == b;
      mid := head;
    } else {
      assert (a + b)[1..] == a[1..] + b;
      mid := LinkedSplit(next, list, a[1..], b, Get(next, a[0].menu), end);
    }
  }

  lemma {:induction false} ParentedAppend(parent: Field, a: seq<Tree>, b: seq<Tree>, up: Ref)
    ensures Parented(parent, a + b, up) <==> Parented(parent, a, up) && Parented(parent, b, up)
  {
    if a == [] {
      assert a + b == b;
    } else {
      assert (a + b)[1..] == a[1..] + b;
      ParentedAppend(parent, a[1..], b, up);
    }
  }

  /** g has the pointers of f for every entry outside s. */
  ghost predicate Outside(f: Field, g: Field, s: set<Id>) {
    forall m: Id {:trigger Get(g, m)} :: m !in s ==> Get(g, m) == Get(f, m)
  }

  lemma {:induction false} LinkedFrame(next: Field, list: Field, next': Field, list': Field, s: set<Id>,
                                       ts: seq<Tree>, head: Ref, end: Ref)
    requires Linked(next, list, ts, head, end)
    requires Outside(next, next', s) && Outside(list, list', s) && Menus(ts) !! s
    ensures Linked(next', list', ts, head, end)
  {
    if ts != [] {
      LinkedFrame(next, list, next', list', s, ts[0].kids, Get(list, ts[0].menu), Null);
      LinkedFrame(next, list, next', list', s, ts[1..], Get(next, ts[0].menu), end);
    }
  }

  lemma {:induction false} ParentedFrame(parent: Field, parent': Field, s: set<Id>, ts: seq<Tree>, up: Ref)
    requires Parented(parent, ts, up) && Outside(parent, parent', s) && Menus(ts) !! s
    ensures Parented(parent', ts, up)
  {
    if ts != [] {
      ParentedFrame(parent, parent', s, ts[0].kids, To(ts[0].menu));
      ParentedFrame(parent, parent', s, ts[1..], up);
    }
  }

  ghost function Elements(s: seq<Id>): set<Id> {
    set m | m in s
  }

  ghost predicate NoRepeat(s: seq<Id>) {
    forall i, j :: 0 <= i < j < |s| ==> s[i] != s[j]
  }

  lemma NoRepeatAppend(a: seq<Id>, b: seq<Id>)
    ensures NoRepeat(a + b) <==> NoRepeat(a) && NoRepeat(b) && Elements(a) !! Elements(b)
  {
    if NoRepeat(a + b) {
      forall i, j | 0 <= i < j < |a| ensures a[i] != a[j] {
        assert (a + b)[i] == a[i] && (a + b)[j] == a[j];
      }
      forall i, j | 0 <= i < j < |b| ensures b[i] != b[j] {
        assert (a + b)[|a| + i] == b[i] && (a + b)[|a| + j] == b[j];
      }
      forall i, j | 0 <= i < |a| && 0 <= j < |b| ensures a[i] != b[j] {
        assert (a + b)[i] == a[i] && (a + b)[|a| + j] == b[j];
      }
    } else if NoRepeat(a) && NoRepeat(b) {
      var i, j :| 0 <= i < j < |a + b| && (a + b)[i] == (a + b)[j];
      assert (a + b)[i] in Elements(a) && (a + b)[j] in Elements(b);
    }
  }

  lemma {:induction false} MenusPreorder(ts: seq<Tree>)
    ensures Menus(ts) == Elements(PreorderAll(ts))
  {
    if ts != [] {
      MenusPreorder(ts[0].kids);
      MenusPreorder(ts[1..]);
    }
  }

  lemma {:induction false} DistinctPreorder(ts: seq<Tree>)
    ensures Distinct(ts) <==> NoRepeat(PreorderAll(ts))
  {
    if ts != [] {
      DistinctPreorder(ts[0].kids);
      DistinctPreorder(ts[1..]);
      MenusPreorder(ts[0].kids);
      MenusPreorder(ts[1..]);
      var root, kids, rest := [ts[0].menu], PreorderAll(ts[0].kids), PreorderAll(ts[1..]);
      NoRepeatAppend(root, kids);
      NoRepeatAppend(root + kids, rest);
      assert Elements(root + kids) == {ts[0].menu} + Elements(kids);
    }
  }

  lemma SameOrder(a: seq<Tree>, b: seq<Tree>)
    requires PreorderAll(a) == PreorderAll(b)
    ensures Menus(a) == Menus(b) && Distinct(a) == Distinct(b)
  {
    MenusPreorder(a);
    MenusPreorder(b);
    DistinctPreorder(a);
    DistinctPreorder(b);
  }

  lemma FinalizeSame(ts: seq<Tree>, es: Entries)
    requires ts != []
    ensures var (t, rest) := Finalize(ts[0], ts[1..], es);
      Menus([t] + rest) == Menus(ts) && Distinct([t] + rest) == Distinct(ts)
  {
    FinalizePreorder(ts[0], ts[1..], es);
    var (t, rest) := Finalize(ts[0], ts[1..], es);
    assert ([t] + rest)[1..] == rest;
    SameOrder([t] + rest, ts);
  }
}
