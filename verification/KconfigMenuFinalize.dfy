/** menu_finalize on the linked entries themselves (util/kconfig/menu.c:282-425). */
module KconfigMenuFinalize {
  import opened KconfigMenu

  /** The list from head to end is ts, and its entries' parents are right below `up`. */
  ghost predicate Holds(next: Field, list: Field, parent: Field, ts: seq<Tree>, head: Ref, end: Ref, up: Ref) {
    Linked(next, list, ts, head, end) && Parented(parent, ts, up)
  }

  lemma StealSame(p: Id, ts: seq<Tree>, es: Entries)
    ensures var (kids, left) := Steal(p, ts, es);
      && Menus(kids) + Menus(left) == Menus(ts)
      && (Distinct(ts) ==> Distinct(kids) && Distinct(left) && Menus(kids) !! Menus(left))
  {
    var (kids, left) := Steal(p, ts, es);
    StealPreorder(p, ts, es);
    PreorderAppend(kids, left);
    SameOrder(kids + left, ts);
    MenusAppend(kids, left);
    DistinctAppend(kids, left);
  }

  lemma FinishedOnce(ts: seq<Tree>, es: Entries)
    requires ts != [] && Distinct(ts)
    ensures NoRepeat(Preorder(Finalize(ts[0], ts[1..], es).0))
  {
    var (t, rest) := Finalize(ts[0], ts[1..], es);
    FinalizeSame(ts, es);
    DistinctAppend([t], rest);
    DistinctPreorder([t]);
    assert PreorderAll([t]) == Preorder(t);
  }

  /** The finished entry, its kids and what is left over share no entry. */
  lemma Apart(done: seq<Tree>, todo: seq<Tree>, es: Entries)
    requires todo != [] && Distinct(todo) && Menus(done) !! Menus(todo)
    ensures var (t, rest) := Finalize(todo[0], todo[1..], es);
      && t.menu !in Menus(done) && t.menu !in Menus(t.kids) && t.menu !in Menus(rest)
      && Distinct(rest) && Menus(done + [t]) !! Menus(rest)
      && Menus(done + [t]) + Menus(rest) == Menus(done) + Menus(todo)
      && (Distinct(done) ==> Distinct(done + [t]))
      && Count(rest) < Count(todo)
  {
    var (t, rest) := Finalize(todo[0], todo[1..], es);
    FinalizeSame(todo, es);
    assert ([t] + rest)[1..] == rest;
    MenusAppend(done, [t]);
    DistinctAppend(done, [t]);
    DistinctAppend([t], rest);
    MenusAppend([t], rest);
  }

  /** One more root joins the part of the list that is finished. */
  lemma Advance(next: Field, list: Field, parent: Field, done: seq<Tree>, t: Tree, rest: seq<Tree>,
                head: Ref, end: Ref, up: Ref)
    requires Holds(next, list, parent, done, head, To(t.menu), up)
    requires Holds(next, list, parent, [t] + rest, To(t.menu), end, up)
    ensures Holds(next, list, parent, done + [t], head, Get(next, t.menu), up)
    ensures Holds(next, list, parent, rest, Get(next, t.menu), end, up)
  {
    assert ([t] + rest)[1..] == rest;
    LinkedAppend(next, list, done, [t], head, To(t.menu), Get(next, t.menu));
    ParentedAppend(parent, done, [t], up);
  }

  lemma HoldsFrame(next: Field, list: Field, parent: Field, next': Field, list': Field, parent': Field,
                   s: set<Id>, ts: seq<Tree>, head: Ref, end: Ref, up: Ref)
    requires Holds(next, list, parent, ts, head, end, up) && Menus(ts) !! s
    requires Outside(next, next', s) && Outside(list, list', s) && Outside(parent, parent', s)
    ensures Holds(next', list', parent', ts, head, end, up)
  {
    LinkedFrame(next, list, next', list', s, ts, head, end);
    ParentedFrame(parent, parent', s, ts, up);
  }

  lemma LogStep(done: seq<Tree>, t: Tree)
    ensures PreorderAll(done + [t]) == PreorderAll(done) + Preorder(t)
  {
    PreorderAppend(done, [t]);
    assert PreorderAll([t]) == Preorder(t);
  }

  /** menu->parent = parent for an entry that has just been taken over. */
  lemma Adopt(next: Field, list: Field, parent: Field, p: Id, t: Tree, rest: seq<Tree>, up: Ref)
    requires Holds(next, list, parent, [t] + rest, To(t.menu), Null, up)
    requires t.menu !in Menus(t.kids) && t.menu !in Menus(rest)
    ensures Holds(next, list, Set(parent, t.menu, To(p)), [t], To(t.menu), Get(next, t.menu), To(p))
    ensures Holds(next, list, Set(parent, t.menu, To(p)), rest, Get(next, t.menu), Null, up)
  {
    assert ([t] + rest)[1..] == rest;
    var parent' := Set(parent, t.menu, To(p));
    ParentedFrame(parent, parent', {t.menu}, t.kids, To(t.menu));
    ParentedFrame(parent, parent', {t.menu}, rest, up);
  }

  lemma Join(next: Field, list: Field, parent: Field, done: seq<Tree>, t: Tree, head: Ref, mid: Ref, end: Ref, up: Ref)
    requires Holds(next, list, parent, done, head, mid, up)
    requires Holds(next, list, parent, [t], mid, end, up)
    ensures Holds(next, list, parent, done + [t], head, end, up)
  {
    LinkedAppend(next, list, done, [t], head, mid, end);
    ParentedAppend(parent, done, [t], up);
  }

  lemma RedirectLast(next: Field, list: Field, front: seq<Tree>, x: Tree, head: Ref, end: Ref, to: Ref)
    requires Distinct(front + [x]) && Linked(next, list, front + [x], head, end)
    ensures Get(next, x.menu) == end && Linked(Set(next, x.menu, to), list, front + [x], head, to)
  {
    var mid := LinkedSplit(next, list, front, [x], head, end);
    var next' := Set(next, x.menu, to);
    DistinctAppend(front, [x]);
    LinkedFrame(next, list, next', list, {x.menu}, front, head, mid);
    LinkedFrame(next, list, next', list, {x.menu}, x.kids, Get(list, x.menu), Null);
    LinkedAppend(next', list, front, [x], head, mid, to);
  }

  /** The list from head through ts is made to end at `to` instead. */
  lemma Redirect(next: Field, list: Field, ts: seq<Tree>, head: Ref, end: Ref, to: Ref)
    requires ts != [] && Distinct(ts) && Linked(next, list, ts, head, end)
    ensures var last := ts[|ts| - 1].menu; Get(next, last) == end && Linked(Set(next, last, to), list, ts, head, to)
  {
    assert ts == ts[..|ts| - 1] + [ts[|ts| - 1]];
    RedirectLast(next, list, ts[..|ts| - 1], ts[|ts| - 1], head, end, to);
  }

  lemma LastIn(ts: seq<Tree>)
    requires ts != []
    ensures ts[|ts| - 1].menu in Menus(ts)
  {
    var front, x := ts[..|ts| - 1], ts[|ts| - 1];
    assert ts == front + [x];
    MenusAppend(front, [x]);
  }

  /** The taken siblings become the list of p and leave the list that p is in. */
  lemma CutOff(next: Field, list: Field, parent: Field, p: Id, done: seq<Tree>, todo: seq<Tree>, end: Ref, up: Ref)
    requires done != [] && Distinct(done) && Menus(done) !! Menus(todo)
    requires p !in Menus(done) && p !in Menus(todo)
    requires Holds(next, list, parent, done, Get(next, p), end, To(p))
    requires Holds(next, list, parent, todo, end, Null, up)
    ensures var last := done[|done| - 1].menu;
      var list' := Set(list, p, Get(next, p));
      var next' := Set(Set(next, p, Get(next, last)), last, Null);
      && Holds(next', list', parent, done, Get(list', p), Null, To(p))
      && Holds(next', list', parent, todo, Get(next', p), Null, up)
      && Outside(next, next', Menus(done) + {p}) && Outside(list, list', {p})
  {
    var last := done[|done| - 1].menu;
    var head := Get(next, p);
    var list' := Set(list, p, head);
    var next1 := Set(next, p, Get(next, last));
    LastIn(done);
    LinkedFrame(next, list, next1, list', {p}, done, head, end);
    LinkedFrame(next, list, next1, list', {p}, todo, end, Null);
    Redirect(next1, list', done, head, end, Null);
    LinkedFrame(next1, list', Set(next1, last, Null), list', {last}, todo, end, Null);
  }

  /** last_menu->parent = parent for one entry of a hoisted list. */
  lemma AdoptOne(parent: Field, p: Id, menu: Id, kids: seq<Tree>, k: nat)
    requires k < |kids| && Distinct(kids)
    requires Parented(parent, kids[..k], To(p)) && Parented(parent, kids[k..], To(menu))
    ensures kids[k].menu in Menus(kids)
    ensures var parent' := Set(parent, kids[k].menu, To(p));
      Parented(parent', kids[..k + 1], To(p)) && Parented(parent', kids[k + 1..], To(menu))
  {
    var front, x, tail := kids[..k], kids[k], kids[k + 1..];
    var parent' := Set(parent, x.menu, To(p));
    assert kids[k..] == [x] + tail && kids[..k + 1] == front + [x] && kids == front + ([x] + tail);
    DistinctAppend(front, [x] + tail);
    DistinctAppend([x], tail);
    MenusAppend(front, [x] + tail);
    MenusAppend([x], tail);
    ParentedFrame(parent, parent', {x.menu}, front, To(p));
    ParentedFrame(parent, parent', {x.menu}, x.kids, To(x.menu));
    ParentedFrame(parent, parent', {x.menu}, tail, To(menu));
    ParentedAppend(parent', front, [x], To(p));
  }

  lemma LinkedTail(next: Field, list: Field, kids: seq<Tree>, k: nat)
    requires k < |kids| && Linked(next, list, kids[k..], To(kids[k].menu), Null)
    ensures Linked(next, list, kids[k + 1..], Get(next, kids[k].menu), Null)
    ensures Get(next, kids[k].menu) == if k + 1 == |kids| then Null else To(kids[k + 1].menu)
  {
    assert kids[k..][1..] == kids[k + 1..];
  }

  /** The list of a menu goes in after the menu. */
  lemma Splice(next: Field, list: Field, parent: Field, menu: Id, kids: seq<Tree>, rest: seq<Tree>, p: Id)
    requires kids != [] && Distinct([Node(menu, kids)] + rest) && Get(parent, menu) == To(p)
    requires Holds(next, list, parent, kids, Get(list, menu), Null, To(p))
    requires Holds(next, list, parent, rest, Get(next, menu), Null, To(p))
    ensures var last := kids[|kids| - 1].menu;
      var next' := Set(Set(next, last, Get(next, menu)), menu, Get(list, menu));
      var list' := Set(list, menu, Null);
      && last in Menus(kids) && last != menu
      && Holds(next', list', parent, [Node(menu, [])], To(menu), Get(next', menu), To(p))
      && Holds(next', list', parent, kids + rest, Get(next', menu), Null, To(p))
  {
    var last := kids[|kids| - 1].menu;
    var head, after := Get(list, menu), Get(next, menu);
    var next1, list' := Set(next, last, after), Set(list, menu, Null);
    var next' := Set(next1, menu, head);
    assert ([Node(menu, kids)] + rest)[1..] == rest;
    LastIn(kids);
    Redirect(next, list, kids, head, Null, after);
    LinkedFrame(next, list, next1, list, {last}, rest, after, Null);
    LinkedFrame(next1, list, next', list', {menu}, rest, after, Null);
    LinkedFrame(next1, list, next', list', {menu}, kids, head, after);
    LinkedAppend(next', list', kids, rest, head, after, Null);
    ParentedAppend(parent, kids, rest, To(p));
  }

  lemma OutsideTransitive(f: Field, g: Field, h: Field, s: set<Id>, s': set<Id>)
    requires Outside(f, g, s) && Outside(g, h, s') && s' <= s
    ensures Outside(f, h, s)
  {
    forall m: Id | m !in s ensures Get(h, m) == Get(f, m) {
      assert Get(h, m) == Get(g, m);
    }
  }

  // ----- loop steps -----

  /** The finished part of a list, the part still to do from `menu` on, and their entries. */
  ghost predicate Progress(next: Field, list: Field, parent: Field, done: seq<Tree>, todo: seq<Tree>,
                           head: Ref, menu: Ref, p: Id, up: Ref, all: set<Id>) {
    && Holds(next, list, parent, done, head, menu, To(p))
    && Holds(next, list, parent, todo, menu, Null, up)
    && Distinct(todo) && Menus(done) !! Menus(todo) && Menus(done) + Menus(todo) == all
  }

  /** What MenuFinalize(menu) leaves, seen from the list it works in. */
  lemma ProgressStep(next: Field, list: Field, parent: Field, next': Field, list': Field, parent': Field,
                     done: seq<Tree>, todo: seq<Tree>, head: Ref, p: Id, all: set<Id>, es: Entries)
    requires todo != [] && Progress(next, list, parent, done, todo, head, To(todo[0].menu), p, To(p), all)
    requires var (t, rest) := Finalize(todo[0], todo[1..], es);
      Holds(next', list', parent', [t] + rest, To(t.menu), Null, To(p))
    requires Outside(next, next', Menus(todo)) && Outside(list, list', Menus(todo))
    requires Outside(parent, parent', Menus(todo))
    ensures var (t, rest) := Finalize(todo[0], todo[1..], es);
      && Progress(next', list', parent', done + [t], rest, head, Get(next', t.menu), p, To(p), all)
      && Count(rest) < Count(todo)
  {
    var (t, rest) := Finalize(todo[0], todo[1..], es);
    Apart(done, todo, es);
    HoldsFrame(next, list, parent, next', list', parent', Menus(todo), done, head, To(t.menu), To(p));
    Advance(next', list', parent', done, t, rest, head, Null, To(p));
  }

  /** The same for a later sibling, whose parent is then set to p. */
  lemma StealStep(next: Field, list: Field, parent: Field, next': Field, list': Field, parent': Field,
                  done: seq<Tree>, todo: seq<Tree>, head: Ref, p: Id, up: Ref, all: set<Id>, es: Entries)
    requires todo != [] && Progress(next, list, parent, done, todo, head, To(todo[0].menu), p, up, all)
    requires var (t, rest) := Finalize(todo[0], todo[1..], es);
      Holds(next', list', parent', [t] + rest, To(t.menu), Null, up)
    requires Outside(next, next', Menus(todo)) && Outside(list, list', Menus(todo))
    requires Outside(parent, parent', Menus(todo))
    ensures var (t, rest) := Finalize(todo[0], todo[1..], es);
      && Progress(next', list', Set(parent', t.menu, To(p)), done + [t], rest, head, Get(next', t.menu), p, up, all)
      && Outside(parent, Set(parent', t.menu, To(p)), Menus(todo))
      && Count(rest) < Count(todo)
      && (Distinct(done) ==> Distinct(done + [t]))
  {
    var (t, rest) := Finalize(todo[0], todo[1..], es);
    Apart(done, todo, es);
    HoldsFrame(next, list, parent, next', list', parent', Menus(todo), done, head, To(t.menu), To(p));
    HoldsFrame(next', list', parent', next', list', Set(parent', t.menu, To(p)), {t.menu}, done, head, To(t.menu),
               To(p));
    Adopt(next', list', parent', p, t, rest, up);
    Join(next', list', Set(parent', t.menu, To(p)), done, t, head, To(t.menu), Get(next', t.menu), To(p));
    assert todo[0].menu in Menus(todo);
  }

  ghost function Then(done: seq<Tree>, more: seq<Tree>): seq<Tree> {
    done + more
  }

  lemma ThenCons(done: seq<Tree>, t: Tree, more: seq<Tree>)
    ensures Then(done, [t] + more) == Then(done + [t], more)
  {
    assert done + ([t] + more) == (done + [t]) + more;
  }

  lemma FinalizeAllUnfold(done: seq<Tree>, todo: seq<Tree>, es: Entries)
    requires todo != []
    ensures var (t, rest) := Finalize(todo[0], todo[1..], es);
      Then(done, FinalizeAll(todo, es)) == Then(done + [t], FinalizeAll(rest, es))
  {
    var (t, rest) := Finalize(todo[0], todo[1..], es);
    ThenCons(done, t, FinalizeAll(rest, es));
  }

  // Steal, with the siblings taken so far.
  ghost function StealMore(p: Id, done: seq<Tree>, todo: seq<Tree>, es: Entries): (seq<Tree>, seq<Tree>)
    decreases Count(todo)
  {
    if todo == [] || !es.nests(p, todo[0].menu) then (done, todo)
    else
      var (t, rest) := Finalize(todo[0], todo[1..], es);
      StealMore(p, done + [t], rest, es)
  }

  lemma {:induction false} StealMoreIsSteal(p: Id, done: seq<Tree>, todo: seq<Tree>, es: Entries)
    ensures StealMore(p, done, todo, es) == (Then(done, Steal(p, todo, es).0), Steal(p, todo, es).1)
    decreases Count(todo)
  {
    if todo == [] || !es.nests(p, todo[0].menu) {
      assert done + [] == done;
    } else {
      var (t, rest) := Finalize(todo[0], todo[1..], es);
      StealMoreIsSteal(p, done + [t], rest, es);
      ThenCons(done, t, Steal(p, rest, es).0);
    }
  }

  lemma StealStart(p: Id, ts: seq<Tree>, es: Entries)
    ensures StealMore(p, [], ts, es) == Steal(p, ts, es)
  {
    StealMoreIsSteal(p, [], ts, es);
    assert [] + Steal(p, ts, es).0 == Steal(p, ts, es).0;
  }

  lemma StealBegins(next: Field, list: Field, parent: Field, p: Id, ts: seq<Tree>, up: Ref)
    requires Distinct(ts) && Holds(next, list, parent, ts, Get(next, p), Null, up)
    ensures Progress(next, list, parent, [], ts, Get(next, p), Get(next, p), p, up, Menus(ts))
    ensures Distinct([]) && PreorderAll([]) == []
  {
  }

  lemma StealNext(next: Field, list: Field, parent: Field, p: Id, done: seq<Tree>, todo: seq<Tree>,
                  menu: Ref, up: Ref, es: Entries)
    requires Holds(next, list, parent, todo, menu, Null, up)
    requires menu != Null && es.nests(p, menu.id)
    ensures todo != [] && todo[0].menu == menu.id
    ensures var (t, rest) := Finalize(todo[0], todo[1..], es);
      t.menu == menu.id && StealMore(p, done, todo, es) == StealMore(p, done + [t], rest, es)
  {
  }

  lemma StealStops(next: Field, list: Field, parent: Field, p: Id, done: seq<Tree>, todo: seq<Tree>,
                   menu: Ref, up: Ref, es: Entries)
    requires Holds(next, list, parent, todo, menu, Null, up)
    requires menu == Null || !es.nests(p, menu.id)
    ensures StealMore(p, done, todo, es) == (done, todo)
  {
  }

  lemma OutsideAll(next: Field, list: Field, parent: Field, next1: Field, list1: Field, parent1: Field,
                   next2: Field, list2: Field, parent2: Field, s: set<Id>, s': set<Id>)
    requires Outside(next, next1, s) && Outside(list, list1, s) && Outside(parent, parent1, s)
    requires Outside(next1, next2, s') && Outside(list1, list2, s') && Outside(parent1, parent2, s') && s' <= s
    ensures Outside(next, next2, s) && Outside(list, list2, s) && Outside(parent, parent2, s)
  {
    OutsideTransitive(next, next1, next2, s, s');
    OutsideTransitive(list, list1, list2, s, s');
    OutsideTransitive(parent, parent1, parent2, s, s');
  }

  lemma FirstOfList(next: Field, list: Field, parent: Field, ts: seq<Tree>, head: Ref, end: Ref, up: Ref)
    requires ts != [] && Holds(next, list, parent, ts, head, end, up)
    ensures var m := ts[0].menu;
      && head == To(m) && (ts[0].kids == [] <==> Get(list, m) == Null)
      && Holds(next, list, parent, [ts[0]], head, Get(next, m), up)
      && Holds(next, list, parent, ts[1..], Get(next, m), end, up)
  {
    assert [ts[0]][1..] == [];
    assert Linked(next, list, ts[0].kids, Get(list, ts[0].menu), Null);
  }

  lemma OneMenu(next: Field, list: Field, parent: Field, menu: Id, kids: seq<Tree>, end: Ref, up: Ref)
    requires Holds(next, list, parent, [Node(menu, kids)], To(menu), end, up)
    ensures Get(parent, menu) == up
    ensures Linked(next, list, kids, Get(list, menu), Null) && Parented(parent, kids, To(menu))
  {
  }

  // The two functions below name one step of the last loop.
  ghost function HoistFirst(todo: seq<Tree>, es: Entries): Tree
    requires todo != []
  {
    if Promptless(todo[0], es) then Node(todo[0].menu, []) else todo[0]
  }

  ghost function HoistMore(todo: seq<Tree>, es: Entries): seq<Tree>
    requires todo != []
  {
    if Promptless(todo[0], es) then todo[0].kids + todo[1..] else todo[1..]
  }

  lemma HoistUnfold(done: seq<Tree>, todo: seq<Tree>, es: Entries)
    requires todo != []
    ensures Then(done, Hoist(todo, es)) == Then(done + [HoistFirst(todo, es)], Hoist(HoistMore(todo, es), es))
    ensures Count(HoistMore(todo, es)) < Count(todo)
  {
    CountAppend(todo[0].kids, todo[1..]);
    var first, more := HoistFirst(todo, es), Hoist(HoistMore(todo, es), es);
    ThenCons(done, first, more);
  }

  lemma HoistStops(next: Field, list: Field, parent: Field, done: seq<Tree>, todo: seq<Tree>, p: Id, es: Entries)
    requires Holds(next, list, parent, todo, Null, Null, To(p))
    ensures Then(done, Hoist(todo, es)) == done
  {
    assert todo == [];
  }

  lemma HoistApart(todo: seq<Tree>, es: Entries)
    requires todo != [] && Distinct(todo)
    ensures Distinct(HoistMore(todo, es))
    ensures Menus([HoistFirst(todo, es)]) !! Menus(HoistMore(todo, es))
    ensures Menus([HoistFirst(todo, es)]) + Menus(HoistMore(todo, es)) == Menus(todo)
  {
    var t, rest := todo[0], todo[1..];
    MenusAppend(t.kids, rest);
    DistinctAppend(t.kids, rest);
    assert Menus([Node(t.menu, [])]) == {t.menu};
    assert Menus([t]) == {t.menu} + Menus(t.kids);
  }

  lemma HoistStep(next: Field, list: Field, parent: Field, next': Field, list': Field, parent': Field,
                  done: seq<Tree>, todo: seq<Tree>, head: Ref, p: Id, all: set<Id>, es: Entries)
    requires todo != [] && Progress(next, list, parent, done, todo, head, To(todo[0].menu), p, To(p), all)
    requires var m := todo[0].menu;
      && Holds(next', list', parent', [HoistFirst(todo, es)], To(m), Get(next', m), To(p))
      && Holds(next', list', parent', HoistMore(todo, es), Get(next', m), Null, To(p))
    requires Outside(next, next', Menus(todo)) && Outside(list, list', Menus(todo))
    requires Outside(parent, parent', Menus(todo))
    ensures Progress(next', list', parent', done + [HoistFirst(todo, es)], HoistMore(todo, es),
                     head, Get(next', todo[0].menu), p, To(p), all)
  {
    var m, first := todo[0].menu, HoistFirst(todo, es);
    HoistApart(todo, es);
    MenusAppend(done, [first]);
    HoldsFrame(next, list, parent, next', list', parent', Menus(todo), done, head, To(m), To(p));
    Join(next', list', parent', done, first, head, To(m), Get(next', m), To(p));
  }

  class MenuTable {
    var next: Field
    var list: Field
    var parent: Field
    const es: Entries

    /** The list from head to end is ts below `up`. */
    ghost predicate List(ts: seq<Tree>, head: Ref, end: Ref, up: Ref)
      reads this
    {
      Holds(next, list, parent, ts, head, end, up)
    }

    /** No pointer of an entry outside s has changed. */
    twostate predicate Untouched(s: set<Id>)
      reads this
    {
      Outside(old(next), next, s) && Outside(old(list), list, s) && Outside(old(parent), parent, s)
    }

    /** Finalises p, whose later siblings may be taken over by it; `up` is the parent they
        share.  `log` lists the entries in the order in which they are finalised. */
    method MenuFinalize(p: Id, ghost ts: seq<Tree>, ghost up: Ref)
      returns (ghost t: Tree, ghost rest: seq<Tree>, ghost log: seq<Id>)
      requires ts != [] && ts[0].menu == p && Distinct(ts) && List(ts, To(p), Null, up)
      modifies this
      ensures (t, rest) == Finalize(ts[0], ts[1..], es)
      ensures List([t] + rest, To(p), Null, up)
      ensures Untouched(Menus(ts))
      ensures log == Preorder(t) && NoRepeat(log)
      decreases Count(ts), 0
    {
      FinishedOnce(ts, es);
      ghost var kids := ts[0].kids;
      ghost var sub := [];
      rest := ts[1..];
      FirstOfList(next, list, parent, ts, To(p), Null, up);
      if Get(list, p) != Null {
        kids, sub := FinalizeKids(p, kids);
        HoldsFrame(old(next), old(list), old(parent), next, list, parent, Menus(ts[0].kids), rest, Get(next, p), Null,
                   up);
        FinalizeAllPreorder(ts[0].kids, es);
        SameOrder(kids, ts[0].kids);
      } else if es.hasSym(p) {
        kids, rest, sub := StealSiblings(p, rest, up);
        StealSame(p, ts[1..], es);
      }
      log := [p] + sub;
      HoistPreorder(kids, es);
      label L:
      HoistKids(p, kids);
      HoldsFrame(old@L(next), old@L(list), old@L(parent), next, list, parent, Menus(kids), rest, Get(next, p), Null,
                 up);
      OutsideAll(old(next), old(list), old(parent), old@L(next), old@L(list), old@L(parent), next, list, parent,
                 Menus(ts), Menus(kids));
      t := Node(p, Hoist(kids, es));
      assert ([t] + rest)[1..] == rest;
    }

    /** The loop over the children of an entry that has some. */
    method FinalizeKids(p: Id, ghost ts: seq<Tree>) returns (ghost done: seq<Tree>, ghost log: seq<Id>)
      requires Distinct(ts) && p !in Menus(ts) && List(ts, Get(list, p), Null, To(p))
      modifies this
      ensures done == FinalizeAll(ts, es)
      ensures List(done, Get(list, p), Null, To(p))
      ensures Untouched(Menus(ts))
      ensures log == PreorderAll(done)
      decreases Count(ts), 1
    {
      done, log := [], [];
      ghost var todo := ts;
      var menu := Get(list, p);
      while menu != Null
        invariant Progress(next, list, parent, done, todo, Get(list, p), menu, p, To(p), Menus(ts))
        invariant Then(done, FinalizeAll(todo, es)) == FinalizeAll(ts, es)
        invariant Untouched(Menus(ts))
        invariant Count(todo) <= Count(ts)
        invariant log == PreorderAll(done)
        decreases Count(todo)
      {
        label L:
        ghost var t, rest, sub := MenuFinalize(menu.id, todo, To(p));
        ProgressStep(old@L(next), old@L(list), old@L(parent), next, list, parent, done, todo, Get(list, p), p,
                     Menus(ts), es);
        OutsideAll(old(next), old(list), old(parent), old@L(next), old@L(list), old@L(parent), next, list, parent,
                   Menus(ts), Menus(todo));
        LogStep(done, t);
        FinalizeAllUnfold(done, todo, es);
        log := log + sub;
        done, todo := done + [t], rest;
        menu := Get(next, menu.id);
      }
    }

    /** The loop over the later siblings of an entry without children. */
    method StealSiblings(p: Id, ghost ts: seq<Tree>, ghost up: Ref)
      returns (ghost done: seq<Tree>, ghost todo: seq<Tree>, ghost log: seq<Id>)
      requires Distinct(ts) && p !in Menus(ts) && Get(list, p) == Null && List(ts, Get(next, p), Null, up)
      modifies this
      ensures (done, todo) == Steal(p, ts, es)
      ensures List(done, Get(list, p), Null, To(p)) && List(todo, Get(next, p), Null, up)
      ensures Untouched(Menus(ts) + {p}) && Get(parent, p) == old(Get(parent, p))
      ensures log == PreorderAll(done)
      decreases Count(ts), 2
    {
      hide Linked, Parented, Steal, StealMore, Finalize, PreorderAll, Menus, Distinct;
      StealBegins(next, list, parent, p, ts, up);
      done, todo, log := [], ts, [];
      StealStart(p, ts, es);
      var lastMenu := Null;
      var menu := Get(next, p);
      while menu != Null && es.nests(p, menu.id)
        invariant Progress(next, list, parent, done, todo, Get(next, p), menu, p, up, Menus(ts)) && Distinct(done)
        invariant StealMore(p, done, todo, es) == Steal(p, ts, es)
        invariant lastMenu == if done == [] then Null else To(done[|done| - 1].menu)
        invariant Untouched(Menus(ts))
        invariant Count(todo) <= Count(ts)
        invariant log == PreorderAll(done)
        decreases Count(todo)
      {
        label L:
        StealNext(next, list, parent, p, done, todo, menu, up, es);
        ghost var t, rest, sub := StealOne(p, menu.id, done, todo, up, Menus(ts));
        OutsideAll(old(next), old(list), old(parent), old@L(next), old@L(list), old@L(parent), next, list, parent,
                   Menus(ts), Menus(todo));
        LogStep(done, t);
        log := log + sub;
        done, todo := done + [t], rest;
        lastMenu := menu;
        menu := Get(next, menu.id);
      }
      StealStops(next, list, parent, p, done, todo, menu, up, es);
      label C:
      TakeList(p, lastMenu, done, todo, menu, up);
      OutsideAll(old(next), old(list), old(parent), old@C(next), old@C(list), old@C(parent), next, list, parent,
                 Menus(ts) + {p}, Menus(done) + {p});
    }

    /** The body of that loop: the next sibling is finalised and becomes a child of p. */
    method StealOne(p: Id, menu: Id, ghost done: seq<Tree>, ghost todo: seq<Tree>, ghost up: Ref, ghost all: set<Id>)
      returns (ghost t: Tree, ghost rest: seq<Tree>, ghost log: seq<Id>)
      requires todo != [] && todo[0].menu == menu && p !in all
      requires Progress(next, list, parent, done, todo, Get(next, p), To(menu), p, up, all)
      modifies this
      ensures (t, rest) == Finalize(todo[0], todo[1..], es)
      ensures Progress(next, list, parent, done + [t], rest, Get(next, p), Get(next, menu), p, up, all)
      ensures Distinct(done) ==> Distinct(done + [t])
      ensures Untouched(Menus(todo))
      ensures Count(rest) < Count(todo)
      ensures log == Preorder(t)
      decreases Count(todo), 1
    {
      t, rest, log := MenuFinalize(menu, todo, up);
      StealStep(old(next), old(list), old(parent), next, list, parent, done, todo, Get(next, p), p, up, all, es);
      parent := Set(parent, menu, To(p));
    }

    /** The siblings up to lastMenu, if there are any, leave the list that p is in and become
        the list of p. */
    method TakeList(p: Id, lastMenu: Ref, ghost done: seq<Tree>, ghost todo: seq<Tree>, ghost menu: Ref, ghost up: Ref)
      requires Distinct(done) && Menus(done) !! Menus(todo)
      requires lastMenu == if done == [] then Null else To(done[|done| - 1].menu)
      requires p !in Menus(done) && p !in Menus(todo) && Get(list, p) == Null
      requires List(done, Get(next, p), menu, To(p)) && List(todo, menu, Null, up)
      modifies `next, `list
      ensures List(done, Get(list, p), Null, To(p)) && List(todo, Get(next, p), Null, up)
      ensures Untouched(Menus(done) + {p})
    {
      if lastMenu != Null {
        CutOff(next, list, parent, p, done, todo, menu, up);
        list := Set(list, p, Get(next, p));
        next := Set(next, p, Get(next, lastMenu.id));
        next := Set(next, lastMenu.id, Null);
      }
    }

    /** The last loop: a menu without a prompt text hands its list to the list that holds it. */
    method HoistKids(p: Id, ghost ts: seq<Tree>)
      requires Distinct(ts) && p !in Menus(ts) && List(ts, Get(list, p), Null, To(p))
      modifies this
      ensures List(Hoist(ts, es), Get(list, p), Null, To(p))
      ensures Untouched(Menus(ts))
    {
      ghost var done, todo := [], ts;
      var menu := Get(list, p);
      while menu != Null
        invariant Progress(next, list, parent, done, todo, Get(list, p), menu, p, To(p), Menus(ts))
        invariant Then(done, Hoist(todo, es)) == Hoist(ts, es)
        invariant Untouched(Menus(ts))
        decreases Count(todo)
      {
        HoistUnfold(done, todo, es);
        label L:
        Unpack(p, menu.id, todo);
        HoistStep(old@L(next), old@L(list), old@L(parent), next, list, parent, done, todo, Get(list, p), p, Menus(ts),
                  es);
        OutsideAll(old(next), old(list), old(parent), old@L(next), old@L(list), old@L(parent), next, list, parent,
                   Menus(ts), Menus(todo));
        done, todo := done + [HoistFirst(todo, es)], HoistMore(todo, es);
        menu := Get(next, menu.id);
      }
      HoistStops(next, list, parent, done, todo, p, es);
    }

    /** The body of the loop: what becomes of the first entry of todo. */
    method Unpack(p: Id, menu: Id, ghost todo: seq<Tree>)
      requires todo != [] && todo[0].menu == menu && Distinct(todo) && List(todo, To(menu), Null, To(p))
      modifies this
      ensures List([HoistFirst(todo, es)], To(menu), Get(next, menu), To(p))
      ensures List(HoistMore(todo, es), Get(next, menu), Null, To(p))
      ensures Untouched(Menus(todo))
    {
      FirstOfList(next, list, parent, todo, To(menu), Null, To(p));
      if Get(list, menu) != Null && !es.hasText(menu) {
        assert todo == [Node(menu, todo[0].kids)] + todo[1..];
        HoistOne(p, menu, todo[0].kids, todo[1..]);
      }
    }

    /** Splices the list of `menu` in after it and gives its entries their new parent. */
    method HoistOne(p: Id, menu: Id, ghost kids: seq<Tree>, ghost rest: seq<Tree>)
      requires Distinct([Node(menu, kids)] + rest) && Get(list, menu) != Null
      requires List([Node(menu, kids)] + rest, To(menu), Null, To(p))
      modifies this
      ensures List([Node(menu, [])], To(menu), Get(next, menu), To(p))
      ensures List(kids + rest, Get(next, menu), Null, To(p))
      ensures Untouched(Menus([Node(menu, kids)] + rest))
    {
      hide Linked, Parented;
      ghost var ts := [Node(menu, kids)] + rest;
      assert ts[1..] == rest;
      FirstOfList(next, list, parent, ts, To(menu), Null, To(p));
      OneMenu(next, list, parent, menu, kids, Get(next, menu), To(p));
      var lastMenu := AdoptKids(p, menu, kids);
      ParentedFrame(old(parent), parent, Menus(kids), rest, To(p));
      Splice(next, list, parent, menu, kids, rest, p);
      next := Set(next, lastMenu, Get(next, menu));
      next := Set(next, menu, Get(list, menu));
      list := Set(list, menu, Null);
    }

    /** The loop that gives the entries of a list their new parent. */
    method AdoptKids(p: Id, menu: Id, ghost kids: seq<Tree>) returns (lastMenu: Id)
      requires kids != [] && Distinct(kids)
      requires Linked(next, list, kids, Get(list, menu), Null) && Parented(parent, kids, To(menu))
      modifies `parent
      ensures Parented(parent, kids, To(p)) && Outside(old(parent), parent, Menus(kids))
      ensures lastMenu == kids[|kids| - 1].menu
    {
      lastMenu := Get(list, menu).id;
      ghost var k := 0;
      assert kids[0..] == kids;
      while true
        invariant 0 <= k < |kids| && lastMenu == kids[k].menu
        invariant Linked(next, list, kids[k..], To(lastMenu), Null)
        invariant Parented(parent, kids[..k], To(p)) && Parented(parent, kids[k..], To(menu))
        invariant Outside(old(parent), parent, Menus(kids))
        decreases |kids| - k
      {
        AdoptOne(parent, p, menu, kids, k);
        LinkedTail(next, list, kids, k);
        parent := Set(parent, lastMenu, To(p));
        if Get(next, lastMenu) == Null {
          break;
        }
        lastMenu := Get(next, lastMenu).id;
        k := k + 1;
      }
      assert kids[..k + 1] == kids;
    }
  }
}
