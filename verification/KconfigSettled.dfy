/** The nesting loop of menu_finalize runs, and runs to its end (util/kconfig/menu.c:341-371). */
module KconfigSettled {
  import opened KconfigMenu
  import opened KconfigVisibility

  /** The siblings an entry leaves behind: one without children but with a symbol takes over siblings
      until none is left or the next one fails its test; any other leaves them all. */
  lemma {:induction false} LoopEnds(t: Tree, rest: seq<Tree>, es: Entries)
    ensures var left := Finalize(t, rest, es).1;
      if t.kids == [] && es.hasSym(t.menu) then left == [] || !es.nests(t.menu, left[0].menu) else left == rest
  {
    if t.kids == [] && es.hasSym(t.menu) {
      StealTaken(t.menu, rest, es);
    }
  }

  // ----- the whole menu -----

  /** In `ts` as the parser left it, the entries of `childless` have no children. */
  ghost predicate Leaves(ts: seq<Tree>, childless: Id -> bool) {
    ts != [] ==>
      && (childless(ts[0].menu) ==> ts[0].kids == [])
      && Leaves(ts[0].kids, childless) && Leaves(ts[1..], childless)
  }

  /** b may stand behind a: a is not one of the childless entries with a symbol whose test b passes;
      or a has no prompt text and handed on what it had; or a itself was handed on by such an
      entry, and has come to stand in front of b that way. */
  ghost predicate MayFollow(childless: Id -> bool, r: (Id, Id) -> bool, es: Entries, a: Id, b: Id) {
    childless(a) && es.hasSym(a) && es.nests(a, b) ==> !es.hasText(a) || HandedOn(r, es, a)
  }

  ghost predicate HandedOn(r: (Id, Id) -> bool, es: Entries, a: Id) {
    exists x: Id :: r(x, a) && !es.hasText(x)
  }

  /** Every two neighbours in ts, at any depth. */
  ghost predicate Neighbours(q: (Id, Id) -> bool, ts: seq<Tree>) {
    ts != [] ==>
      && (|ts| > 1 ==> q(ts[0].menu, ts[1].menu))
      && Neighbours(q, ts[0].kids) && Neighbours(q, ts[1..])
  }

  /** q allows what MayFollow allows. */
  ghost predicate Allows(q: (Id, Id) -> bool, childless: Id -> bool, r: (Id, Id) -> bool, es: Entries) {
    forall a: Id, b: Id {:trigger q(a, b)} :: MayFollow(childless, r, es, a, b) ==> q(a, b)
  }

  lemma NeighboursCons(q: (Id, Id) -> bool, t: Tree, ts: seq<Tree>)
    ensures Neighbours(q, [t] + ts)
       <==> (ts != [] ==> q(t.menu, ts[0].menu)) && Neighbours(q, t.kids) && Neighbours(q, ts)
  {
    assert ([t] + ts)[1..] == ts;
  }

  lemma {:induction false} NeighboursAppend(q: (Id, Id) -> bool, a: seq<Tree>, b: seq<Tree>)
    requires Neighbours(q, a) && Neighbours(q, b)
    requires a != [] && b != [] ==> q(a[|a| - 1].menu, b[0].menu)
    ensures Neighbours(q, a + b)
    decreases a
  {
    if a == [] {
      assert a + b == b;
    } else {
      assert a + b == [a[0]] + (a[1..] + b);
      assert a == [a[0]] + a[1..];
      NeighboursCons(q, a[0], a[1..]);
      NeighboursAppend(q, a[1..], b);
      NeighboursCons(q, a[0], a[1..] + b);
    }
  }

  lemma {:induction false} UnderLast(r: (Id, Id) -> bool, ts: seq<Tree>, up: Id)
    requires Under(r, ts, up) && ts != []
    ensures r(up, ts[|ts| - 1].menu)
    decreases ts
  {
    UnderParts(r, ts, up);
    if |ts| > 1 {
      UnderLast(r, ts[1..], up);
    }
  }

  lemma {:induction false} HoistNeighbours(q: (Id, Id) -> bool, childless: Id -> bool, r: (Id, Id) -> bool,
                                           ts: seq<Tree>, up: Id, es: Entries)
    requires Allows(q, childless, r, es) && Explains(r, es) && Under(r, ts, up) && Neighbours(q, ts)
    ensures Neighbours(q, Hoist(ts, es)) && (ts != [] ==> Hoist(ts, es) != [] && Hoist(ts, es)[0].menu == ts[0].menu)
    decreases Count(ts)
  {
    hide Explains, Under, Neighbours;
    if ts != [] {
      var t := ts[0];
      assert ts == [t] + ts[1..];
      NeighboursCons(q, t, ts[1..]);
      UnderParts(r, ts, up);
      if Promptless(t, es) {
        var more := t.kids + ts[1..];
        Raise(r, t.kids, t.menu, up, es);
        UnderAppend(r, t.kids, ts[1..], up);
        CountAppend(t.kids, ts[1..]);
        UnderLast(r, t.kids, t.menu);
        assert HandedOn(r, es, t.kids[|t.kids| - 1].menu);
        NeighboursAppend(q, t.kids, ts[1..]);
        HoistNeighbours(q, childless, r, more, up, es);
        NoNeighbours(q);
        NeighboursCons(q, Tree.Node(t.menu, []), Hoist(more, es));
      } else {
        HoistNeighbours(q, childless, r, ts[1..], up, es);
        NeighboursCons(q, t, Hoist(ts[1..], es));
      }
    }
  }

  lemma NoNeighbours(q: (Id, Id) -> bool)
    ensures Neighbours(q, [])
  {
  }

  lemma {:induction false} FinalizeNeighbours(q: (Id, Id) -> bool, childless: Id -> bool, r: (Id, Id) -> bool,
                                              t: Tree, rest: seq<Tree>, up: Id, es: Entries)
    requires Allows(q, childless, r, es) && Explains(r, es) && Under(r, [t] + rest, up) && Leaves([t] + rest, childless)
    ensures var (t', left) := Finalize(t, rest, es);
      && Neighbours(q, t'.kids) && (left != [] ==> q(t'.menu, left[0].menu)) && Leaves(left, childless)
    decreases Count(t.kids) + Count(rest) + 1, 0
  {
    hide Explains, Under, Neighbours;
    assert ([t] + rest)[1..] == rest;
    UnderCons(r, t, rest, up);
    LoopEnds(t, rest, es);
    if t.kids != [] {
      FinalizeAllNeighbours(q, childless, r, t.kids, t.menu, es);
      FinalizeAllUnder(r, t.kids, t.menu, es);
      HoistNeighbours(q, childless, r, FinalizeAll(t.kids, es), t.menu, es);
    } else if es.hasSym(t.menu) {
      StealNeighbours(q, childless, r, t.menu, rest, up, es);
      StealUnder(r, t.menu, rest, up, es);
      HoistNeighbours(q, childless, r, Steal(t.menu, rest, es).0, t.menu, es);
    } else {
      NoNeighbours(q);
    }
  }

  lemma {:induction false} FinalizeAllNeighbours(q: (Id, Id) -> bool, childless: Id -> bool, r: (Id, Id) -> bool,
                                                 ts: seq<Tree>, up: Id, es: Entries)
    requires Allows(q, childless, r, es) && Explains(r, es) && Under(r, ts, up) && Leaves(ts, childless)
    ensures var done := FinalizeAll(ts, es);
      Neighbours(q, done) && (ts != [] ==> done != [] && done[0].menu == ts[0].menu)
    decreases Count(ts), 1
  {
    hide Explains, Under, Neighbours, Allows;
    if ts == [] {
      NoNeighbours(q);
    } else {
      var (t, rest) := Finalize(ts[0], ts[1..], es);
      assert [ts[0]] + ts[1..] == ts;
      FinalizeNeighbours(q, childless, r, ts[0], ts[1..], up, es);
      FinalizeUnder(r, ts[0], ts[1..], up, es);
      UnderCons(r, t, rest, up);
      FinalizeAllNeighbours(q, childless, r, rest, up, es);
      NeighboursCons(q, t, FinalizeAll(rest, es));
    }
  }

  lemma {:induction false} StealNeighbours(q: (Id, Id) -> bool, childless: Id -> bool, r: (Id, Id) -> bool,
                                           p: Id, ts: seq<Tree>, up: Id, es: Entries)
    requires Allows(q, childless, r, es) && Explains(r, es) && es.hasSym(p) && Under(r, ts, up) && Leaves(ts, childless)
    ensures var (kids, left) := Steal(p, ts, es);
      && Neighbours(q, kids) && Leaves(left, childless) && (kids != [] ==> ts != [] && kids[0].menu == ts[0].menu)
    decreases Count(ts), 1
  {
    hide Explains, Under, Neighbours, Allows;
    if ts == [] || !es.nests(p, ts[0].menu) {
      NoNeighbours(q);
    } else {
      var (t, rest) := Finalize(ts[0], ts[1..], es);
      assert [ts[0]] + ts[1..] == ts;
      FinalizeNeighbours(q, childless, r, ts[0], ts[1..], up, es);
      FinalizeUnder(r, ts[0], ts[1..], up, es);
      UnderCons(r, t, rest, up);
      StealNeighbours(q, childless, r, p, rest, up, es);
      NeighboursCons(q, t, Steal(p, rest, es).0);
    }
  }

  /** Nowhere in the finished menu does a sibling stay behind a childless entry with a symbol whose
      test it passes, unless that entry has no prompt text and handed on what it had, or was
      itself handed on by such an entry.  HandedNeighbour and UnpromptedHop show both. */
  lemma SettledMenu(childless: Id -> bool, r: (Id, Id) -> bool, t: Tree, rest: seq<Tree>, up: Id, es: Entries)
    requires Explains(r, es) && Under(r, [t] + rest, up) && Leaves([t] + rest, childless)
    ensures var (t', left) := Finalize(t, rest, es);
      var q := (a: Id, b: Id) => MayFollow(childless, r, es, a, b);
      Neighbours(q, [t']) && (left != [] ==> q(t'.menu, left[0].menu))
  {
    hide Explains, Under, Neighbours, Finalize, Leaves;
    var q := (a: Id, b: Id) => MayFollow(childless, r, es, a, b);
    FinalizeNeighbours(q, childless, r, t, rest, up, es);
    var t' := Finalize(t, rest, es).0;
    NoNeighbours(q);
    NeighboursCons(q, t', []);
    assert [t'] + [] == [t'];
  }

  /** Menu 0 has no prompt text and holds entry 1; entry 2 stands behind the menu and passes the test
      of 1. */
  ghost function HandedEntries(): Entries {
    Entries(m => m == 1 || m == 2, m => m != 0, (p, m) => p == 1 && m == 2)
  }

  /** In the finished list entry 2 stands right behind entry 1: 1 had taken what it could before it
      was handed on to that list. */
  lemma HandedNeighbour()
    ensures var n1, n2 := Tree.Node(1, []), Tree.Node(2, []);
      && Finalize(Tree.Node(9, [Tree.Node(0, [n1]), n2]), [], HandedEntries())
         == (Tree.Node(9, [Tree.Node(0, []), n1, n2]), [])
      && HandedEntries().nests(1, 2)
  {
    var es := HandedEntries();
    var n0, n1, n2 := Tree.Node(0, [Tree.Node(1, [])]), Tree.Node(1, []), Tree.Node(2, []);
    assert [n0, n2][1..] == [n2] && [n1][1..] == [] && [n2][1..] == [];
    assert Steal(1, [], es) == ([], []) && Steal(2, [], es) == ([], []) && Hoist([], es) == [];
    assert Finalize(n1, [], es) == (n1, []) && Finalize(n2, [], es) == (n2, []);
    assert FinalizeAll([], es) == [];
    assert FinalizeAll([n1], es) == [n1];
    assert Hoist([n1], es) == [n1] && Hoist([n2], es) == [n2];
    assert Finalize(n0, [n2], es) == (n0, [n2]);
    assert FinalizeAll([n2], es) == [n2];
    assert FinalizeAll([n0, n2], es) == [n0, n2];
    assert [n1] + [n2] == [n1, n2] && [n1, n2][1..] == [n2];
    assert Hoist([n1, n2], es) == [n1, n2];
    assert Hoist([n0, n2], es) == [Tree.Node(0, [])] + [n1, n2] == [Tree.Node(0, []), n1, n2];
  }
}
