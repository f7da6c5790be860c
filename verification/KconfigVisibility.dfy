/** What the place of an entry in the finished menu says about its condition
    (util/kconfig/menu.c:282-425). */
module KconfigVisibility {
  import opened Common
  import opened KconfigExpr
  import opened KconfigEquality
  import opened KconfigMenu
  import opened KconfigNesting

  /** Every entry of ts with the entry whose list holds it; `up` holds the roots. */
  ghost function Edges(ts: seq<Tree>, up: Id): set<(Id, Id)> {
    if ts == [] then {}
    else {(up, ts[0].menu)} + Edges(ts[0].kids, ts[0].menu) + Edges(ts[1..], up)
  }

  /** These pairs are what the parent links say. */
  lemma {:induction false} ParentEdges(parent: Field, ts: seq<Tree>, up: Id)
    ensures Parented(parent, ts, To(up)) <==> forall e :: e in Edges(ts, up) ==> Get(parent, e.1) == To(e.0)
  {
    if ts != [] {
      ParentEdges(parent, ts[0].kids, ts[0].menu);
      ParentEdges(parent, ts[1..], up);
      assert (up, ts[0].menu) in Edges(ts, up);
    }
  }

  // ----- how an entry comes below another -----

  /** r holds for whatever passed the test, and is handed on by a menu without a prompt text. */
  ghost predicate Explains(r: (Id, Id) -> bool, es: Entries) {
    && (forall p: Id, m: Id {:trigger r(p, m)} :: es.hasSym(p) && es.nests(p, m) ==> r(p, m))
    && (forall p: Id, q: Id, m: Id {:trigger r(p, q), r(q, m)} :: r(p, q) && r(q, m) && !es.hasText(q) ==> r(p, m))
  }

  ghost predicate Under(r: (Id, Id) -> bool, ts: seq<Tree>, up: Id) {
    forall e :: e in Edges(ts, up) ==> r(e.0, e.1)
  }

  lemma UnderParts(r: (Id, Id) -> bool, ts: seq<Tree>, up: Id)
    requires ts != []
    ensures Under(r, ts, up)
      <==> r(up, ts[0].menu) && Under(r, ts[0].kids, ts[0].menu) && Under(r, ts[1..], up)
  {
    assert (up, ts[0].menu) in Edges(ts, up);
  }

  lemma UnderCons(r: (Id, Id) -> bool, t: Tree, ts: seq<Tree>, up: Id)
    ensures Under(r, [t] + ts, up) <==> r(up, t.menu) && Under(r, t.kids, t.menu) && Under(r, ts, up)
  {
    UnderParts(r, [t] + ts, up);
    assert ([t] + ts)[1..] == ts;
  }

  lemma {:induction false} UnderAppend(r: (Id, Id) -> bool, a: seq<Tree>, b: seq<Tree>, up: Id)
    ensures Under(r, a + b, up) <==> Under(r, a, up) && Under(r, b, up)
  {
    if a == [] {
      assert a + b == b;
    } else {
      assert (a + b)[1..] == a[1..] + b;
      UnderParts(r, a, up);
      UnderParts(r, a + b, up);
      UnderAppend(r, a[1..], b, up);
    }
  }

  lemma {:induction false} Raise(r: (Id, Id) -> bool, ts: seq<Tree>, menu: Id, up: Id, es: Entries)
    requires Explains(r, es) && Under(r, ts, menu) && r(up, menu) && !es.hasText(menu)
    ensures Under(r, ts, up)
  {
    if ts != [] {
      UnderParts(r, ts, menu);
      UnderParts(r, ts, up);
      Raise(r, ts[1..], menu, up, es);
    }
  }

  lemma {:induction false} HoistUnder(r: (Id, Id) -> bool, ts: seq<Tree>, up: Id, es: Entries)
    requires Explains(r, es) && Under(r, ts, up)
    ensures Under(r, Hoist(ts, es), up)
    decreases Count(ts)
  {
    hide Explains;
    if ts != [] {
      var t := ts[0];
      UnderParts(r, ts, up);
      if Promptless(t, es) {
        Raise(r, t.kids, t.menu, up, es);
        UnderAppend(r, t.kids, ts[1..], up);
        CountAppend(t.kids, ts[1..]);
        HoistUnder(r, t.kids + ts[1..], up, es);
        UnderCons(r, Node(t.menu, []), Hoist(t.kids + ts[1..], es), up);
      } else {
        HoistUnder(r, ts[1..], up, es);
        UnderCons(r, t, Hoist(ts[1..], es), up);
      }
    }
  }

  lemma {:induction false} FinalizeUnder(r: (Id, Id) -> bool, t: Tree, rest: seq<Tree>, up: Id, es: Entries)
    requires Explains(r, es) && Under(r, [t] + rest, up)
    ensures var (t', rest') := Finalize(t, rest, es); Under(r, [t'] + rest', up)
    decreases Count(t.kids) + Count(rest) + 1, 0
  {
    hide Explains, Under;
    UnderCons(r, t, rest, up);
    var (t', rest') := Finalize(t, rest, es);
    if t.kids != [] {
      FinalizeAllUnder(r, t.kids, t.menu, es);
      HoistUnder(r, FinalizeAll(t.kids, es), t.menu, es);
    } else if es.hasSym(t.menu) {
      StealUnder(r, t.menu, rest, up, es);
      HoistUnder(r, Steal(t.menu, rest, es).0, t.menu, es);
    }
    UnderCons(r, t', rest', up);
  }

  lemma {:induction false} FinalizeAllUnder(r: (Id, Id) -> bool, ts: seq<Tree>, up: Id, es: Entries)
    requires Explains(r, es) && Under(r, ts, up)
    ensures Under(r, FinalizeAll(ts, es), up)
    decreases Count(ts), 1
  {
    hide Explains, Under;
    if ts != [] {
      var (t, rest) := Finalize(ts[0], ts[1..], es);
      assert [ts[0]] + ts[1..] == ts;
      FinalizeUnder(r, ts[0], ts[1..], up, es);
      UnderCons(r, t, rest, up);
      FinalizeAllUnder(r, rest, up, es);
      UnderCons(r, t, FinalizeAll(rest, es), up);
    }
  }

  lemma {:induction false} StealUnder(r: (Id, Id) -> bool, p: Id, ts: seq<Tree>, up: Id, es: Entries)
    requires Explains(r, es) && es.hasSym(p) && Under(r, ts, up)
    ensures var (kids, left) := Steal(p, ts, es); Under(r, kids, p) && Under(r, left, up)
    decreases Count(ts), 1
  {
    hide Under;
    if ts == [] || !es.nests(p, ts[0].menu) {
      NothingUnder(r, p);
    } else {
      var (t, rest) := Finalize(ts[0], ts[1..], es);
      assert [ts[0]] + ts[1..] == ts;
      FinalizeUnder(r, ts[0], ts[1..], up, es);
      UnderCons(r, t, rest, up);
      StealUnder(r, p, rest, up, es);
      UnderCons(r, t, Steal(p, rest, es).0, p);
    }
  }

  lemma NothingUnder(r: (Id, Id) -> bool, up: Id)
    ensures Under(r, [], up)
  {
  }

  // ----- the whole menu -----

  /** What the entries are about. */
  datatype Conditions = Conditions(dep: Id -> Option<Expr>, prompt: Id -> Prompt, sym: Id -> Symbol)

  /** es holds the outcomes of the test, and a text only where there is a prompt. */
  ghost predicate Recorded(es: Entries, c: Conditions) {
    && (forall p: Id, m: Id {:trigger es.nests(p, m)} ::
          es.hasSym(p) ==> NestsOutcome(c.dep(m), c.prompt(p), c.sym(p), es.nests(p, m)))
    && (forall p: Id {:trigger es.hasText(p)} :: es.hasText(p) ==> c.prompt(p).Prompt?)
  }

  /** The parser put m below p, or m passed the test: its condition mentions the symbol of p, and
      if p has a prompt or m depends on that symbol, then m's condition is met only while the symbol
      is on or the prompt is shown. */
  ghost predicate Link(parsed: set<(Id, Id)>, c: Conditions, p: Id, m: Id) {
    (p, m) in parsed || Passed(c.dep(m), c.prompt(p), c.sym(p))
  }

  /** From p to m by such links, over menus without a prompt text. */
  ghost predicate Way(path: seq<Id>, parsed: set<(Id, Id)>, c: Conditions, es: Entries, p: Id, m: Id) {
    && |path| >= 2 && path[0] == p && path[|path| - 1] == m
    && (forall i :: 0 <= i < |path| - 1 ==> Link(parsed, c, path[i], path[i + 1]))
    && (forall i :: 0 < i < |path| - 1 ==> !es.hasText(path[i]))
  }

  ghost predicate Reached(parsed: set<(Id, Id)>, c: Conditions, es: Entries, p: Id, m: Id) {
    exists path: seq<Id> :: Way(path, parsed, c, es, p, m)
  }

  lemma OneLink(parsed: set<(Id, Id)>, c: Conditions, es: Entries, p: Id, m: Id)
    requires Link(parsed, c, p, m)
    ensures Reached(parsed, c, es, p, m)
  {
    hide Link;
    assert Way([p, m], parsed, c, es, p, m);
  }

  lemma JoinWays(parsed: set<(Id, Id)>, c: Conditions, es: Entries, p: Id, q: Id, m: Id)
    requires Reached(parsed, c, es, p, q) && Reached(parsed, c, es, q, m) && !es.hasText(q)
    ensures Reached(parsed, c, es, p, m)
  {
    hide Link;
    var a :| Way(a, parsed, c, es, p, q);
    var b :| Way(b, parsed, c, es, q, m);
    var path := a + b[1..];
    assert forall i :: 0 <= i < |a| ==> path[i] == a[i];
    assert forall i :: |a| - 1 <= i < |path| ==> path[i] == b[i - |a| + 1];
    assert Way(path, parsed, c, es, p, m);
  }

  /** In the finished menu every entry sits below the entry that the parser put it below, below one
      whose test it passed, or it came there from such a place through menus without a prompt
      text. */
  lemma FinishedPlaces(t: Tree, rest: seq<Tree>, up: Id, es: Entries, c: Conditions)
    requires Recorded(es, c)
    ensures var (t', rest') := Finalize(t, rest, es);
      forall e :: e in Edges([t'] + rest', up) ==> Reached(Edges([t] + rest, up), c, es, e.0, e.1)
  {
    hide Edges, Passed, Reached, NestsOutcome, Finalize;
    var parsed := Edges([t] + rest, up);
    var r: (Id, Id) -> bool := (p: Id, m: Id) => Reached(parsed, c, es, p, m);
    forall p: Id, m: Id | es.hasSym(p) && es.nests(p, m) ensures r(p, m) {
      OutcomeImplied(c.dep(m), c.prompt(p), c.sym(p));
      OneLink(parsed, c, es, p, m);
    }
    forall p: Id, q: Id, m: Id | r(p, q) && r(q, m) && !es.hasText(q) ensures r(p, m) {
      JoinWays(parsed, c, es, p, q, m);
    }
    forall e | e in parsed ensures r(e.0, e.1) {
      OneLink(parsed, c, es, e.0, e.1);
    }
    FinalizeUnder(r, t, rest, up, es);
  }

  /** A link from an entry with a text explains itself: the parser put m below p, or m's condition is
      met only while the symbol of p is on or its prompt is shown. */
  lemma DirectPlace(parsed: set<(Id, Id)>, c: Conditions, es: Entries, p: Id, m: Id)
    requires Recorded(es, c) && es.hasText(p) && Link(parsed, c, p, m)
    ensures (p, m) in parsed || Implied(c.dep(m), c.prompt(p), c.sym(p))
  {
    hide Implied, NestsOutcome;
  }

  // ----- a hop over an entry without a prompt -----

  const P := Named(0, Boolean)
  const Q := Named(1, Boolean)
  const R := Named(2, Boolean)

  /** Entry 0 has symbol P and a prompt if R, entry 1 has symbol Q, no prompt, and depends on P,
      entry 2 depends on !Q. */
  ghost function ThreeConditions(): Conditions {
    Conditions(m => if m == 1 then Some(Sym(P)) else if m == 2 then Some(Not(Sym(Q))) else None,
               m => if m == 0 then Prompt(Some(Sym(R))) else NoPrompt,
               m => if m == 0 then P else if m == 1 then Q else R)
  }

  ghost function ThreeEntries(): Entries {
    Entries(m => true, m => m == 0, (p, m) => (p == 0 && m == 1) || (p == 1 && m == 2))
  }

  lemma SimplifiedLeaf(e: Expr)
    requires e.Sym? || (e.Not? && e.arg.Sym?)
    requires forall env: Env {:trigger Sensible(env)} :: Sensible(env) && Comparable(e, env) ==> Value(e, env) != M
    ensures NormalForm(Some(e), e)
  {
  }

  lemma SimplifiedYes()
    ensures NormalForm(None, YES)
  {
  }

  lemma ThreeRecorded()
    ensures Recorded(ThreeEntries(), ThreeConditions())
  {
    hide NormalForm, EliminateEq;
    SimplifiedLeaf(Sym(P));
    SimplifiedLeaf(Sym(R));
    SimplifiedLeaf(Not(Sym(Q)));
    SimplifiedYes();
    var es, c := ThreeEntries(), ThreeConditions();
    forall p: Id, m: Id
      ensures NestsOutcome(c.dep(m), c.prompt(p), c.sym(p), es.nests(p, m))
    {
      var d := if m == 1 then Sym(P) else if m == 2 then Not(Sym(Q)) else YES;
      var base := if p == 0 then Sym(R) else YES;
      NothingBelowYes(d);
      assert NormalForm(c.dep(m), d) && NormalForm(Base(c.prompt(p)), base);
      assert es.nests(p, m) == Test(c.dep(m), c.sym(p), d, base);
    }
  }

  /** Entry 2 ends up below entry 0, whose test it did not pass and whose symbol it does not even
      mention: entry 1 took it over, without a prompt of its own to account for that, and then
      handed it on.  It is there with P, Q and R all off. */
  lemma UnpromptedHop()
    ensures var es, c := ThreeEntries(), ThreeConditions();
      && Recorded(es, c)
      && Finalize(Tree.Node(0, []), [Tree.Node(1, []), Tree.Node(2, [])], es)
         == (Tree.Node(0, [Tree.Node(1, []), Tree.Node(2, [])]), [])
      && !es.nests(0, 2) && !Mentions(c.dep(2), c.sym(0)) && !Implied(c.dep(2), c.prompt(0), c.sym(0))
  {
    hide Finalize, Recorded, Implied;
    ThreeRecorded();
    ThreeFinalized();
    NotImplied();
  }

  lemma NotImplied()
    ensures !Implied(Some(Not(Sym(Q))), Prompt(Some(Sym(R))), P)
  {
    var env := Assignment(i => N, i => false);
    AssignmentIsSensible(i => N, i => false);
    assert env.tri(P) == N && env.tri(Q) == N && env.tri(R) == N;
    assert env.str(Q) == TriName(N) && env.str(R) == TriName(N) && env.str(P) == TriName(N);
    assert Condition(Some(Not(Sym(Q))), env) == Y;
  }

  lemma ThreeFinalized()
    ensures Finalize(Tree.Node(0, []), [Tree.Node(1, []), Tree.Node(2, [])], ThreeEntries())
         == (Tree.Node(0, [Tree.Node(1, []), Tree.Node(2, [])]), [])
  {
    var es := ThreeEntries();
    var n0, n1, n2 := Tree.Node(0, []), Tree.Node(1, []), Tree.Node(2, []);
    assert [n1, n2][1..] == [n2] && [n2][1..] == [];
    assert [n2] + [] == [n2] && [Tree.Node(1, [n2])] + [] == [Tree.Node(1, [n2])];
    assert es.nests(0, 1) && es.nests(1, 2) && !es.nests(0, 2);
    assert Steal(2, [], es) == ([], []);
    assert Hoist([], es) == [];
    assert Finalize(n2, [], es) == (n2, []);
    assert Steal(1, [], es) == ([], []);
    assert Steal(1, [n2], es) == ([n2], []);
    assert Hoist([n2], es) == [n2];
    assert Finalize(n1, [n2], es) == (Tree.Node(1, [n2]), []);
    assert Steal(0, [], es) == ([], []);
    assert Steal(0, [n1, n2], es) == ([Tree.Node(1, [n2])], []);
    assert Hoist([Tree.Node(1, [n2])], es) == [n1] + Hoist([n2], es) == [n1, n2];
  }
}
