/** Applying overlays keeps phandles unique and bounded (src/base/device_tree.c:1408-1544). */
module DtUnique {
  import opened Common
  import opened FdtFormat
  import opened FdtRead
  import opened DtPhandles
  import opened DtFixups
  import opened DtReferences
  import opened DtCopy
  import opened DtPlaces
  import opened DtTreePhandles
  import opened DtOverlay
  import opened DtImport
  import opened DtNewNodes

  ghost predicate Distinct(m: multiset<nat>) {
    forall x: nat :: m[x] <= 1
  }

  /** What dt_apply_overlay relies on and keeps. */
  ghost predicate TreeGood(t: DeviceTree) {
    Distinct(Phandles(t.root)) && Bounded(Phandles(t.root), t.maxPhandle)
  }

  // ----- the symbols of an overlay -----

  /** The symbols are imported as a fragment too if they have an __overlay__ child, and once more
      as symbols: these phandles are then in the tree twice. */
  function SymbolsPhandles(overlay: Node): multiset<nat> {
    match Child(overlay.children, SYMBOLS)
    case None => multiset{}
    case Some(s) => Contribution(s)
  }

  /** The symbols node is a directory of strings, not a fragment. */
  predicate SymbolsPlain(overlay: Node) {
    SymbolsPhandles(overlay) == multiset{}
  }

  // ----- the overlay as it is imported -----

  lemma {:induction false} ShapesAt(a: seq<Node>, b: seq<Node>)
    requires SameShapes(a, b)
    ensures |a| == |b| && forall i :: 0 <= i < |a| ==> SameShape(a[i], b[i])
    decreases a
  {
    hide SameShape;
    if a != [] {
      ShapesAt(a[1..], b[1..]);
      forall i | 0 <= i < |a| ensures SameShape(a[i], b[i]) {
        if i > 0 {
          assert a[i] == a[1..][i - 1] && b[i] == b[1..][i - 1];
        }
      }
    }
  }

  lemma ShapeChild(a: Node, b: Node, name: Bytes)
    requires SameShape(a, b)
    ensures var c, d := Child(a.children, name), Child(b.children, name);
      c.Some? == d.Some? && (c.Some? ==> SameShape(c.value, d.value))
  {
    ShapesAt(a.children, b.children);
    SameChildIndex(a.children, b.children, name);
  }

  lemma ShiftChild(n: Node, base: nat, name: Bytes)
    ensures var c, d := Child(n.children, name), Child(Shift(n, base).children, name);
      c.Some? == d.Some? && (c.Some? ==> d.value == Shift(c.value, base))
  {
    ShiftedNodes(n.children, base);
    SameChildIndex(n.children, ShiftAll(n.children, base), name);
  }

  lemma ShapePlain(a: Node, b: Node)
    requires SameShape(a, b) && SymbolsPlain(a)
    ensures SymbolsPlain(b)
  {
    hide Phandles, SameShape;
    ShapeChild(a, b, SYMBOLS);
    var s := Child(a.children, SYMBOLS);
    if s.Some? {
      var s' := Child(b.children, SYMBOLS).value;
      ShapeChild(s.value, s', OVERLAY);
      if Child(s.value.children, OVERLAY).Some? {
        ShapePhandles(Child(s.value.children, OVERLAY).value, Child(s'.children, OVERLAY).value);
      }
    }
  }

  lemma ShiftPlain(n: Node, base: nat)
    requires SymbolsPlain(n)
    ensures SymbolsPlain(Shift(n, base))
  {
    hide Phandles, Shift;
    ShiftChild(n, base, SYMBOLS);
    var s := Child(n.children, SYMBOLS);
    if s.Some? {
      ShiftChild(s.value, base, OVERLAY);
      var o := Child(s.value.children, OVERLAY);
      if o.Some? {
        forall x: nat ensures Phandles(Shift(o.value, base))[x] == 0 {
          ShiftPhandles(o.value, base, x);
        }
      }
    }
  }

  /** What dt_apply_overlay needs of an overlay: distinct phandles that stay in range. */
  ghost predicate OverlayFits(t: DeviceTree, overlay: Node) {
    PhandleOk(overlay) && NodeFits(overlay, t.maxPhandle) && Distinct(Phandles(overlay))
  }

  /** Up to its properties the prepared overlay is the relocated one. */
  lemma PreparedShape(t: DeviceTree, overlay: Node, w: World)
    requires OverlayFits(t, overlay) && DataOnly(w) && Prepare(t, overlay, w).Some?
    ensures SameShape(Shift(overlay, t.maxPhandle), Prepare(t, overlay, w).value.0)
    ensures Prepare(t, overlay, w).value.1 == MaxInNode(Shift(overlay, t.maxPhandle), Max(t.maxPhandle, 1))
  {
    hide PhandleOk, NodeFits, Phandles, Shift, FixupLocals, SameShape, AdjustAll, Distinct, MaxInNode, NeedsWorld,
         Child;
    var base := t.maxPhandle;
    var moved := Shift(overlay, base);
    AdjustAllShifts(overlay, base);
    var fixed := Relocate(base, overlay).value.0;
    var fix := Child(moved.children, LOCAL_FIXUPS);
    if fix.Some? {
      FixupShape(moved, fix.value, base);
    } else {
      ShapeReflexive(moved);
    }
    var ready := Prepare(t, overlay, w).value.0;
    if NeedsWorld(fixed) {
      ShapeTransitive(moved, fixed, ready);
    }
  }

  /** Its phandles are above those of the tree, distinct, and bounded by the new maximum. */
  lemma PreparedPhandles(t: DeviceTree, overlay: Node, w: World, x: nat)
    requires OverlayFits(t, overlay) && DataOnly(w) && Prepare(t, overlay, w).Some?
    ensures var (ready, newMax) := Prepare(t, overlay, w).value;
      && t.maxPhandle <= newMax && Phandles(ready)[x] <= 1
      && (Phandles(ready)[x] > 0 ==> t.maxPhandle < x <= newMax)
  {
    hide PhandleOk, NodeFits, Phandles, Shift, SameShape, MaxInNode, Prepare, DataOnly;
    var base := t.maxPhandle;
    var moved := Shift(overlay, base);
    PreparedShape(t, overlay, w);
    ShapePhandles(moved, Prepare(t, overlay, w).value.0);
    ShiftPhandleOk(overlay, base);
    MaxBounds(moved, Max(base, 1));
    ShiftPhandles(overlay, base, x);
  }

  // ----- one overlay -----

  /** No node is new both when its fragment is imported and when the symbols are. */
  ghost predicate NoneTwice(root: Node, ready: Node, w: World)
    requires ImportAll(root, ready.children, w).Some?
  {
    forall x: nat :: Imported(root, ready.children, w)[x] == 0
                     || SymbolsNew(root, ImportAll(root, ready.children, w).value, ready)[x] == 0
  }

  lemma SymbolsNewBound(before: Node, root: Node, overlay: Node)
    ensures var s := Child(overlay.children, SYMBOLS);
      && SymbolsNew(before, root, overlay) <= PhandlesAll(overlay.children)
      && SymbolsNew(before, root, overlay) <= if s.Some? then Phandles(s.value) else multiset{}
  {
    hide Phandles, NewPhandles;
    var i := ChildIndex(overlay.children, SYMBOLS);
    if i.Some? {
      ChildPhandles(overlay.children, i.value);
      var mine := Child(root.children, SYMBOLS);
      if mine.Some? {
        NewBound(mine.value, overlay.children[i.value], false);
      }
    }
  }

  /** The bound is always right; the phandles stay unique if and only if none is brought twice. */
  lemma GoodIff(t: DeviceTree, overlay: Node, w: World)
    requires TreeGood(t) && OverlayFits(t, overlay) && DataOnly(w) && ApplyOverlay(t, overlay, w).Some?
    ensures TreeGood(ApplyOverlay(t, overlay, w).value) <==> NoneTwice(t.root, Prepare(t, overlay, w).value.0, w)
    ensures var r := ApplyOverlay(t, overlay, w).value;
      r.maxPhandle >= t.maxPhandle && Bounded(Phandles(r.root), r.maxPhandle)
  {
    hide Prepare, ImportAll, ImportSymbols, OverlayFits, DataOnly, Phandles, PhandlesAll, Imported, SymbolsNew;
    var (ready, newMax) := Prepare(t, overlay, w).value;
    var r := ApplyOverlay(t, overlay, w).value;
    var root := ImportAll(t.root, ready.children, w).value;
    ApplyExact(t, overlay, w);
    ImportedBound(t.root, ready.children, w);
    SymbolsNewBound(t.root, root, ready);
    KidsPhandles(ready);
    PreparedPhandles(t, overlay, w, 0);
    forall x: nat
      ensures Phandles(r.root)[x] <= 1
         <==> Imported(t.root, ready.children, w)[x] == 0 || SymbolsNew(t.root, root, ready)[x] == 0
      ensures Phandles(r.root)[x] > 0 ==> 0 < x <= newMax
    {
      PreparedPhandles(t, overlay, w, x);
    }
  }

  /** A phandle that a child of the overlay has is imported with that child or not at all. */
  lemma OneFragment(t: DeviceTree, overlay: Node, w: World, i: nat, x: nat)
    requires OverlayFits(t, overlay) && DataOnly(w) && ApplyOverlay(t, overlay, w).Some?
    requires var fs := Prepare(t, overlay, w).value.0.children; i < |fs| && Phandles(fs[i])[x] > 0
    ensures var fs := Prepare(t, overlay, w).value.0.children;
      && Phandles(fs[i])[x] == 1
      && ImportAll(t.root, fs[..i], w).Some? && ImportFragment(ImportAll(t.root, fs[..i], w).value, fs[i], w).Some?
      && Imported(t.root, fs, w)[x] == FragmentNew(ImportAll(t.root, fs[..i], w).value, fs[i], w)[x]
  {
    hide Prepare, ImportAll, ImportSymbols, OverlayFits, DataOnly, Phandles, PhandlesAll, Imported, FragmentNew,
         ImportFragment;
    var ready := Prepare(t, overlay, w).value.0;
    PreparedPhandles(t, overlay, w, x);
    KidsPhandles(ready);
    ChildPhandles(ready.children, i);
    ImportedAt(t.root, ready.children, w, i, x);
  }

  /** After a successful overlay the bound is right and no phandle occurs twice. */
  lemma OverlayKeepsPhandles(t: DeviceTree, overlay: Node, w: World)
    requires TreeGood(t) && OverlayFits(t, overlay) && SymbolsPlain(overlay) && DataOnly(w)
    requires ApplyOverlay(t, overlay, w).Some?
    ensures TreeGood(ApplyOverlay(t, overlay, w).value)
    ensures ApplyOverlay(t, overlay, w).value.maxPhandle >= t.maxPhandle
  {
    hide Prepare, ImportAll, ImportSymbols, OverlayFits, DataOnly, Phandles, PhandlesAll, TreeGood, Shift, SameShape,
         Imported, SymbolsNew, FragmentNew, Contribution, ImportFragment;
    var ready := Prepare(t, overlay, w).value.0;
    var root := ImportAll(t.root, ready.children, w).value;
    PreparedShape(t, overlay, w);
    ShiftPlain(overlay, t.maxPhandle);
    ShapePlain(Shift(overlay, t.maxPhandle), ready);
    SymbolsNewBound(t.root, root, ready);
    forall x: nat ensures Imported(t.root, ready.children, w)[x] == 0 || SymbolsNew(t.root, root, ready)[x] == 0 {
      if SymbolsNew(t.root, root, ready)[x] > 0 {
        var i := ChildIndex(ready.children, SYMBOLS).value;
        OneFragment(t, overlay, w, i, x);
        FragmentNewBound(ImportAll(t.root, ready.children[..i], w).value, ready.children[i], w);
      }
    }
    GoodIff(t, overlay, w);
  }

  /** Every phandle of a tree is at some path. */
  lemma {:induction false} PhandlePath(n: Node, x: nat) returns (path: seq<Bytes>)
    requires UniqueNames(n) && Phandles(n)[x] > 0
    ensures PhandleAt(n, path) == Some(x)
    decreases n, 1
  {
    if n.phandle == x {
      path := [];
    } else {
      var i, rest := PhandlePathAmong(n.children, x);
      OwnIndex(n.children, i);
      path := [n.children[i].name] + rest;
      assert path[1..] == rest;
    }
  }

  lemma {:induction false} PhandlePathAmong(ns: seq<Node>, x: nat) returns (i: nat, path: seq<Bytes>)
    requires UniqueChildren(ns) && PhandlesAll(ns)[x] > 0
    ensures i < |ns| && PhandleAt(ns[i], path) == Some(x)
    decreases ns, 0
  {
    hide Phandles, PhandleAt, UniqueNames;
    if Phandles(ns[0])[x] > 0 {
      i := 0;
      path := PhandlePath(ns[0], x);
    } else {
      i, path := PhandlePathAmong(ns[1..], x);
      i := i + 1;
    }
  }

  /** A node at this path below the __overlay__ of the symbols is not brought twice: the target of
      that fragment had a node there, or the symbols of the tree had one. */
  predicate NotTwice(before: Node, target: Node, root: Node, path: seq<Bytes>) {
    || Find(target, path).Some?
    || (Child(before.children, SYMBOLS).Some? && Find(root, [SYMBOLS, OVERLAY] + path).Some?)
  }

  /** Exactly when an overlay whose symbols are a fragment too keeps the phandles unique: every node
      with a phandle below their __overlay__ meets an existing node, at the target when the
      fragment is imported, or in the tree's own symbols at the end. */
  lemma SymbolsIff(t: DeviceTree, overlay: Node, w: World)
    requires TreeGood(t) && OverlayFits(t, overlay) && DataOnly(w) && ApplyOverlay(t, overlay, w).Some?
    requires UniqueNames(overlay)
    requires var s := Child(Prepare(t, overlay, w).value.0.children, SYMBOLS);
      s.Some? && Child(s.value.children, OVERLAY).Some?
    ensures var fs := Prepare(t, overlay, w).value.0.children;
      var i := ChildIndex(fs, SYMBOLS).value;
      var o := Child(fs[i].children, OVERLAY).value;
      var r := ImportAll(t.root, fs[..i], w);
      && r.Some? && TargetOf(r.value, fs[i], w).Some? && ValidPlace(r.value, TargetOf(r.value, fs[i], w).value)
      && (TreeGood(ApplyOverlay(t, overlay, w).value) <==>
            forall path :: PhandleAt(o, path).Some? && PhandleAt(o, path).value > 0 ==>
              NotTwice(t.root, NodeAtPlace(r.value, TargetOf(r.value, fs[i], w).value),
                       ImportAll(t.root, fs, w).value, path))
  {
    hide Prepare, ImportAll, OverlayFits, DataOnly, TargetOf, ValidPlace, NodeAtPlace, Phandles, PhandleAt, NotTwice,
         UniqueNames, TreeGood, NoneTwice, ImportFragment, ImportSymbols;
    var ready := Prepare(t, overlay, w).value.0;
    var fs := ready.children;
    var i := ChildIndex(fs, SYMBOLS).value;
    var o := Child(fs[i].children, OVERLAY).value;
    PreparedUnique(t, overlay, w);
    SymbolsImport(t, overlay, w, i);
    GoodIff(t, overlay, w);
    var r := ImportAll(t.root, fs[..i], w).value;
    var target := NodeAtPlace(r, TargetOf(r, fs[i], w).value);
    var root := ImportAll(t.root, fs, w).value;
    if NoneTwice(t.root, ready, w) {
      forall path | PhandleAt(o, path).Some? && PhandleAt(o, path).value > 0
        ensures NotTwice(t.root, target, root, path)
      {
        var x := PhandleAt(o, path).value;
        NodeTwiceIff(t, overlay, w, i, path, x);
        NoneTwiceAt(t.root, ready, w, x);
      }
    } else {
      var path, x := TwicePath(t, overlay, w, i);
      NodeTwiceIff(t, overlay, w, i, path, x);
    }
  }

  lemma NoneTwiceAt(root: Node, ready: Node, w: World, x: nat)
    requires ImportAll(root, ready.children, w).Some? && NoneTwice(root, ready, w)
    ensures Imported(root, ready.children, w)[x] == 0
            || SymbolsNew(root, ImportAll(root, ready.children, w).value, ready)[x] == 0
  {
  }

  /** The symbols' fragment has been imported, so it has a target. */
  lemma SymbolsImport(t: DeviceTree, overlay: Node, w: World, i: nat)
    requires ApplyOverlay(t, overlay, w).Some?
    requires var fs := Prepare(t, overlay, w).value.0.children; i < |fs| && Child(fs[i].children, OVERLAY).Some?
    ensures var fs := Prepare(t, overlay, w).value.0.children;
      var r := ImportAll(t.root, fs[..i], w);
      r.Some? && TargetOf(r.value, fs[i], w).Some? && ValidPlace(r.value, TargetOf(r.value, fs[i], w).value)
  {
    hide Prepare, ImportSymbols, TargetOf, ValidPlace, CopyAt;
    var fs := Prepare(t, overlay, w).value.0.children;
    FrontImports(t.root, fs, w, i);
    TargetValid(ImportAll(t.root, fs[..i], w).value, fs[i], w);
  }

  lemma {:induction false} FrontImports(root: Node, fs: seq<Node>, w: World, i: nat)
    requires ImportAll(root, fs, w).Some? && i < |fs|
    ensures ImportAll(root, fs[..i], w).Some? && ImportFragment(ImportAll(root, fs[..i], w).value, fs[i], w).Some?
    decreases fs
  {
    hide ImportFragment;
    if i == 0 {
      assert fs[..0] == [];
    } else {
      FrontImports(ImportFragment(root, fs[0], w).value, fs[1..], w, i - 1);
      assert fs[..i][1..] == fs[1..][..i - 1];
    }
  }

  /** The node at one path: brought twice or not. */
  lemma NodeTwiceIff(t: DeviceTree, overlay: Node, w: World, i: nat, path: seq<Bytes>, x: nat)
    requires OverlayFits(t, overlay) && DataOnly(w) && ApplyOverlay(t, overlay, w).Some? && x > 0
    requires i < |Prepare(t, overlay, w).value.0.children|
    requires var ready := Prepare(t, overlay, w).value.0;
      var r := ImportAll(t.root, ready.children[..i], w);
      && UniqueNames(ready) && ChildIndex(ready.children, SYMBOLS) == Some(i)
      && Child(ready.children[i].children, OVERLAY).Some?
      && PhandleAt(Child(ready.children[i].children, OVERLAY).value, path) == Some(x)
      && r.Some? && TargetOf(r.value, ready.children[i], w).Some?
      && ValidPlace(r.value, TargetOf(r.value, ready.children[i], w).value)
    ensures var ready := Prepare(t, overlay, w).value.0;
      var r := ImportAll(t.root, ready.children[..i], w).value;
      var root := ImportAll(t.root, ready.children, w).value;
      (Imported(t.root, ready.children, w)[x] == 0 || SymbolsNew(t.root, root, ready)[x] == 0)
      <==> NotTwice(t.root, NodeAtPlace(r, TargetOf(r, ready.children[i], w).value), root, path)
  {
    hide Prepare, ImportAll, OverlayFits, DataOnly, TargetOf, ValidPlace, NodeAtPlace, Phandles, UniqueNames,
         ImportFragment, Imported, SymbolsNew, FragmentNew, Find, PhandleAt;
    var ready := Prepare(t, overlay, w).value.0;
    var fs := ready.children;
    var s := fs[i];
    var o := Child(s.children, OVERLAY).value;
    PhandleCounts(o, path);
    ContributionBound(s);
    OneFragment(t, overlay, w, i, x);
    UniqueParts(ready);
    UniqueChild(fs, i);
    FragmentNewAt(ImportAll(t.root, fs[..i], w).value, s, w, path, x);
    PhandleBelow(s, OVERLAY, path);
    SymbolsNewAt(t.root, ImportAll(t.root, fs, w).value, ready, [OVERLAY] + path, x);
    assert [SYMBOLS] + ([OVERLAY] + path) == [SYMBOLS, OVERLAY] + path;
  }

  lemma PhandleBelow(n: Node, name: Bytes, path: seq<Bytes>)
    requires Child(n.children, name).Some?
    ensures PhandleAt(n, [name] + path) == PhandleAt(Child(n.children, name).value, path)
  {
    FindChild(n, [name] + path);
    assert ([name] + path)[1..] == path;
  }

  /** If some node is brought twice it is below the symbols' __overlay__. */
  lemma TwicePath(t: DeviceTree, overlay: Node, w: World, i: nat) returns (path: seq<Bytes>, x: nat)
    requires OverlayFits(t, overlay) && DataOnly(w) && ApplyOverlay(t, overlay, w).Some?
    requires var ready := Prepare(t, overlay, w).value.0;
      && UniqueNames(ready) && ChildIndex(ready.children, SYMBOLS) == Some(i)
      && Child(ready.children[i].children, OVERLAY).Some? && !NoneTwice(t.root, ready, w)
    ensures var ready := Prepare(t, overlay, w).value.0;
      && x > 0 && PhandleAt(Child(ready.children[i].children, OVERLAY).value, path) == Some(x)
      && Imported(t.root, ready.children, w)[x] > 0
      && SymbolsNew(t.root, ImportAll(t.root, ready.children, w).value, ready)[x] > 0
  {
    hide Prepare, ImportAll, OverlayFits, DataOnly, Phandles, UniqueNames, ImportFragment, Imported, SymbolsNew,
         FragmentNew, PhandleAt;
    var ready := Prepare(t, overlay, w).value.0;
    var fs := ready.children;
    var root := ImportAll(t.root, fs, w).value;
    x :| Imported(t.root, fs, w)[x] > 0 && SymbolsNew(t.root, root, ready)[x] > 0;
    SymbolsNewBound(t.root, root, ready);
    OneFragment(t, overlay, w, i, x);
    FragmentNewBound(ImportAll(t.root, fs[..i], w).value, fs[i], w);
    PreparedPhandles(t, overlay, w, x);
    KidsPhandles(ready);
    ChildPhandles(fs, i);
    UniqueParts(ready);
    UniqueChild(fs, i);
    UniqueParts(fs[i]);
    UniqueChild(fs[i].children, ChildIndex(fs[i].children, OVERLAY).value);
    path := PhandlePath(Child(fs[i].children, OVERLAY).value, x);
  }

  // ----- the symbols as a fragment -----

  function PhandleNode(name: Bytes, phandle: nat): Node {
    Node(name, phandle, [Property(PHANDLE, Encode32(phandle))], [])
  }

  function SymbolsFragment(target: nat, child: Node): Node {
    Node(SYMBOLS, 0, [Property(TARGET, Encode32(target))], [Node(OVERLAY, 0, [], [child])])
  }

  lemma OneProperty(p: Property, base: nat, m: nat)
    ensures PhandlesFit([p], base) == PropertyFits(p, base) && ShiftProperties([p], base) == [ShiftProperty(p, base)]
    ensures LastPhandle([p], 0) == (if IsPhandle(p) then PhandleIn(p) else 0)
    ensures MaxInProperties([p], m) == if IsPhandle(p) then Max(m, PhandleIn(p)) else m
  {
    hide PropertyFits, ShiftProperty, IsPhandle, PhandleIn;
    NoProperties(base, 0, m);
    assert [p][1..] == [];
  }

  lemma NoProperties(base: nat, phandle: nat, m: nat)
    ensures PhandlesFit([], base) && ShiftProperties([], base) == []
    ensures LastPhandle([], phandle) == phandle && MaxInProperties([], m) == m
  {
  }

  lemma OneChild(c: Node, base: nat, m: nat)
    ensures PhandlesOk([c]) == PhandleOk(c) && ChildrenFit([c], base) == NodeFits(c, base)
    ensures PhandlesAll([c]) == Phandles(c) && ShiftAll([c], base) == [Shift(c, base)]
    ensures MaxInChildren([c], m) == MaxInNode(c, m)
  {
    hide PhandleOk, NodeFits, Phandles, Shift, MaxInNode;
    NoChildren(base, MaxInNode(c, m));
    assert [c][1..] == [];
  }

  lemma NoChildren(base: nat, m: nat)
    ensures PhandlesOk([]) && ChildrenFit([], base) && PhandlesAll([]) == multiset{}
    ensures ShiftAll([], base) == [] && MaxInChildren([], m) == m
  {
  }

  lemma PhandleNodeIs(name: Bytes, phandle: nat, base: nat, m: nat)
    requires 0 < phandle && phandle + base < PHANDLE_ILLEGAL
    ensures var n := PhandleNode(name, phandle);
      && PhandleOk(n) && NodeFits(n, base) && Phandles(n) == multiset{phandle}
      && Shift(n, base) == PhandleNode(name, phandle + base) && MaxInNode(n, m) == Max(m, phandle)
  {
    hide BigEndian, Encode, LastPhandle, PhandlesFit, ShiftProperties, MaxInProperties, PhandlesOk, ChildrenFit,
         PhandlesAll, ShiftAll, MaxInChildren;
    var d := Encode32(phandle);
    WordSizes();
    EncodeRoundTrip(phandle, 4);
    assert d[0..4] == d;
    assert Put32(d, 0, phandle + base) == Encode32(phandle + base);
    OneProperty(Property(PHANDLE, d), base, m);
    NoChildren(base, Max(m, phandle));
  }

  /** A node with one child and no phandle of its own. */
  lemma WrapIs(name: Bytes, ps: seq<Property>, c: Node, base: nat, m: nat)
    requires PhandleOk(c) && NodeFits(c, base)
    requires ps == [] || (|ps| == 1 && !IsPhandle(ps[0]))
    ensures var n := Node(name, 0, ps, [c]);
      && PhandleOk(n) && NodeFits(n, base) && Phandles(n) == Phandles(c)
      && Shift(n, base) == Node(name, 0, ps, [Shift(c, base)]) && MaxInNode(n, m) == MaxInNode(c, m)
  {
    var n := Node(name, 0, ps, [c]);
    OneChild(c, base, m);
    if ps == [] {
      NoProperties(base, 0, m);
    } else {
      assert ps == [ps[0]];
      OneProperty(ps[0], base, m);
    }
    WrapParts(n, base, m);
  }

  lemma WrapParts(n: Node, base: nat, m: nat)
    requires n.phandle == LastPhandle(n.properties, 0) == 0 && PhandlesFit(n.properties, base)
    requires ShiftProperties(n.properties, base) == n.properties && MaxInProperties(n.properties, m) == m
    ensures PhandleOk(n) == PhandlesOk(n.children) && NodeFits(n, base) == ChildrenFit(n.children, base)
    ensures Phandles(n) == PhandlesAll(n.children) && MaxInNode(n, m) == MaxInChildren(n.children, m)
    ensures Shift(n, base) == n.(children := ShiftAll(n.children, base))
  {
    hide PhandlesOk, ChildrenFit, PhandlesAll, ShiftAll, MaxInChildren, LastPhandle, PhandlesFit, ShiftProperties,
         MaxInProperties;
  }

  lemma FragmentIs(phandle: nat, base: nat, m: nat)
    requires 0 < phandle && phandle + base < PHANDLE_ILLEGAL
    ensures var n := Node([], 0, [], [SymbolsFragment(1, PhandleNode([99], phandle))]);
      && PhandleOk(n) && NodeFits(n, base) && Phandles(n) == multiset{phandle}
      && Shift(n, base) == Node([], 0, [], [SymbolsFragment(1, PhandleNode([99], phandle + base))])
      && MaxInNode(n, m) == MaxInNode(PhandleNode([99], phandle), m)
  {
    hide PhandleNode, PhandleOk, NodeFits, Phandles, Shift, MaxInNode, Encode32;
    var c := PhandleNode([99], phandle);
    PhandleNodeIs([99], phandle, base, m);
    WrapIs(OVERLAY, [], c, base, m);
    var o := Node(OVERLAY, 0, [], [c]);
    var ps := [Property(TARGET, Encode32(1))];
    assert TARGET[0] != PHANDLE[0] && TARGET[0] != LINUX_PHANDLE[0];
    WrapIs(SYMBOLS, ps, o, base, m);
    WrapIs([], [], Node(SYMBOLS, 0, ps, [o]), base, m);
  }

  /** It is merged into a root with the phandle that it names. */
  lemma FragmentImported(root: Node, c: Node, w: World)
    requires root.phandle == 1 && root.children == []
    ensures ImportFragment(root, SymbolsFragment(1, c), w) == Some(root.(children := [c]))
  {
    hide BigEndian, Encode;
    var f := SymbolsFragment(1, c);
    var o := Node(OVERLAY, 0, [], [c]);
    WordSizes();
    EncodeRoundTrip(1, 4);
    assert Encode32(1)[0..4] == Encode32(1);
    assert Child(f.children, OVERLAY) == Some(o);
    assert TargetOf(root, f, w) == Some([]);
    assert [c][1..] == [];
    assert CopyChildren([c], [], true) == [c];
    assert CopyChildren([], [c], true) == [c];
    assert CopySubtree(root, o, true) == root.(children := [c]);
  }

  function SymbolsOverlay(phandle: nat): Node {
    Node([], 0, [], [SymbolsFragment(1, PhandleNode([99], phandle))])
  }

  lemma FragmentRelocated()
    ensures Relocate(1, SymbolsOverlay(1)) == Some((SymbolsOverlay(2), 2))
  {
    hide Shift, MaxInNode, PhandleOk, NodeFits, PhandleNode, FixupLocals, AdjustAll, Phandles, Encode32, Child;
    FragmentIs(1, 1, 1);
    FragmentIs(2, 0, 1);
    PhandleNodeIs([99], 2, 0, 1);
    AdjustAllShifts(SymbolsOverlay(1), 1);
    assert SYMBOLS[2] != LOCAL_FIXUPS[2];
    OtherName(SymbolsOverlay(2).children[0], LOCAL_FIXUPS);
  }

  lemma FragmentPrepared(t: DeviceTree, w: World)
    requires t.maxPhandle == 1
    ensures Prepare(t, SymbolsOverlay(1), w) == Some((SymbolsOverlay(2), 2))
  {
    hide Relocate, PhandleNode, Encode32, Child;
    FragmentRelocated();
    var s := SymbolsOverlay(2).children[0];
    assert SYMBOLS[2] != FIXUPS[2];
    OtherName(s, FIXUPS);
    assert TARGET != TARGET_PATH;
    assert LastData(s.properties[..0], TARGET_PATH).None?;
    assert !NeedsWorld(SymbolsOverlay(2));
  }

  lemma OtherName(c: Node, name: Bytes)
    requires c.name != name
    ensures Child([c], name).None?
  {
  }

  lemma FragmentApplied(t: DeviceTree, w: World)
    requires t.maxPhandle == 1 && t.root.phandle == 1 && t.root.children == []
    ensures var d := PhandleNode([99], 2);
      ApplyOverlay(t, SymbolsOverlay(1), w)
      == Some(t.(root := t.root.(children := [SymbolsFragment(1, d), d]), maxPhandle := 2))
  {
    hide Prepare, ImportFragment, Encode32;
    var d := PhandleNode([99], 2);
    var s := SymbolsFragment(1, d);
    FragmentPrepared(t, w);
    FragmentImported(t.root, d, w);
    assert [s][1..] == [];
    assert ImportAll(t.root, [s], w) == Some(t.root.(children := [d]));
    OtherName(d, SYMBOLS);
    assert [s] + [d] == [s, d];
  }

  lemma FragmentContribution(c: Node)
    ensures Contribution(SymbolsFragment(1, c)) == Phandles(c)
  {
    hide Phandles, Encode32;
    var o := Node(OVERLAY, 0, [], [c]);
    OneChild(c, 0, 0);
    assert Child([o], OVERLAY) == Some(o);
    OneNode(o);
  }

  lemma OneNode(n: Node)
    ensures Phandles(n) == One(n.phandle) + PhandlesAll(n.children)
  {
  }

  lemma TwiceIn(n: Node, s: Node, d: Node)
    requires n.children == [s, d] && Contribution(s) == Phandles(d) == multiset{2}
    ensures Phandles(n)[2] > 1
  {
    hide Phandles, Contribution;
    ContributionBound(s);
    OneChild(d, 0, 0);
    OneNode(n);
    assert [s, d][1..] == [d];
    assert Phandles(s)[2] >= Contribution(s)[2];
  }

  /** The tree is one node with phandle 1, the overlay's symbols have an __overlay__ for it with a
      node of phandle 1.  That node is in the result twice, with phandle 2. */
  lemma SymbolsTwice(w: World)
    ensures var t := DeviceTree([], 1, [], PhandleNode([], 1));
      var overlay := SymbolsOverlay(1);
      var r := ApplyOverlay(t, overlay, w);
      && TreeGood(t) && OverlayFits(t, overlay) && !SymbolsPlain(overlay)
      && r.Some? && r.value.maxPhandle == 2
      && r.value.root.children == [SymbolsFragment(1, PhandleNode([99], 2)), PhandleNode([99], 2)]
      && !TreeGood(r.value)
  {
    hide Shift, MaxInNode, PhandleOk, NodeFits, ApplyOverlay, Phandles, Encode32, Contribution;
    var t := DeviceTree([], 1, [], PhandleNode([], 1));
    var d := PhandleNode([99], 2);
    PhandleNodeIs([], 1, 0, 0);
    FragmentIs(1, 1, 1);
    PhandleNodeIs([99], 1, 1, 0);
    FragmentContribution(PhandleNode([99], 1));
    FragmentApplied(t, w);
    PhandleNodeIs([99], 2, 0, 0);
    FragmentContribution(d);
    TwiceIn(ApplyOverlay(t, SymbolsOverlay(1), w).value.root, SymbolsFragment(1, d), d);
  }

  // ----- any run -----

  /** An overlay, and what the rest of the world makes of it. */
  datatype Step = Step(blob: Bytes, w: World)

  ghost predicate StepFits(t: DeviceTree, s: Step) {
    match Unflatten(s.blob)
    case ATree(o) =>
      NodeFits(o.root, t.maxPhandle) && Distinct(Phandles(o.root)) && SymbolsPlain(o.root) && DataOnly(s.w)
    case _ => false
  }

  /** Any sequence of overlays that apply, each meeting its requirements when its turn comes. */
  ghost predicate AllApply(t: DeviceTree, steps: seq<Step>)
    decreases steps
  {
    steps != [] ==>
      && StepFits(t, steps[0])
      && ApplyBlob(t, steps[0].blob, steps[0].w).Some?
      && AllApply(ApplyBlob(t, steps[0].blob, steps[0].w).value, steps[1..])
  }

  ghost function AfterAll(t: DeviceTree, steps: seq<Step>): DeviceTree
    requires AllApply(t, steps)
    decreases steps
  {
    if steps == [] then t else AfterAll(ApplyBlob(t, steps[0].blob, steps[0].w).value, steps[1..])
  }

  lemma StepKeepsPhandles(t: DeviceTree, s: Step)
    requires TreeGood(t) && StepFits(t, s) && ApplyBlob(t, s.blob, s.w).Some?
    ensures TreeGood(ApplyBlob(t, s.blob, s.w).value) && ApplyBlob(t, s.blob, s.w).value.maxPhandle >= t.maxPhandle
  {
    hide TreeGood, ApplyOverlay, Unflatten, NodeFits, PhandleOk, SymbolsPlain, DataOnly;
    var o := Unflatten(s.blob).tree;
    UnflattenPhandleOk(s.blob, t.maxPhandle);
    OverlayKeepsPhandles(t, o.root, s.w);
  }

  lemma {:induction false} OverlaysKeepPhandles(t: DeviceTree, steps: seq<Step>)
    requires TreeGood(t) && AllApply(t, steps)
    ensures TreeGood(AfterAll(t, steps)) && AfterAll(t, steps).maxPhandle >= t.maxPhandle
    decreases steps
  {
    hide StepFits, ApplyBlob, TreeGood;
    if steps != [] {
      StepKeepsPhandles(t, steps[0]);
      OverlaysKeepPhandles(ApplyBlob(t, steps[0].blob, steps[0].w).value, steps[1..]);
    }
  }

  /** From a blob whose tree has distinct phandles on, over any overlays that apply, phandles stay
      distinct and below tree->max_phandle. */
  lemma RunKeepsPhandles(b: Bytes, steps: seq<Step>)
    requires Unflatten(b).ATree? && Distinct(Phandles(Unflatten(b).tree.root)) && AllApply(Unflatten(b).tree, steps)
    ensures TreeGood(AfterAll(Unflatten(b).tree, steps))
  {
    hide Unflatten, AllApply, AfterAll, Phandles;
    UnflattenBounded(b);
    OverlaysKeepPhandles(Unflatten(b).tree, steps);
  }
}
