/** A reference inside an overlay, from the flattened form to the tree it ends up in
    (src/base/device_tree.c:1354-1544). */
module DtWholeReference {
  import opened Common
  import opened FdtFormat
  import opened DtPhandles
  import opened DtFixups
  import opened DtReferences
  import opened DtCopy
  import opened DtPlaces
  import opened DtTreePhandles
  import opened DtOverlay
  import opened DtImport
  import opened DtNewNodes
  import opened DtUnique

  // ----- phandles found and phandles counted -----

  /** dt_find_node_by_phandle succeeds exactly for the phandles of the tree. */
  lemma {:induction false} FindCounts(n: Node, x: nat)
    requires x > 0
    ensures FindByPhandle(n, x).Some? <==> Phandles(n)[x] > 0
    decreases n, 1
  {
    FindAmongCounts(n.children, x, 0);
  }

  lemma {:induction false} FindAmongCounts(ns: seq<Node>, x: nat, i: nat)
    requires x > 0
    ensures FindAmong(ns, x, i).Some? <==> PhandlesAll(ns)[x] > 0
    decreases ns, 0
  {
    hide Phandles, FindByPhandle;
    if ns != [] {
      FindCounts(ns[0], x);
      FindAmongCounts(ns[1..], x, i + 1);
    }
  }

  // ----- the node -----

  /** When the turn of fragment j comes, its target has no node at that path. */
  predicate NewWhenImported(root: Node, fs: seq<Node>, w: World, j: nat, path: seq<Bytes>)
    requires j < |fs|
  {
    var r := ImportAll(root, fs[..j], w);
    r.Some? && NewAtTarget(r.value, fs[j], w, path)
  }

  predicate NewAtTarget(root: Node, fragment: Node, w: World, path: seq<Bytes>) {
    var p := TargetOf(root, fragment, w);
    TargetValid(root, fragment, w);
    p.Some? && Find(NodeAtPlace(root, p.value), path).None?
  }

  /** After the whole overlay the phandle of a node below the __overlay__ of fragment j finds a node
      in the tree if and only if that node was new at its place when the fragment was imported. */
  lemma NodeAfterOverlay(t: DeviceTree, overlay: Node, w: World, j: nat, path: seq<Bytes>, x: nat)
    requires TreeGood(t) && OverlayFits(t, overlay) && SymbolsPlain(overlay) && UniqueNames(overlay) && DataOnly(w)
    requires ApplyOverlay(t, overlay, w).Some? && x > 0
    requires var fs := Prepare(t, overlay, w).value.0.children;
      && j < |fs| && Child(fs[j].children, OVERLAY).Some?
      && PhandleAt(Child(fs[j].children, OVERLAY).value, path) == Some(x)
    ensures FindByPhandle(ApplyOverlay(t, overlay, w).value.root, x).Some?
       <==> NewWhenImported(t.root, Prepare(t, overlay, w).value.0.children, w, j, path)
  {
    hide Prepare, ImportAll, OverlayFits, DataOnly, TargetOf, ValidPlace, NodeAtPlace, Phandles, UniqueNames,
         ImportFragment, ImportSymbols, Imported, SymbolsNew, FragmentNew, Find, PhandleAt, FindByPhandle,
         SymbolsPlain, TreeGood;
    var ready := Prepare(t, overlay, w).value.0;
    var fs := ready.children;
    var result := ApplyOverlay(t, overlay, w).value;
    PreparedUnique(t, overlay, w);
    UniqueParts(ready);
    UniqueChild(fs, j);
    SymbolsImport(t, overlay, w, j);
    PhandleCounts(Child(fs[j].children, OVERLAY).value, path);
    ContributionBound(fs[j]);
    OneFragment(t, overlay, w, j, x);
    FragmentNewAt(ImportAll(t.root, fs[..j], w).value, fs[j], w, path, x);
    ApplyExact(t, overlay, w);
    FindCounts(result.root, x);
    OnlyImported(t, overlay, w, j, x);
  }

  /** Neither the tree nor the overlay's symbols have the phandle. */
  lemma OnlyImported(t: DeviceTree, overlay: Node, w: World, j: nat, x: nat)
    requires TreeGood(t) && OverlayFits(t, overlay) && SymbolsPlain(overlay) && DataOnly(w)
    requires ApplyOverlay(t, overlay, w).Some?
    requires var fs := Prepare(t, overlay, w).value.0.children; j < |fs| && Contribution(fs[j])[x] > 0
    ensures var ready := Prepare(t, overlay, w).value.0;
      Phandles(t.root)[x] == 0 && SymbolsNew(t.root, ImportAll(t.root, ready.children, w).value, ready)[x] == 0
  {
    hide Prepare, ImportAll, OverlayFits, DataOnly, Phandles, PhandlesAll, ImportFragment, ImportSymbols, Imported,
         SymbolsNew, FragmentNew, Shift, SameShape, Contribution;
    var ready := Prepare(t, overlay, w).value.0;
    var fs := ready.children;
    PreparedPhandles(t, overlay, w, x);
    ContributionBound(fs[j]);
    ChildPhandles(fs, j);
    KidsPhandles(ready);
    SymbolsNewBound(t.root, ImportAll(t.root, fs, w).value, ready);
    PreparedShape(t, overlay, w);
    ShiftPlain(overlay, t.maxPhandle);
    ShapePlain(Shift(overlay, t.maxPhandle), ready);
    var i := ChildIndex(fs, SYMBOLS);
    if i.Some? && i.value != j {
      TwoChildren(fs, i.value, j);
      AtTwo(Phandles(fs[i.value]), Phandles(fs[j]), PhandlesAll(fs), x);
    }
  }

  lemma AtTwo(a: multiset<nat>, b: multiset<nat>, m: multiset<nat>, x: nat)
    requires a + b <= m
    ensures a[x] + b[x] <= m[x]
  {
    assert (a + b)[x] <= m[x];
  }

  // ----- the same node before and after the preparation -----

  lemma {:induction false} ShapePhandleAt(a: Node, b: Node, path: seq<Bytes>)
    requires SameShape(a, b)
    ensures PhandleAt(a, path) == PhandleAt(b, path)
    decreases path
  {
    hide SameShape, SameShapes;
    if path == [] {
      ShapeHere(a, b);
    } else {
      ShapeChild(a, b, path[0]);
      FindChild(a, path);
      FindChild(b, path);
      var c := Child(a.children, path[0]);
      if c.Some? {
        ShapePhandleAt(c.value, Child(b.children, path[0]).value, path[1..]);
      }
    }
  }

  lemma ShapeHere(a: Node, b: Node)
    requires SameShape(a, b)
    ensures PhandleAt(a, []) == PhandleAt(b, [])
  {
  }

  lemma {:induction false} ShiftPhandleAt(n: Node, base: nat, path: seq<Bytes>)
    ensures var p := PhandleAt(n, path);
      PhandleAt(Shift(n, base), path)
      == if p.None? then None else if p.value == 0 then Some(0) else Some(p.value + base)
    decreases path
  {
    hide ShiftProperties, ShiftAll, Shift;
    if path == [] {
      ShiftHere(n, base);
    } else {
      ShiftChild(n, base, path[0]);
      FindChild(n, path);
      FindChild(Shift(n, base), path);
      var c := Child(n.children, path[0]);
      if c.Some? {
        ShiftPhandleAt(c.value, base, path[1..]);
      }
    }
  }

  lemma ShiftHere(n: Node, base: nat)
    ensures PhandleAt(Shift(n, base), []) == Some(if n.phandle == 0 then 0 else n.phandle + base)
  {
    hide ShiftProperties, ShiftAll;
  }

  /** A node of the overlay as it is imported: same path, phandle moved. */
  lemma PreparedPhandleAt(t: DeviceTree, overlay: Node, w: World, path: seq<Bytes>)
    requires OverlayFits(t, overlay) && DataOnly(w) && Prepare(t, overlay, w).Some?
    requires PhandleAt(overlay, path).Some? && PhandleAt(overlay, path).value > 0
    ensures PhandleAt(Prepare(t, overlay, w).value.0, path) == Some(PhandleAt(overlay, path).value + t.maxPhandle)
  {
    hide Prepare, OverlayFits, DataOnly, Shift, SameShape, PhandleAt;
    PreparedShape(t, overlay, w);
    ShapePhandleAt(Shift(overlay, t.maxPhandle), Prepare(t, overlay, w).value.0, path);
    ShiftPhandleAt(overlay, t.maxPhandle, path);
  }

  // ----- the word that names it -----

  /** The word at an offset of a property. */
  function WordAt(n: Node, path: seq<Bytes>, name: Bytes, off: nat): Option<nat> {
    var d := Lookup(n, path, name);
    if d.None? || off + 4 > |d.value| then None else Some(U32(d.value, off))
  }

  /** The word at offset `off` of a property of the overlay is listed once in /__local_fixups__. */
  predicate Listed(fix: Node, overlay: Node, base: nat, path: seq<Bytes>, name: Bytes, off: nat) {
    var d, l := Lookup(overlay, path, name), Lookup(fix, path, name);
    && !PhandleName(name) && d.Some? && l.Some? && |l.value| % 4 == 0
    && exists k: nat :: k < |Slots(l.value)| && Slots(l.value)[k] == off && ListedOnce(d.value, Slots(l.value), base, k)
  }

  lemma WordMoves(t: DeviceTree, overlay: Node, fix: Node, path: seq<Bytes>, name: Bytes, off: nat)
    requires OverlayFits(t, overlay) && UniqueNames(fix) && Listed(fix, overlay, t.maxPhandle, path, name, off)
    requires Child(AdjustAll(overlay, t.maxPhandle).0.children, LOCAL_FIXUPS) == Some(fix)
    requires Relocate(t.maxPhandle, overlay).Some?
    ensures WordAt(overlay, path, name, off).Some?
    ensures WordAt(Relocate(t.maxPhandle, overlay).value.0, path, name, off)
         == Some(WordAt(overlay, path, name, off).value + t.maxPhandle)
  {
    hide AdjustAll, FixupLocals, UniqueNames, Lookup, NodeFits, PhandleOk, Slots, U32, FindByPhandle, Distinct,
         Phandles, ListedOnce, PhandleName, Child;
    var l := Lookup(fix, path, name).value;
    var k: nat :| k < |Slots(l)| && Slots(l)[k] == off && ListedOnce(Lookup(overlay, path, name).value, Slots(l),
                                                                     t.maxPhandle, k);
    ReferenceKept(overlay, fix, t.maxPhandle, path, name, k);
    SlotInside(Lookup(overlay, path, name).value, Slots(l), t.maxPhandle, k);
  }

  lemma SlotInside(d: Bytes, slots: seq<nat>, base: nat, k: nat)
    requires ListedOnce(d, slots, base, k)
    ensures k < |slots| && slots[k] + 4 <= |d|
  {
  }

  /** A word of an overlay that is listed once in the local fixups and names a node of fragment j:
      relocated and fixed up it finds a node in the tree after the whole overlay if and only if that
      node was new at its place when its fragment was imported.  The overlay with these words is
      the one that is imported, unless there are external fixups or symbols to be rewritten. */
  lemma ReferenceAfterOverlay(t: DeviceTree, overlay: Node, w: World, fix: Node, wordPath: seq<Bytes>, name: Bytes,
                              off: nat, j: nat, path: seq<Bytes>)
    requires TreeGood(t) && OverlayFits(t, overlay) && SymbolsPlain(overlay) && UniqueNames(overlay) && DataOnly(w)
    requires ApplyOverlay(t, overlay, w).Some? && j < |overlay.children|
    requires Child(AdjustAll(overlay, t.maxPhandle).0.children, LOCAL_FIXUPS) == Some(fix) && UniqueNames(fix)
    requires Listed(fix, overlay, t.maxPhandle, wordPath, name, off)
    requires PhandleAt(overlay, [overlay.children[j].name, OVERLAY] + path) == WordAt(overlay, wordPath, name, off)
    ensures var fixed := Relocate(t.maxPhandle, overlay).value.0;
      var ready := Prepare(t, overlay, w).value.0;
      var word := WordAt(fixed, wordPath, name, off);
      && (!NeedsWorld(fixed) ==> ready == fixed)
      && j < |ready.children| && word.Some?
      && (FindByPhandle(ApplyOverlay(t, overlay, w).value.root, word.value).Some?
          <==> NewWhenImported(t.root, ready.children, w, j, path))
  {
    hide AdjustAll, FixupLocals, UniqueNames, NodeFits, PhandleOk, FindByPhandle, Distinct, Phandles, DataOnly,
         Child, ImportAll, ImportSymbols, NewWhenImported, Listed, PhandleAt, WordAt, NeedsWorld, TreeGood,
         SymbolsPlain;
    var ready := Prepare(t, overlay, w).value.0;
    WordMoves(t, overlay, fix, wordPath, name, off);
    var v := WordAt(overlay, wordPath, name, off).value;
    ListedPositive(fix, overlay, t.maxPhandle, wordPath, name, off);
    PreparedPhandleAt(t, overlay, w, [overlay.children[j].name, OVERLAY] + path);
    PreparedPlace(t, overlay, w, j, path);
    NodeAfterOverlay(t, overlay, w, j, path, v + t.maxPhandle);
  }

  lemma ListedPositive(fix: Node, overlay: Node, base: nat, path: seq<Bytes>, name: Bytes, off: nat)
    requires Listed(fix, overlay, base, path, name, off) && WordAt(overlay, path, name, off).Some?
    ensures WordAt(overlay, path, name, off).value > 0
  {
    hide Lookup, Slots, U32, PhandleName;
  }

  /** Fragment j keeps its number, and its node at the path its place. */
  lemma PreparedPlace(t: DeviceTree, overlay: Node, w: World, j: nat, path: seq<Bytes>)
    requires OverlayFits(t, overlay) && UniqueNames(overlay) && DataOnly(w) && Prepare(t, overlay, w).Some?
    requires j < |overlay.children|
    requires PhandleAt(Prepare(t, overlay, w).value.0, [overlay.children[j].name, OVERLAY] + path).Some?
    ensures var ready := Prepare(t, overlay, w).value.0;
      && j < |ready.children| && Child(ready.children[j].children, OVERLAY).Some?
      && PhandleAt(ready, [overlay.children[j].name, OVERLAY] + path)
         == PhandleAt(Child(ready.children[j].children, OVERLAY).value, path)
  {
    hide Prepare, OverlayFits, DataOnly, UniqueNames, PhandleAt, Shift, SameShape;
    var ready := Prepare(t, overlay, w).value.0;
    var name := overlay.children[j].name;
    PreparedUnique(t, overlay, w);
    PreparedShape(t, overlay, w);
    ShapeNames(Shift(overlay, t.maxPhandle), ready);
    ShiftNames(overlay, t.maxPhandle);
    UniqueParts(ready);
    OwnIndex(ready.children, j);
    assert [name, OVERLAY] + path == [name] + ([OVERLAY] + path);
    PhandleBelow(ready, name, [OVERLAY] + path);
    NoChildNoPhandle(ready.children[j], OVERLAY, path);
    PhandleBelow(ready.children[j], OVERLAY, path);
  }

  lemma NoChildNoPhandle(n: Node, name: Bytes, path: seq<Bytes>)
    ensures PhandleAt(n, [name] + path).Some? ==> Child(n.children, name).Some?
  {
    FindChild(n, [name] + path);
  }

  lemma ShapeNames(a: Node, b: Node)
    requires SameShape(a, b)
    ensures |a.children| == |b.children|
    ensures forall i :: 0 <= i < |a.children| ==> a.children[i].name == b.children[i].name
  {
    ShapesAt(a.children, b.children);
  }

  lemma ShiftNames(n: Node, base: nat)
    ensures |Shift(n, base).children| == |n.children|
    ensures forall i :: 0 <= i < |n.children| ==> Shift(n, base).children[i].name == n.children[i].name
  {
    ShiftedNodes(n.children, base);
  }
}
