/** What the tree says after an overlay has been applied, path by path
    (src/base/device_tree.c:1354-1544). */
module DtImport {
  import opened Common
  import opened FdtFormat
  import opened DtPhandles
  import opened DtFixups
  import opened DtReferences
  import opened DtCopy
  import opened DtNames
  import opened DtPlaces
  import opened DtOverlay

  // ----- one fragment -----

  /** The value that a merge of src at place p of root brings to `name` at `path`, if any. */
  function Brought(root: Node, p: seq<nat>, src: Node, path: seq<Bytes>, name: Bytes): Option<Bytes>
    requires ValidPlace(root, p)
  {
    var q := NamesAt(root, p);
    if q <= path && SourceWins(NodeAtPlace(root, p), src, true, path[|q|..], name)
    then Lookup(src, path[|q|..], name) else None
  }

  /** Below the place a property is the merged one, every other path keeps its value. */
  lemma CopyAtMeans(root: Node, p: seq<nat>, src: Node, path: seq<Bytes>, name: Bytes)
    requires UniqueNames(root) && UniqueNames(src) && ValidPlace(root, p)
    ensures Lookup(CopyAt(root, p, src, true), path, name)
         == var v := Brought(root, p, src, path, name); if v.Some? then v else Lookup(root, path, name)
  {
    hide CopyAt, CopySubtree, Find, NodeAtPlace, NamesAt, UniqueNames, Data, ValidPlace;
    var q := NamesAt(root, p);
    CopyAtFind(root, p, src, true, path);
    if q <= path {
      DeepMerge(NodeAtPlace(root, p), src, true, path[|q|..], name);
      FindBelow(root, p, path);
    }
  }

  /** dt_import_fragment: no __overlay__ child means that nothing happens, no target is the one
      error, and otherwise __overlay__ is merged at the target and nothing else changes. */
  lemma ImportMeans(root: Node, fragment: Node, w: World, path: seq<Bytes>, name: Bytes)
    requires UniqueNames(root) && UniqueNames(fragment)
    ensures var r := ImportFragment(root, fragment, w);
      var o, p := Child(fragment.children, OVERLAY), TargetOf(root, fragment, w);
      if o.None? then r == Some(root)
      else if p.None? then r == None
      else
        && r.Some? && ValidPlace(root, p.value)
        && Lookup(r.value, path, name) == var v := Brought(root, p.value, o.value, path, name);
             if v.Some? then v else Lookup(root, path, name)
  {
    hide CopyAt, TargetOf, Brought, ValidPlace, Lookup;
    var o := Child(fragment.children, OVERLAY);
    ChildUnique(fragment.children, OVERLAY);
    var target := TargetOf(root, fragment, w);
    TargetValid(root, fragment, w);
    if o.Some? && target.Some? {
      CopyAtMeans(root, target.value, o.value, path, name);
    }
  }

  lemma ImportUnique(root: Node, fragment: Node, w: World)
    requires UniqueNames(root) && UniqueNames(fragment) && ImportFragment(root, fragment, w).Some?
    ensures UniqueNames(ImportFragment(root, fragment, w).value)
  {
    hide CopyAt, TargetOf, ValidPlace;
    var o := Child(fragment.children, OVERLAY);
    ChildUnique(fragment.children, OVERLAY);
    TargetValid(root, fragment, w);
    if o.Some? {
      CopyAtUnique(root, TargetOf(root, fragment, w).value, o.value, true);
    }
  }

  // ----- all fragments -----

  /** What a fragment says about `name` at `path`, given the tree it is imported into. */
  function Says(root: Node, fragment: Node, w: World, path: seq<Bytes>, name: Bytes): Option<Bytes> {
    match Child(fragment.children, OVERLAY)
    case None => None
    case Some(o) =>
      match TargetOf(root, fragment, w)
      case None => None
      case Some(p) =>
        TargetValid(root, fragment, w);
        var q := NamesAt(root, p);
        if q <= path then Lookup(o, path[|q|..], name) else None
  }

  /** The last fragment that says anything decides; otherwise the tree before. */
  function LastSays(root: Node, fragments: seq<Node>, w: World, path: seq<Bytes>, name: Bytes): Option<Bytes>
    decreases fragments
  {
    if fragments == [] then Lookup(root, path, name)
    else
      var n := |fragments| - 1;
      match ImportAll(root, fragments[..n], w)
      case None => None
      case Some(r) =>
        match Says(r, fragments[n], w, path, name)
        case Some(v) => Some(v)
        case None => LastSays(root, fragments[..n], w, path, name)
  }

  lemma {:induction false} ImportAllSnoc(root: Node, fragments: seq<Node>, w: World)
    requires fragments != []
    ensures var n := |fragments| - 1;
      var front := ImportAll(root, fragments[..n], w);
      ImportAll(root, fragments, w) == if front.None? then None else ImportFragment(front.value, fragments[n], w)
    decreases fragments
  {
    hide ImportFragment;
    var n := |fragments| - 1;
    var next := ImportFragment(root, fragments[0], w);
    if n > 0 && next.Some? {
      ImportAllSnoc(next.value, fragments[1..], w);
      assert fragments[..n][1..] == fragments[1..][..n - 1] && fragments[1..][n - 1] == fragments[n];
    } else if n == 0 && next.Some? {
      assert fragments[..0] == [];
      assert fragments[1..] == [];
    }
  }

  /** dt_apply_overlay's loop: for every path and every property that an overlay may bring. */
  lemma {:induction false} ImportAllMeans(root: Node, fragments: seq<Node>, w: World, path: seq<Bytes>, name: Bytes)
    requires UniqueNames(root) && UniqueChildren(fragments) && ImportAll(root, fragments, w).Some?
    requires !IllegalName(name)
    ensures UniqueNames(ImportAll(root, fragments, w).value)
    ensures Lookup(ImportAll(root, fragments, w).value, path, name) == LastSays(root, fragments, w, path, name)
    decreases fragments
  {
    hide ImportFragment, Lookup, Says, UniqueNames, IllegalName, ImportAll;
    if fragments == [] {
      ImportNothing(root, w);
    } else {
      var n := |fragments| - 1;
      ImportAllSnoc(root, fragments, w);
      UniqueFront(fragments);
      UniqueChild(fragments, n);
      ImportAllMeans(root, fragments[..n], w, path, name);
      var r := ImportAll(root, fragments[..n], w).value;
      ImportUnique(r, fragments[n], w);
      ImportSays(r, fragments[n], w, path, name);
    }
  }

  lemma ImportNothing(root: Node, w: World)
    ensures ImportAll(root, [], w) == Some(root)
  {
  }

  lemma ImportSays(root: Node, fragment: Node, w: World, path: seq<Bytes>, name: Bytes)
    requires UniqueNames(root) && UniqueNames(fragment) && ImportFragment(root, fragment, w).Some?
    requires !IllegalName(name)
    ensures Lookup(ImportFragment(root, fragment, w).value, path, name)
         == var v := Says(root, fragment, w, path, name); if v.Some? then v else Lookup(root, path, name)
  {
    hide TargetOf, ValidPlace, UniqueNames, IllegalName, NamesAt, NodeAtPlace, Lookup;
    TargetValid(root, fragment, w);
    ImportMeans(root, fragment, w, path, name);
  }

  lemma {:induction false} UniqueFront(ns: seq<Node>)
    requires UniqueChildren(ns) && ns != []
    ensures UniqueChildren(ns[..|ns| - 1])
    decreases ns
  {
    hide UniqueNames;
    if |ns| > 1 {
      UniqueFront(ns[1..]);
      assert ns[..|ns| - 1][1..] == ns[1..][..|ns| - 2];
      NoneInFront(ns[1..], ns[0].name);
    } else {
      assert ns[..0] == [];
    }
  }

  lemma NoneInFront(ns: seq<Node>, name: Bytes)
    requires ChildIndex(ns, name).None? && ns != []
    ensures ChildIndex(ns[..|ns| - 1], name).None?
  {
  }

  // ----- the symbols -----

  /** Symbols the tree had win over those of the overlay; a tree without symbols gets the
      overlay's.  Nothing else changes. */
  lemma SymbolsMean(before: Node, root: Node, overlay: Node, path: seq<Bytes>, name: Bytes)
    requires UniqueNames(overlay) && !IllegalName(name)
    requires Child(before.children, SYMBOLS).Some? ==> Child(root.children, SYMBOLS).Some?
    ensures var r := ImportSymbols(before, root, overlay);
      var s := Child(overlay.children, SYMBOLS);
      Lookup(r, path, name) ==
        if s.None? || path == [] || path[0] != SYMBOLS then Lookup(root, path, name)
        else if Child(before.children, SYMBOLS).Some? && Lookup(root, path, name).Some?
        then Lookup(root, path, name)
        else Lookup(s.value, path[1..], name)
  {
    hide CopySubtree, UniqueNames, IllegalName, Data;
    var r := ImportSymbols(before, root, overlay);
    var s := Child(overlay.children, SYMBOLS);
    if s.Some? && path != [] {
      UniqueParts(overlay);
      ChildUnique(overlay.children, SYMBOLS);
      FindChild(r, path);
      FindChild(root, path);
      var i := ChildIndex(root.children, SYMBOLS);
      if i.Some? && Child(before.children, SYMBOLS).Some? {
        var c := CopySubtree(root.children[i.value], s.value, false);
        CopyKeepsName(root.children[i.value], s.value, false);
        SameChildIndex(root.children, root.children[i.value := c], path[0]);
        DeepMerge(root.children[i.value], s.value, false, path[1..], name);
      } else {
        OtherChild(s.value, root.children, path[0]);
      }
    }
  }

  // ----- names survive the preparation -----

  /** The functions of the repository behind `external` rewrite property data and nothing else. */
  ghost predicate DataOnly(w: World) {
    forall r: Node {:trigger w.external(r)} ::
      w.external(r).Some? ==> SameNames(r, w.external(r).value) && SameShape(r, w.external(r).value)
  }

  lemma PreparedUnique(t: DeviceTree, overlay: Node, w: World)
    requires UniqueNames(overlay) && DataOnly(w) && Prepare(t, overlay, w).Some?
    ensures UniqueNames(Prepare(t, overlay, w).value.0)
  {
    hide AdjustAll, FixupLocals, SameNames, SameShape, UniqueNames, Child, NeedsWorld;
    AdjustNames(overlay, t.maxPhandle);
    var moved := AdjustAll(overlay, t.maxPhandle).0;
    SameNamesUnique(overlay, moved);
    var fixed := Relocate(t.maxPhandle, overlay).value.0;
    var fix := Child(moved.children, LOCAL_FIXUPS);
    if fix.Some? {
      FixupNames(moved, fix.value, t.maxPhandle);
      SameNamesUnique(moved, fixed);
    }
    if NeedsWorld(fixed) {
      SameNamesUnique(fixed, w.external(fixed).value);
    }
  }

  // ----- the whole overlay -----

  lemma ImportKeepsNode(root: Node, fragment: Node, w: World, path: seq<Bytes>)
    requires UniqueNames(root) && UniqueNames(fragment) && ImportFragment(root, fragment, w).Some?
    requires Find(root, path).Some?
    ensures Find(ImportFragment(root, fragment, w).value, path).Some?
  {
    hide CopyAt, TargetOf, ValidPlace, Find, UniqueNames, CopySubtree, NamesAt, NodeAtPlace;
    var o := Child(fragment.children, OVERLAY);
    UniqueParts(fragment);
    ChildUnique(fragment.children, OVERLAY);
    TargetValid(root, fragment, w);
    if o.Some? {
      var p := TargetOf(root, fragment, w).value;
      CopyAtFind(root, p, o.value, true, path);
      var q := NamesAt(root, p);
      if q <= path {
        FindBelow(root, p, path);
        MergedNodes(NodeAtPlace(root, p), o.value, true, path[|q|..]);
      }
    }
  }

  lemma {:induction false} ImportAllKeepsNode(root: Node, fragments: seq<Node>, w: World, path: seq<Bytes>)
    requires UniqueNames(root) && UniqueChildren(fragments) && ImportAll(root, fragments, w).Some?
    requires Find(root, path).Some?
    ensures Find(ImportAll(root, fragments, w).value, path).Some?
    decreases fragments
  {
    hide ImportFragment, Find, UniqueNames;
    if fragments != [] {
      var r := ImportFragment(root, fragments[0], w).value;
      ImportKeepsNode(root, fragments[0], w, path);
      ImportUnique(root, fragments[0], w);
      ImportAllKeepsNode(r, fragments[1..], w, path);
    }
  }

  /** dt_apply_overlay, path by path: outside the symbols the last fragment of the prepared overlay
      that says anything decides, and otherwise the tree before; below the symbols that tree wins
      over the overlay's symbols, if it had any. */
  lemma ApplyMeans(t: DeviceTree, overlay: Node, w: World, path: seq<Bytes>, name: Bytes)
    requires UniqueNames(t.root) && UniqueNames(overlay) && DataOnly(w) && !IllegalName(name)
    requires ApplyOverlay(t, overlay, w).Some?
    ensures var ready := Prepare(t, overlay, w).value.0;
      var said := LastSays(t.root, ready.children, w, path, name);
      var s := Child(ready.children, SYMBOLS);
      Lookup(ApplyOverlay(t, overlay, w).value.root, path, name) ==
        if s.None? || path == [] || path[0] != SYMBOLS then said
        else if Child(t.root.children, SYMBOLS).Some? && said.Some? then said
        else Lookup(s.value, path[1..], name)
  {
    hide Prepare, ImportAll, ImportSymbols, Lookup, LastSays, UniqueNames, DataOnly, IllegalName, Find, Child;
    var ready := Prepare(t, overlay, w).value.0;
    PreparedUnique(t, overlay, w);
    UniqueParts(ready);
    ImportAllMeans(t.root, ready.children, w, path, name);
    var root := ImportAll(t.root, ready.children, w).value;
    SymbolsStay(t.root, ready.children, w);
    SymbolsMean(t.root, root, ready, path, name);
  }

  lemma SymbolsStay(root: Node, fragments: seq<Node>, w: World)
    requires UniqueNames(root) && UniqueChildren(fragments) && ImportAll(root, fragments, w).Some?
    ensures Child(root.children, SYMBOLS).Some? ==> Child(ImportAll(root, fragments, w).value.children, SYMBOLS).Some?
  {
    hide UniqueNames, ImportAll, UniqueChildren;
    if Child(root.children, SYMBOLS).Some? {
      FindOne(root, SYMBOLS);
      ImportAllKeepsNode(root, fragments, w, [SYMBOLS]);
      FindOne(ImportAll(root, fragments, w).value, SYMBOLS);
    }
  }

  lemma FindOne(n: Node, name: Bytes)
    ensures Find(n, [name]) == Child(n.children, name)
  {
    assert [name][1..] == [];
  }

  // ----- references into the imported nodes -----

  function PhandleAt(n: Node, path: seq<Bytes>): Option<nat> {
    match Find(n, path)
    case None => None
    case Some(m) => Some(m.phandle)
  }

  /** A node that only the source has is taken over whole. */
  lemma {:induction false} NewNodeWhole(dst: Node, src: Node, upd: bool, path: seq<Bytes>)
    requires UniqueNames(src) && Find(dst, path).None?
    ensures Find(CopySubtree(dst, src, upd), path) == Find(src, path)
    decreases path
  {
    hide CopyProperties, CopyChildren, UniqueProperties, UniqueChildren, Child, Find;
    if path == [] {
      HereIsSelf(dst);
    } else {
      UniqueParts(src);
      CopyChildrenChild(dst.children, src.children, upd, path[0]);
      ChildUnique(src.children, path[0]);
      FindChild(CopySubtree(dst, src, upd), path);
      FindChild(dst, path);
      FindChild(src, path);
      var d, s := Child(dst.children, path[0]), Child(src.children, path[0]);
      if d.Some? && s.Some? {
        NewNodeWhole(d.value, s.value, upd, path[1..]);
      }
    }
  }

  /** A node that the destination had keeps its own phandle. */
  lemma {:induction false} OldNodePhandle(dst: Node, src: Node, upd: bool, path: seq<Bytes>)
    requires UniqueNames(src) && Find(dst, path).Some?
    ensures PhandleAt(CopySubtree(dst, src, upd), path) == PhandleAt(dst, path)
    decreases path
  {
    hide CopyProperties, CopyChildren, UniqueProperties, UniqueChildren, Child, Find;
    var r := CopySubtree(dst, src, upd);
    if path == [] {
      HereIsSelf(dst);
      HereIsSelf(r);
    } else {
      UniqueParts(src);
      CopyChildrenChild(dst.children, src.children, upd, path[0]);
      ChildUnique(src.children, path[0]);
      FindChild(r, path);
      FindChild(dst, path);
      var d, s := Child(dst.children, path[0]), Child(src.children, path[0]);
      if d.Some? && s.Some? {
        OldNodePhandle(d.value, s.value, upd, path[1..]);
      }
    }
  }

  /** After the merge the phandle x of the source is found at path w if and only if it was the
      source that brought that node. */
  lemma PhandleAfterMerge(root: Node, p: seq<nat>, src: Node, x: nat, path: seq<Bytes>)
    requires UniqueNames(root) && UniqueNames(src) && ValidPlace(root, p)
    requires PhandleAt(root, path) != Some(x)
    ensures var q := NamesAt(root, p);
      (PhandleAt(CopyAt(root, p, src, true), path) == Some(x))
      <==> (q <= path && PhandleAt(src, path[|q|..]) == Some(x) && Find(root, path).None?)
  {
    hide CopyAt, CopySubtree, Find, NodeAtPlace, NamesAt, UniqueNames, ValidPlace;
    var q, d := NamesAt(root, p), NodeAtPlace(root, p);
    CopyAtFind(root, p, src, true, path);
    if q <= path {
      FindBelow(root, p, path);
      if Find(d, path[|q|..]).Some? {
        OldNodePhandle(d, src, true, path[|q|..]);
      } else {
        NewNodeWhole(d, src, true, path[|q|..]);
      }
    }
  }

  /** A phandle x that names one node of the overlay, and none of the tree, names that node in the
      merged tree if and only if it was new there: dt_copy_subtree drops the phandle of a node that
      is merged into an existing one, and references to it then lead nowhere. */
  lemma ReferenceAfterImport(root: Node, p: seq<nat>, src: Node, x: nat, path: seq<Bytes>)
    requires UniqueNames(root) && UniqueNames(src) && ValidPlace(root, p)
    requires forall w :: PhandleAt(root, w) != Some(x)
    requires PhandleAt(src, path) == Some(x) && forall w :: PhandleAt(src, w) == Some(x) ==> w == path
    ensures var r := CopyAt(root, p, src, true);
      var there := NamesAt(root, p) + path;
      var found := FindByPhandle(r, x);
      && (found.Some? <==> Find(root, there).None?)
      && (found.Some? ==> ValidPlace(r, found.value) && NamesAt(r, found.value) == there)
  {
    hide CopyAt, Find, FindByPhandle, UniqueNames, ValidPlace, NodeAtPlace, NamesAt;
    var r := CopyAt(root, p, src, true);
    var q := NamesAt(root, p);
    var there := q + path;
    var found := FindByPhandle(r, x);
    CopyAtUnique(root, p, src, true);
    FindByPhandleIff(r, x);
    if found.Some? {
      FindNames(r, found.value);
      var w := NamesAt(r, found.value);
      PhandleAfterMerge(root, p, src, x, w);
      assert w == q + w[|q|..];
    } else {
      assert there[|q|..] == path;
      PhandleAfterMerge(root, p, src, x, there);
      PathIndicesFind(r, there);
    }
  }
}
