/** Exactly which phandles a merge, an import and a whole overlay bring to a tree
    (src/base/device_tree.c:1354-1544). */
module DtNewNodes {
  import opened Common
  import opened FdtFormat
  import opened DtFixups
  import opened DtReferences
  import opened DtCopy
  import opened DtPlaces
  import opened DtTreePhandles
  import opened DtOverlay
  import opened DtImport

  // ----- one merge -----

  /** The phandles of the nodes of src that are new to dst. */
  function NewPhandles(dst: Node, src: Node, upd: bool): multiset<nat>
    decreases src, 1
  {
    NewAmong(dst.children, src.children, upd)
  }

  function NewAmong(dst: seq<Node>, src: seq<Node>, upd: bool): multiset<nat>
    decreases src, 0
  {
    if src == [] then multiset{}
    else
      var d := Child(dst, src[0].name);
      (if d.None? then Phandles(src[0]) else NewPhandles(d.value, src[0], upd))
      + NewAmong(PutChild(dst, src[0], upd), src[1..], upd)
  }

  /** A merge adds these to the phandles of the destination, and takes nothing away. */
  lemma {:induction false} CopyExact(dst: Node, src: Node, upd: bool)
    ensures Phandles(CopySubtree(dst, src, upd)) == Phandles(dst) + NewPhandles(dst, src, upd)
    decreases src, 1
  {
    hide CopyProperties, One;
    CopyChildrenExact(dst.children, src.children, upd);
  }

  lemma {:induction false} CopyChildrenExact(dst: seq<Node>, src: seq<Node>, upd: bool)
    ensures PhandlesAll(CopyChildren(dst, src, upd)) == PhandlesAll(dst) + NewAmong(dst, src, upd)
    decreases src, 0
  {
    hide Phandles, CopySubtree, NewPhandles;
    if src != [] {
      var i := ChildIndex(dst, src[0].name);
      if i.Some? {
        var c := CopySubtree(dst[i.value], src[0], upd);
        CopyExact(dst[i.value], src[0], upd);
        PhandlesUpdate(dst, i.value, c);
        CopyChildrenExact(dst[i.value := c], src[1..], upd);
        Cancel(PhandlesAll(dst[i.value := c]), Phandles(dst[i.value]), PhandlesAll(dst),
               NewPhandles(dst[i.value], src[0], upd));
      } else {
        assert ([src[0]] + dst)[1..] == dst;
        assert PhandlesAll([src[0]] + dst) == Phandles(src[0]) + PhandlesAll(dst);
        CopyChildrenExact([src[0]] + dst, src[1..], upd);
      }
    }
  }

  lemma Cancel(a: multiset<nat>, x: multiset<nat>, b: multiset<nat>, z: multiset<nat>)
    requires a + x == b + (x + z)
    ensures a == b + z
  {
    forall p: nat ensures a[p] == (b + z)[p] {
      assert (a + x)[p] == (b + (x + z))[p];
    }
  }

  lemma {:induction false} NewBound(dst: Node, src: Node, upd: bool)
    ensures NewPhandles(dst, src, upd) <= PhandlesAll(src.children) <= Phandles(src)
    decreases src, 1
  {
    NewAmongBound(dst.children, src.children, upd);
  }

  lemma {:induction false} NewAmongBound(dst: seq<Node>, src: seq<Node>, upd: bool)
    ensures NewAmong(dst, src, upd) <= PhandlesAll(src)
    decreases src, 0
  {
    hide Phandles, NewPhandles, PutChild;
    if src != [] {
      var d := Child(dst, src[0].name);
      if d.Some? {
        NewBound(d.value, src[0], upd);
      }
      NewAmongBound(PutChild(dst, src[0], upd), src[1..], upd);
    }
  }

  // ----- which nodes these are -----

  lemma {:induction false} ChildPhandles(ns: seq<Node>, i: nat)
    requires i < |ns|
    ensures Phandles(ns[i]) <= PhandlesAll(ns)
    decreases i
  {
    hide Phandles;
    if i > 0 {
      ChildPhandles(ns[1..], i - 1);
    }
  }

  lemma {:induction false} TwoChildren(ns: seq<Node>, i: nat, j: nat)
    requires i < |ns| && j < |ns| && i != j
    ensures Phandles(ns[i]) + Phandles(ns[j]) <= PhandlesAll(ns)
    decreases i
  {
    hide Phandles;
    if i == 0 {
      ChildPhandles(ns[1..], j - 1);
    } else if j == 0 {
      ChildPhandles(ns[1..], i - 1);
    } else {
      TwoChildren(ns[1..], i - 1, j - 1);
    }
  }

  /** A phandle at a path is one of the phandles. */
  lemma {:induction false} PhandleCounts(n: Node, path: seq<Bytes>)
    ensures PhandleAt(n, path).Some? && PhandleAt(n, path).value > 0 ==> Phandles(n)[PhandleAt(n, path).value] > 0
    decreases path
  {
    hide PhandlesAll;
    if path != [] {
      var i := ChildIndex(n.children, path[0]);
      if i.Some? {
        PhandleCounts(n.children[i.value], path[1..]);
        ChildPhandles(n.children, i.value);
      }
    }
  }

  /** A phandle that occurs once in src, at `path`, is new exactly if dst has no node there. */
  lemma {:induction false} NewAtPath(dst: Node, src: Node, upd: bool, path: seq<Bytes>, x: nat)
    requires UniqueNames(src) && x > 0 && Phandles(src)[x] <= 1 && PhandleAt(src, path) == Some(x)
    ensures NewPhandles(dst, src, upd)[x] > 0 <==> Find(dst, path).None?
    decreases path, |src.children| + 1
  {
    hide PhandlesAll, NewAmong;
    if path == [] {
      HereIsSelf(src);
      HereIsSelf(dst);
      NewBound(dst, src, upd);
    } else {
      UniqueParts(src);
      var i := ChildIndex(src.children, path[0]).value;
      NewAmongPath(dst.children, src.children, upd, path, x, i);
      FindChild(dst, path);
    }
  }

  lemma {:induction false} NewAmongPath(dst: seq<Node>, src: seq<Node>, upd: bool, path: seq<Bytes>, x: nat, i: nat)
    requires UniqueChildren(src) && x > 0 && PhandlesAll(src)[x] <= 1 && path != []
    requires ChildIndex(src, path[0]) == Some(i) && PhandleAt(src[i], path[1..]) == Some(x)
    ensures NewAmong(dst, src, upd)[x] > 0
       <==> Child(dst, path[0]).None? || Find(Child(dst, path[0]).value, path[1..]).None?
    decreases path, |src|
  {
    hide Phandles, NewPhandles, PutChild, Find;
    var d := Child(dst, src[0].name);
    var dst' := PutChild(dst, src[0], upd);
    PhandleCounts(src[i], path[1..]);
    if i == 0 {
      NewAmongBound(dst', src[1..], upd);
      assert PhandlesAll(src)[x] == Phandles(src[0])[x] + PhandlesAll(src[1..])[x];
      if d.Some? {
        NewAtPath(d.value, src[0], upd, path[1..], x);
      }
    } else {
      ChildPhandles(src[1..], i - 1);
      assert PhandlesAll(src)[x] == Phandles(src[0])[x] + PhandlesAll(src[1..])[x];
      if d.Some? {
        NewBound(d.value, src[0], upd);
      }
      PutChildChild(dst, src[0], upd, path[0]);
      NewAmongPath(dst', src[1..], upd, path, x, i - 1);
    }
  }

  lemma {:induction false} CopyAtExact(n: Node, p: seq<nat>, src: Node, upd: bool)
    requires ValidPlace(n, p)
    ensures Phandles(CopyAt(n, p, src, upd)) == Phandles(n) + NewPhandles(NodeAtPlace(n, p), src, upd)
    decreases p
  {
    hide CopySubtree, One, NewPhandles;
    if p == [] {
      CopyExact(n, src, upd);
    } else {
      var c := CopyAt(n.children[p[0]], p[1..], src, upd);
      CopyAtExact(n.children[p[0]], p[1..], src, upd);
      PhandlesUpdate(n.children, p[0], c);
      Cancel(PhandlesAll(n.children[p[0] := c]), Phandles(n.children[p[0]]), PhandlesAll(n.children),
             NewPhandles(NodeAtPlace(n, p), src, upd));
    }
  }

  // ----- the imports of an overlay -----

  function FragmentNew(root: Node, fragment: Node, w: World): multiset<nat> {
    var o, p := Child(fragment.children, OVERLAY), TargetOf(root, fragment, w);
    if o.None? || p.None? then multiset{}
    else
      TargetValid(root, fragment, w);
      NewPhandles(NodeAtPlace(root, p.value), o.value, true)
  }

  function Imported(root: Node, fs: seq<Node>, w: World): multiset<nat>
    decreases fs
  {
    if fs == [] then multiset{}
    else
      var r := ImportFragment(root, fs[0], w);
      if r.None? then multiset{} else FragmentNew(root, fs[0], w) + Imported(r.value, fs[1..], w)
  }

  /** What the symbols bring at the end. */
  function SymbolsNew(before: Node, root: Node, overlay: Node): multiset<nat> {
    var s := Child(overlay.children, SYMBOLS);
    var mine := Child(root.children, SYMBOLS);
    if s.None? then multiset{}
    else if mine.Some? && Child(before.children, SYMBOLS).Some? then NewPhandles(mine.value, s.value, false)
    else Phandles(s.value)
  }

  lemma ImportFragmentExact(root: Node, fragment: Node, w: World)
    requires ImportFragment(root, fragment, w).Some?
    ensures Phandles(ImportFragment(root, fragment, w).value) == Phandles(root) + FragmentNew(root, fragment, w)
  {
    hide Phandles, CopyAt, TargetOf, ValidPlace, NewPhandles, NodeAtPlace;
    var o := Child(fragment.children, OVERLAY);
    if o.Some? {
      TargetValid(root, fragment, w);
      CopyAtExact(root, TargetOf(root, fragment, w).value, o.value, true);
    }
  }

  lemma {:induction false} ImportAllExact(root: Node, fs: seq<Node>, w: World)
    requires ImportAll(root, fs, w).Some?
    ensures Phandles(ImportAll(root, fs, w).value) == Phandles(root) + Imported(root, fs, w)
    decreases fs
  {
    hide Phandles, FragmentNew, ImportFragment;
    if fs != [] {
      ImportFragmentExact(root, fs[0], w);
      ImportAllExact(ImportFragment(root, fs[0], w).value, fs[1..], w);
    }
  }

  lemma ImportSymbolsExact(before: Node, root: Node, overlay: Node)
    ensures Phandles(ImportSymbols(before, root, overlay)) == Phandles(root) + SymbolsNew(before, root, overlay)
  {
    hide CopySubtree, One, NewPhandles;
    var s := Child(overlay.children, SYMBOLS);
    if s.Some? {
      var i := ChildIndex(root.children, SYMBOLS);
      if i.Some? && Child(before.children, SYMBOLS).Some? {
        var c := CopySubtree(root.children[i.value], s.value, false);
        CopyExact(root.children[i.value], s.value, false);
        PhandlesUpdate(root.children, i.value, c);
        Cancel(PhandlesAll(root.children[i.value := c]), Phandles(root.children[i.value]),
               PhandlesAll(root.children), NewPhandles(root.children[i.value], s.value, false));
      } else {
        assert ([s.value] + root.children)[1..] == root.children;
      }
    }
  }

  /** The phandles of the result: those of the tree, those of the nodes that were new when their
      fragment was imported, and those that the symbols bring. */
  lemma ApplyExact(t: DeviceTree, overlay: Node, w: World)
    requires ApplyOverlay(t, overlay, w).Some?
    ensures var ready := Prepare(t, overlay, w).value.0;
      Phandles(ApplyOverlay(t, overlay, w).value.root)
      == Phandles(t.root) + Imported(t.root, ready.children, w)
         + SymbolsNew(t.root, ImportAll(t.root, ready.children, w).value, ready)
  {
    hide Prepare, ImportAll, ImportSymbols, Phandles, Imported, SymbolsNew;
    var ready := Prepare(t, overlay, w).value.0;
    ImportAllExact(t.root, ready.children, w);
    ImportSymbolsExact(t.root, ImportAll(t.root, ready.children, w).value, ready);
  }

  // ----- where an imported phandle comes from -----

  function Contribution(fragment: Node): multiset<nat> {
    match Child(fragment.children, OVERLAY)
    case None => multiset{}
    case Some(o) => Phandles(o)
  }

  lemma ContributionBound(fragment: Node)
    ensures Contribution(fragment) <= Phandles(fragment)
  {
    hide Phandles;
    var i := ChildIndex(fragment.children, OVERLAY);
    if i.Some? {
      ChildPhandles(fragment.children, i.value);
      KidsPhandles(fragment);
    }
  }

  lemma FragmentNewBound(root: Node, fragment: Node, w: World)
    ensures FragmentNew(root, fragment, w) <= Contribution(fragment) <= Phandles(fragment)
  {
    hide Phandles, TargetOf, NewPhandles, NodeAtPlace, ValidPlace;
    ContributionBound(fragment);
    var i := ChildIndex(fragment.children, OVERLAY);
    if i.Some? {
      if TargetOf(root, fragment, w).Some? {
        TargetValid(root, fragment, w);
        NewBound(NodeAtPlace(root, TargetOf(root, fragment, w).value), fragment.children[i.value], true);
      }
    }
  }

  lemma KidsPhandles(n: Node)
    ensures PhandlesAll(n.children) <= Phandles(n)
  {
  }

  lemma {:induction false} ImportedBound(root: Node, fs: seq<Node>, w: World)
    ensures Imported(root, fs, w) <= PhandlesAll(fs)
    decreases fs
  {
    hide Phandles, FragmentNew, ImportFragment;
    if fs != [] {
      FragmentNewBound(root, fs[0], w);
      var r := ImportFragment(root, fs[0], w);
      if r.Some? {
        ImportedBound(r.value, fs[1..], w);
      }
    }
  }

  /** A phandle that only fragment i has is imported exactly if it is new when that fragment's turn
      comes. */
  lemma {:induction false} ImportedAt(root: Node, fs: seq<Node>, w: World, i: nat, x: nat)
    requires ImportAll(root, fs, w).Some? && i < |fs| && Phandles(fs[i])[x] == PhandlesAll(fs)[x]
    ensures ImportAll(root, fs[..i], w).Some? && ImportFragment(ImportAll(root, fs[..i], w).value, fs[i], w).Some?
    ensures Imported(root, fs, w)[x] == FragmentNew(ImportAll(root, fs[..i], w).value, fs[i], w)[x]
    decreases fs
  {
    hide Phandles, FragmentNew, ImportFragment;
    var r := ImportFragment(root, fs[0], w).value;
    assert PhandlesAll(fs)[x] == Phandles(fs[0])[x] + PhandlesAll(fs[1..])[x];
    if i == 0 {
      ImportedBound(r, fs[1..], w);
      assert fs[..0] == [];
    } else {
      ChildPhandles(fs[1..], i - 1);
      FragmentNewBound(root, fs[0], w);
      ImportedAt(r, fs[1..], w, i - 1, x);
      assert fs[..i][1..] == fs[1..][..i - 1];
    }
  }

  /** For a fragment that has the phandle once, below its __overlay__: new means that the target has
      no node at that path. */
  lemma FragmentNewAt(root: Node, fragment: Node, w: World, path: seq<Bytes>, x: nat)
    requires UniqueNames(fragment) && x > 0 && Phandles(fragment)[x] <= 1
    requires Child(fragment.children, OVERLAY).Some? && TargetOf(root, fragment, w).Some?
    requires PhandleAt(Child(fragment.children, OVERLAY).value, path) == Some(x)
    ensures ValidPlace(root, TargetOf(root, fragment, w).value)
    ensures FragmentNew(root, fragment, w)[x] > 0
       <==> Find(NodeAtPlace(root, TargetOf(root, fragment, w).value), path).None?
  {
    hide Phandles, TargetOf, NewPhandles, NodeAtPlace, ValidPlace, PhandleAt, UniqueNames, Find;
    var i := ChildIndex(fragment.children, OVERLAY).value;
    TargetValid(root, fragment, w);
    ChildPhandles(fragment.children, i);
    KidsPhandles(fragment);
    UniqueParts(fragment);
    UniqueChild(fragment.children, i);
    NewAtPath(NodeAtPlace(root, TargetOf(root, fragment, w).value), fragment.children[i], true, path, x);
  }

  /** With the symbols a node is new unless the tree had symbols and, in them, a node at that path. */
  lemma SymbolsNewAt(before: Node, root: Node, overlay: Node, path: seq<Bytes>, x: nat)
    requires UniqueNames(overlay) && x > 0 && Child(overlay.children, SYMBOLS).Some?
    requires Phandles(Child(overlay.children, SYMBOLS).value)[x] == 1
    requires PhandleAt(Child(overlay.children, SYMBOLS).value, path) == Some(x)
    ensures SymbolsNew(before, root, overlay)[x] > 0
       <==> !(Child(before.children, SYMBOLS).Some? && Find(root, [SYMBOLS] + path).Some?)
  {
    hide Phandles, NewPhandles, PhandleAt, UniqueNames, Find;
    var i := ChildIndex(overlay.children, SYMBOLS).value;
    UniqueParts(overlay);
    UniqueChild(overlay.children, i);
    var mine := Child(root.children, SYMBOLS);
    FindChild(root, [SYMBOLS] + path);
    assert ([SYMBOLS] + path)[1..] == path;
    if mine.Some? {
      NewAtPath(mine.value, overlay.children[i], false, path, x);
    }
  }
}
