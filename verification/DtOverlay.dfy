/** Applying an overlay (src/base/device_tree.c:1408-1544). */
module DtOverlay {
  import opened Common
  import opened FdtFormat
  import opened FdtRead
  import opened DtPhandles
  import opened DtFixups
  import opened DtCopy
  import opened DtPlaces

  const OVERLAY: Bytes := [95, 95, 111, 118, 101, 114, 108, 97, 121, 95, 95]
  const LOCAL_FIXUPS: Bytes := [95, 95, 108, 111, 99, 97, 108, 95, 102, 105, 120, 117, 112, 115, 95, 95]
  const FIXUPS: Bytes := [95, 95, 102, 105, 120, 117, 112, 115, 95, 95]
  const SYMBOLS: Bytes := [95, 95, 115, 121, 109, 98, 111, 108, 115, 95, 95]
  const TARGET: Bytes := [116, 97, 114, 103, 101, 116]
  const TARGET_PATH: Bytes := [116, 97, 114, 103, 101, 116, 45, 112, 97, 116, 104]

  /** What is given from outside: `split` takes a path string apart, None standing for one that
      dt_find_node_by_path does not resolve by names alone; `external` rewrites the strings and
      words that dt_fixup_all_externals and dt_fix_symbols rewrite, None standing for an error. */
  datatype World = World(split: Bytes -> Option<seq<Bytes>>, external: Node -> Option<Node>)

  // ----- the target of a fragment -----

  /** The last property of that name. */
  function LastData(ps: seq<Property>, name: Bytes): Option<Bytes> {
    if ps == [] then None
    else if ps[|ps| - 1].name == name then Some(ps[|ps| - 1].data)
    else LastData(ps[..|ps| - 1], name)
  }

  lemma {:induction false} LastDataIs(ps: seq<Property>, name: Bytes)
    ensures var d := LastData(ps, name);
      && (d.None? <==> forall i :: 0 <= i < |ps| ==> ps[i].name != name)
      && (d.Some? ==> exists i :: 0 <= i < |ps| && ps[i] == Property(name, d.value)
                                  && forall j :: i < j < |ps| ==> ps[j].name != name)
  {
    if ps != [] && ps[|ps| - 1].name != name {
      var n := |ps| - 1;
      LastDataIs(ps[..n], name);
      assert forall i :: 0 <= i < n ==> ps[..n][i] == ps[i];
    }
  }

  /** target has priority over target-path. */
  function TargetOf(root: Node, fragment: Node, w: World): Option<seq<nat>> {
    match Data(fragment.properties, TARGET)
    case Some(d) => if |d| != 4 then None else FindByPhandle(root, U32(d, 0))
    case None =>
      match LastData(fragment.properties, TARGET_PATH)
      case None => None
      case Some(s) =>
        match w.split(s)
        case None => None
        case Some(path) => PathIndices(root, path)
  }

  /** The target is a node of the tree: one with the phandle, if there is any, or the one at the
      path, if there is one. */
  lemma TargetMeans(root: Node, fragment: Node, w: World)
    ensures var target := TargetOf(root, fragment, w);
      var d := Data(fragment.properties, TARGET);
      var s := LastData(fragment.properties, TARGET_PATH);
      && (target.Some? ==> ValidPlace(root, target.value))
      && (d.Some? && |d.value| == 4 ==>
            if target.Some? then NodeAtPlace(root, target.value).phandle == U32(d.value, 0)
            else forall p: seq<nat> :: ValidPlace(root, p) ==> NodeAtPlace(root, p).phandle != U32(d.value, 0))
      && (d.None? && s.Some? && w.split(s.value).Some? ==>
            if target.Some? then NamesAt(root, target.value) == w.split(s.value).value
            else Find(root, w.split(s.value).value).None?)
      && (d.None? && (s.None? || w.split(s.value).None?) ==> target.None?)
      && (d.Some? && |d.value| != 4 ==> target.None?)
  {
    hide FindByPhandle, PathIndices, ValidPlace, NodeAtPlace, NamesAt, U32, Data, LastData, Find;
    var d := Data(fragment.properties, TARGET);
    var s := LastData(fragment.properties, TARGET_PATH);
    if d.Some? && |d.value| == 4 {
      FindByPhandleIff(root, U32(d.value, 0));
    }
    if s.Some? && w.split(s.value).Some? {
      PathIndicesFind(root, w.split(s.value).value);
    }
  }

  lemma TargetValid(root: Node, fragment: Node, w: World)
    ensures TargetOf(root, fragment, w).Some? ==> ValidPlace(root, TargetOf(root, fragment, w).value)
  {
    hide TargetOf;
    TargetMeans(root, fragment, w);
  }

  // ----- dt_import_fragment -----

  function ImportFragment(root: Node, fragment: Node, w: World): Option<Node> {
    match Child(fragment.children, OVERLAY)
    case None => Some(root)
    case Some(o) =>
      match TargetOf(root, fragment, w)
      case None => None
      case Some(p) => TargetValid(root, fragment, w); Some(CopyAt(root, p, o, true))
  }

  method DtImportFragment(root: Node, fragment: Node, w: World) returns (r: Option<Node>)
    ensures r == ImportFragment(root, fragment, w)
  {
    hide TargetOf, CopyAt, ValidPlace;
    var overlay := Child(fragment.children, OVERLAY);
    if overlay.None? {
      return Some(root);
    }
    var target := TargetOf(root, fragment, w);
    if target.None? {
      return None;
    }
    TargetValid(root, fragment, w);
    r := Some(CopyAt(root, target.value, overlay.value, true));
  }

  // ----- dt_apply_overlay -----

  function ImportAll(root: Node, fragments: seq<Node>, w: World): Option<Node>
    decreases fragments
  {
    if fragments == [] then Some(root)
    else match ImportFragment(root, fragments[0], w)
      case None => None
      case Some(r) => ImportAll(r, fragments[1..], w)
  }

  /** The symbols of the overlay are merged into those the tree had before the import, or
      become its symbols. */
  function ImportSymbols(before: Node, root: Node, overlay: Node): Node {
    match Child(overlay.children, SYMBOLS)
    case None => root
    case Some(s) =>
      match ChildIndex(root.children, SYMBOLS)
      case Some(i) =>
        if Child(before.children, SYMBOLS).Some?
        then root.(children := root.children[i := CopySubtree(root.children[i], s, false)])
        else root.(children := [s] + root.children)
      case None => root.(children := [s] + root.children)
  }

  /** The overlay after relocation and local fixups, and the new bound; None is an error. */
  function Relocate(base: nat, overlay: Node): Option<(Node, nat)> {
    var (moved, newMax) := AdjustAll(overlay, base);
    if newMax == 0 then None
    else match Child(moved.children, LOCAL_FIXUPS)
      case None => Some((moved, newMax))
      case Some(fix) =>
        match FixupLocals(moved, fix, base)
        case None => None
        case Some(fixed) => Some((fixed, newMax))
  }

  /** Something outside the overlay decides strings or words in it: there are external fixups, or
      symbols and a fragment that is placed by path. */
  predicate NeedsWorld(overlay: Node) {
    || Child(overlay.children, FIXUPS).Some?
    || (Child(overlay.children, SYMBOLS).Some?
        && exists i :: 0 <= i < |overlay.children| && LastData(overlay.children[i].properties, TARGET_PATH).Some?)
  }

  /** The relocated overlay as it is imported.  External fixups need symbols in the tree. */
  function Resolve(root: Node, overlay: Node, w: World): Option<Node> {
    if Child(overlay.children, FIXUPS).Some? && Child(root.children, SYMBOLS).None? then None
    else if NeedsWorld(overlay) then w.external(overlay)
    else Some(overlay)
  }

  /** Relocation, local fixups and external fixups, with the new bound. */
  function Prepare(t: DeviceTree, overlay: Node, w: World): Option<(Node, nat)> {
    match Relocate(t.maxPhandle, overlay)
    case None => None
    case Some((fixed, newMax)) =>
      match Resolve(t.root, fixed, w)
      case None => None
      case Some(ready) => Some((ready, newMax))
  }

  /** dt_apply_overlay, from the unflattened overlay on; None stands for every error. */
  function ApplyOverlay(t: DeviceTree, overlay: Node, w: World): Option<DeviceTree> {
    match Prepare(t, overlay, w)
    case None => None
    case Some((ready, newMax)) =>
      match ImportAll(t.root, ready.children, w)
      case None => None
      case Some(root) => Some(t.(root := ImportSymbols(t.root, root, ready), maxPhandle := newMax))
  }

  /** dt_apply_overlay. */
  function ApplyBlob(t: DeviceTree, blob: Bytes, w: World): Option<DeviceTree> {
    match Unflatten(blob)
    case ATree(o) => ApplyOverlay(t, o.root, w)
    case _ => None
  }

  method DtApplyOverlay(t: DeviceTree, blob: Bytes, w: World) returns (r: Option<DeviceTree>)
    ensures r == ApplyBlob(t, blob, w)
  {
    hide ImportSymbols, ImportFragment, AdjustAll, FixupLocals, Child, Resolve, Unflatten;
    var unflattened := FdtUnflatten(blob);
    if !unflattened.ATree? {
      return None;
    }
    var overlay := unflattened.tree.root;
    var moved, newMax := DtAdjustAllPhandles(overlay, t.maxPhandle);
    if newMax == 0 {
      return None;
    }
    var fix := Child(moved.children, LOCAL_FIXUPS);
    if fix.Some? {
      var fixed := DtFixupLocals(moved, fix.value, t.maxPhandle);
      if fixed.None? {
        return None;
      }
      moved := fixed.value;
    }
    var ready := Resolve(t.root, moved, w);
    if ready.None? {
      return None;
    }
    var root := DtImportAll(t.root, ready.value.children, w);
    if root.None? {
      return None;
    }
    r := Some(t.(root := ImportSymbols(t.root, root.value, ready.value), maxPhandle := newMax));
  }

  /** The loop over the fragments. */
  method DtImportAll(root: Node, fragments: seq<Node>, w: World) returns (r: Option<Node>)
    ensures r == ImportAll(root, fragments, w)
  {
    hide ImportFragment;
    var tree := root;
    assert fragments[0..] == fragments;
    for i := 0 to |fragments|
      invariant ImportAll(tree, fragments[i..], w) == ImportAll(root, fragments, w)
    {
      assert fragments[i..][0] == fragments[i] && fragments[i..][1..] == fragments[i + 1..];
      var next := DtImportFragment(tree, fragments[i], w);
      if next.None? {
        return None;
      }
      tree := next.value;
    }
    r := Some(tree);
  }
}
