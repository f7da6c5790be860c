/** When an overlay applies (src/base/device_tree.c:1098-1209, 1417-1544). */
module DtApplies {
  import opened Common
  import opened FdtFormat
  import opened DtPhandles
  import opened DtFixups
  import opened DtReferences
  import opened DtCopy
  import opened DtPlaces
  import opened DtNames
  import opened DtOverlay
  import opened DtImport

  // ----- the fixups of one property -----

  /** The word at `off` can be moved by base. */
  predicate UsableAt(d: Bytes, off: nat, base: nat) {
    off + 4 <= |d| && Usable(d[off..off + 4], base)
  }

  lemma AdjustAt(d: Bytes, base: nat, off: nat)
    ensures AdjustPhandle(d, base, off).1 > 0 <==> UsableAt(d, off, base)
  {
    hide Put32, BigEndian;
    if off + 4 <= |d| {
      assert d[off..off + 4][0..4] == d[off..off + 4];
    }
  }

  predicate Disjoint(slots: seq<nat>) {
    forall i, j :: 0 <= i < j < |slots| ==> slots[i] + 4 <= slots[j] || slots[j] + 4 <= slots[i]
  }

  /** Listed words that do not overlap: all of them have to be usable as they stand. */
  lemma {:induction false} SlotsIff(d: Bytes, slots: seq<nat>, base: nat)
    requires Disjoint(slots)
    ensures AdjustSlots(d, slots, base).Some? <==> forall k :: 0 <= k < |slots| ==> UsableAt(d, slots[k], base)
    decreases slots
  {
    hide UsableAt, AdjustPhandle;
    if slots != [] {
      var (d', w) := AdjustPhandle(d, base, slots[0]);
      var rest := slots[1..];
      AdjustAt(d, base, slots[0]);
      assert forall i :: 0 <= i < |rest| ==> rest[i] == slots[i + 1];
      if w != 0 {
        SlotsIff(d', rest, base);
        forall i | 0 <= i < |rest| ensures UsableAt(d', rest[i], base) <==> UsableAt(d, slots[i + 1], base) {
          UsableStays(d, base, slots[0], slots[i + 1]);
        }
        assert forall k :: 0 < k < |slots| ==> slots[k] == rest[k - 1];
      }
    }
  }

  lemma UsableStays(d: Bytes, base: nat, off: nat, o: nat)
    requires o + 4 <= off || off + 4 <= o
    ensures UsableAt(AdjustPhandle(d, base, off).0, o, base) <==> UsableAt(d, o, base)
  {
    hide AdjustPhandle, BigEndian;
    AdjustSize(d, base, off);
    if o + 4 <= |d| {
      AdjustFrame(d, base, off, o);
      var d' := AdjustPhandle(d, base, off).0;
      assert d[o..o + 4][0..4] == d[o..o + 4] && d'[o..o + 4][0..4] == d'[o..o + 4];
    }
  }

  lemma AdjustSize(d: Bytes, base: nat, off: nat)
    ensures |AdjustPhandle(d, base, off).0| == |d|
  {
    hide U32, BigEndian;
  }

  // ----- all local fixups -----

  /** One listed property: it exists, the list is made of whole words, and each of them leads to a
      usable word when its turn comes. */
  predicate ListFits(d: Option<Bytes>, list: Bytes, base: nat) {
    d.Some? && |list| % 4 == 0 && AdjustSlots(d.value, Slots(list), base).Some?
  }

  /** Every listed node and property exists and fits. */
  ghost predicate Fixable(n: Node, fix: Node, base: nat) {
    && (forall path :: Find(fix, path).Some? ==> Find(n, path).Some?)
    && (forall path, name {:trigger Lookup(fix, path, name)} ::
          Lookup(fix, path, name).Some? ==> ListFits(Lookup(n, path, name), Lookup(fix, path, name).value, base))
  }

  ghost predicate ListsFit(ps: seq<Property>, fix: seq<Property>, base: nat) {
    forall name {:trigger Data(fix, name)} ::
      Data(fix, name).Some? ==> ListFits(Data(ps, name), Data(fix, name).value, base)
  }

  lemma {:induction false} PropertiesIff(ps: seq<Property>, fix: seq<Property>, base: nat)
    requires UniqueProperties(fix)
    ensures FixupProperties(ps, fix, base).Some? <==> ListsFit(ps, fix, base)
    decreases fix
  {
    hide AdjustSlots, Slots, PropertyIndex, ListsFit;
    if fix == [] {
      NoLists(ps, base);
    } else {
      var f := fix[0];
      FirstList(ps, ps, fix, base);
      var i := PropertyIndex(ps, f.name);
      if i.Some? && |f.data| % 4 == 0 && AdjustSlots(ps[i.value].data, Slots(f.data), base).Some? {
        var p := Property(ps[i.value].name, AdjustSlots(ps[i.value].data, Slots(f.data), base).value);
        var ps' := ps[i.value := p];
        forall name | name != f.name ensures Data(ps', name) == Data(ps, name) {
          OtherData(ps, i.value, p, name);
        }
        FirstList(ps, ps', fix, base);
        PropertiesIff(ps', fix[1..], base);
      }
    }
  }

  lemma NoLists(ps: seq<Property>, base: nat)
    ensures ListsFit(ps, [], base)
  {
  }

  /** The first list, and the others against properties in which only that one may have changed. */
  lemma FirstList(ps: seq<Property>, ps': seq<Property>, fix: seq<Property>, base: nat)
    requires fix != [] && UniqueProperties(fix)
    requires forall name | name != fix[0].name :: Data(ps', name) == Data(ps, name)
    ensures ListsFit(ps, fix, base)
       <==> ListFits(Data(ps, fix[0].name), fix[0].data, base) && ListsFit(ps', fix[1..], base)
  {
    hide ListFits, Data;
    DataCons(fix);
    if ListFits(Data(ps, fix[0].name), fix[0].data, base) && ListsFit(ps', fix[1..], base) {
      forall name | Data(fix, name).Some? ensures ListFits(Data(ps, name), Data(fix, name).value, base) {
        if name != fix[0].name {
          assert Data(fix[1..], name) == Data(fix, name);
        }
      }
    }
    if ListsFit(ps, fix, base) {
      assert Data(fix, fix[0].name) == Some(fix[0].data);
      forall name | Data(fix[1..], name).Some? ensures ListFits(Data(ps', name), Data(fix[1..], name).value, base) {
        assert Data(fix, name) == Data(fix[1..], name);
      }
    }
  }

  lemma DataCons(ps: seq<Property>)
    requires ps != [] && UniqueProperties(ps)
    ensures forall name {:trigger Data(ps, name)} ::
              Data(ps, name) == if name == ps[0].name then Some(ps[0].data) else Data(ps[1..], name)
    ensures Data(ps[1..], ps[0].name).None?
  {
  }

  lemma OtherData(ps: seq<Property>, i: nat, p: Property, name: Bytes)
    requires i < |ps| && p.name == ps[i].name && name != p.name
    ensures Data(ps[i := p], name) == Data(ps, name)
  {
    SamePropertyIndex(ps, ps[i := p], name);
  }

  /** One level: the properties fit, and every listed child exists and its fixups succeed. */
  lemma {:induction false} ChildrenIff(ns: seq<Node>, fix: seq<Node>, base: nat)
    requires UniqueChildren(fix)
    ensures FixupChildren(ns, fix, base).Some?
       <==> forall name {:trigger Child(fix, name)} :: Child(fix, name).Some? ==>
              Child(ns, name).Some? && FixupLocals(Child(ns, name).value, Child(fix, name).value, base).Some?
    decreases fix
  {
    hide FixupLocals, UniqueNames;
    if fix != [] {
      var f, rest := fix[0], fix[1..];
      assert fix == [f] + rest;
      forall name ensures Child(fix, name) == if f.name == name then Some(f) else Child(rest, name) {
        OtherChild(f, rest, name);
      }
      OnlyOne(f, rest, f.name);
      var i := ChildIndex(ns, f.name);
      if i.Some? && FixupLocals(ns[i.value], f, base).Some? {
        var c := FixupLocals(ns[i.value], f, base).value;
        KeepsName(ns[i.value], f, base);
        ChildrenIff(ns[i.value := c], rest, base);
        forall name | name != f.name ensures Child(ns[i.value := c], name) == Child(ns, name) {
          SameChildIndex(ns, ns[i.value := c], name);
        }
      } else {
        assert Child(fix, f.name) == Some(f);
      }
    }
  }

  /** dt_fixup_locals succeeds exactly if every listed node and property exists and fits. */
  lemma {:induction false} FixupIff(n: Node, fix: Node, base: nat)
    requires UniqueNames(fix)
    ensures FixupLocals(n, fix, base).Some? <==> Fixable(n, fix, base)
    decreases fix, 1
  {
    hide UniqueProperties, UniqueChildren, ListFits, FixupProperties, FixupChildren, Fixable;
    UniqueParts(fix);
    PropertiesIff(n.properties, fix.properties, base);
    ChildrenIff(n.children, fix.children, base);
    forall name | Child(fix.children, name).Some? && Child(n.children, name).Some?
      ensures FixupLocals(Child(n.children, name).value, Child(fix.children, name).value, base).Some?
         <==> Fixable(Child(n.children, name).value, Child(fix.children, name).value, base)
    {
      ChildSmaller(fix, name);
      FixupIff(Child(n.children, name).value, Child(fix.children, name).value, base);
    }
    FixableLevel(n, fix, base);
  }

  lemma ChildSmaller(n: Node, name: Bytes)
    requires UniqueNames(n) && Child(n.children, name).Some?
    ensures Child(n.children, name).value < n && UniqueNames(Child(n.children, name).value)
  {
    UniqueParts(n);
    ChildUnique(n.children, name);
  }

  ghost predicate KidsFixable(ns: seq<Node>, fix: seq<Node>, base: nat) {
    forall name {:trigger Child(fix, name)} ::
      Child(fix, name).Some? ==> Child(ns, name).Some? && Fixable(Child(ns, name).value, Child(fix, name).value, base)
  }

  lemma FixableLevel(n: Node, fix: Node, base: nat)
    ensures Fixable(n, fix, base)
       <==> ListsFit(n.properties, fix.properties, base) && KidsFixable(n.children, fix.children, base)
  {
    if Fixable(n, fix, base) {
      FixableDown(n, fix, base);
    }
    if ListsFit(n.properties, fix.properties, base) && KidsFixable(n.children, fix.children, base) {
      FixableUp(n, fix, base);
    }
  }

  lemma FixableDown(n: Node, fix: Node, base: nat)
    requires Fixable(n, fix, base)
    ensures ListsFit(n.properties, fix.properties, base) && KidsFixable(n.children, fix.children, base)
  {
    hide Find, ListFits, Data, Child;
    HereIsSelf(n);
    HereIsSelf(fix);
    forall name | Data(fix.properties, name).Some?
      ensures ListFits(Data(n.properties, name), Data(fix.properties, name).value, base)
    {
      assert Lookup(fix, [], name) == Data(fix.properties, name);
    }
    forall name | Child(fix.children, name).Some?
      ensures Child(n.children, name).Some?
      ensures Fixable(Child(n.children, name).value, Child(fix.children, name).value, base)
    {
      FindOne(fix, name);
      FindOne(n, name);
      assert Find(fix, [name]).Some?;
      var c, f := Child(n.children, name).value, Child(fix.children, name).value;
      forall path ensures Find(f, path) == Find(fix, [name] + path) && Find(c, path) == Find(n, [name] + path) {
        FindChild(fix, [name] + path);
        FindChild(n, [name] + path);
        assert ([name] + path)[1..] == path;
      }
      forall path, p | Lookup(f, path, p).Some? ensures ListFits(Lookup(c, path, p), Lookup(f, path, p).value, base) {
        assert Lookup(fix, [name] + path, p) == Lookup(f, path, p);
      }
    }
  }

  lemma FixableUp(n: Node, fix: Node, base: nat)
    requires ListsFit(n.properties, fix.properties, base) && KidsFixable(n.children, fix.children, base)
    ensures Fixable(n, fix, base)
  {
    hide Find, ListFits, Data, Child;
    HereIsSelf(n);
    HereIsSelf(fix);
    forall path | Find(fix, path).Some?
      ensures Find(n, path).Some?
      ensures forall name :: Lookup(fix, path, name).Some? ==>
                ListFits(Lookup(n, path, name), Lookup(fix, path, name).value, base)
    {
      if path != [] {
        FindChild(fix, path);
        FindChild(n, path);
        var c, f := Child(n.children, path[0]).value, Child(fix.children, path[0]).value;
        forall name | Lookup(fix, path, name).Some?
          ensures ListFits(Lookup(n, path, name), Lookup(fix, path, name).value, base)
        {
          assert Lookup(f, path[1..], name) == Lookup(fix, path, name);
        }
      }
    }
  }

  // ----- relocation -----

  /** The root of the overlay has no phandle of its own that cannot be moved. */
  predicate RootUsable(n: Node, base: nat) {
    forall i :: 0 <= i < |n.properties| && IsPhandle(n.properties[i]) ==> Usable(n.properties[i].data, base)
  }

  /** Relocation and local fixups succeed. */
  ghost predicate Relocatable(base: nat, overlay: Node) {
    var moved := AdjustAll(overlay, base).0;
    var fix := Child(moved.children, LOCAL_FIXUPS);
    RootUsable(overlay, base) && (fix.Some? ==> Fixable(moved, fix.value, base))
  }

  lemma RelocateIff(base: nat, overlay: Node)
    requires UniqueNames(overlay)
    ensures Relocate(base, overlay).Some? <==> Relocatable(base, overlay)
  {
    hide AdjustAll, FixupLocals, Fixable, UniqueNames, Usable, IsPhandle, SameNames;
    ErrorIffOwn(overlay, base);
    AdjustNames(overlay, base);
    var moved := AdjustAll(overlay, base).0;
    SameNamesUnique(overlay, moved);
    var fix := Child(moved.children, LOCAL_FIXUPS);
    if fix.Some? {
      ChildSmaller(moved, LOCAL_FIXUPS);
      FixupIff(moved, fix.value, base);
    }
  }

  /** Relocation keeps every child of the root under its name. */
  lemma RelocatedChild(base: nat, overlay: Node, name: Bytes)
    requires Relocate(base, overlay).Some?
    ensures Child(Relocate(base, overlay).value.0.children, name).Some? <==> Child(overlay.children, name).Some?
  {
    hide AdjustAll, FixupLocals, SameNames;
    AdjustNames(overlay, base);
    var moved := AdjustAll(overlay, base).0;
    SameNamesChild(overlay, moved, name);
    var fix := Child(moved.children, LOCAL_FIXUPS);
    if fix.Some? {
      FixupNames(moved, fix.value, base);
      SameNamesChild(moved, FixupLocals(moved, fix.value, base).value, name);
    }
  }

  lemma SameNamesChild(a: Node, b: Node, name: Bytes)
    requires SameNames(a, b)
    ensures Child(a.children, name).Some? <==> Child(b.children, name).Some?
  {
    SameNamesIndex(a.children, b.children);
    SameChildIndex(a.children, b.children, name);
  }

  // ----- external fixups -----

  /** External fixups need symbols in the tree, and whatever is left to the outside has to
      succeed. */
  lemma ResolveIff(root: Node, overlay: Node, w: World)
    ensures Resolve(root, overlay, w).Some?
       <==> && (Child(overlay.children, FIXUPS).Some? ==> Child(root.children, SYMBOLS).Some?)
            && (NeedsWorld(overlay) ==> w.external(overlay).Some?)
    ensures Child(overlay.children, FIXUPS).Some? ==> NeedsWorld(overlay)
    ensures Resolve(root, overlay, w).Some? ==>
              Resolve(root, overlay, w).value == if NeedsWorld(overlay) then w.external(overlay).value else overlay
  {
  }

  // ----- the fragments -----

  /** Every fragment with an __overlay__ finds its target in the tree that the fragments before it
      have left. */
  ghost predicate Targeted(root: Node, fs: seq<Node>, w: World) {
    forall j :: 0 <= j < |fs| && Child(fs[j].children, OVERLAY).Some? ==>
      FindsTarget(root, fs, w, j)
  }

  predicate FindsTarget(root: Node, fs: seq<Node>, w: World, j: nat)
    requires j < |fs|
  {
    var r := ImportAll(root, fs[..j], w);
    r.Some? ==> TargetOf(r.value, fs[j], w).Some?
  }

  lemma {:induction false} ImportsIff(root: Node, fs: seq<Node>, w: World)
    ensures ImportAll(root, fs, w).Some? <==> Targeted(root, fs, w)
    decreases fs
  {
    hide TargetOf, ImportAll, CopyAt, ValidPlace, Child;
    if fs == [] {
      ImportNothing(root, w);
    } else {
      var n := |fs| - 1;
      var front := fs[..n];
      ImportAllSnoc(root, fs, w);
      ImportsIff(root, front, w);
      forall j | 0 <= j < n ensures front[j] == fs[j] && front[..j] == fs[..j] {
      }
      var r := ImportAll(root, front, w);
      if r.Some? {
        ImportIff(r.value, fs[n], w);
        assert Targeted(root, front, w);
      } else {
        var j :| 0 <= j < n && Child(front[j].children, OVERLAY).Some? && !FindsTarget(root, front, w, j);
        assert !FindsTarget(root, fs, w, j);
      }
    }
  }

  lemma ImportIff(root: Node, fragment: Node, w: World)
    ensures ImportFragment(root, fragment, w).Some?
       <==> Child(fragment.children, OVERLAY).None? || TargetOf(root, fragment, w).Some?
  {
    hide TargetOf, CopyAt, ValidPlace;
  }

  // ----- the whole overlay -----

  /** dt_apply_overlay succeeds exactly if no phandle of the overlay's root is reserved, every node
      and property in the local fixups exists with usable words, there are no external fixups or
      the tree has symbols and they succeed, and every fragment finds its target. */
  lemma AppliesIff(t: DeviceTree, overlay: Node, w: World)
    requires UniqueNames(overlay)
    ensures ApplyOverlay(t, overlay, w).Some?
       <==> && Relocatable(t.maxPhandle, overlay) && Relocate(t.maxPhandle, overlay).Some?
            && (Child(overlay.children, FIXUPS).Some? ==> Child(t.root.children, SYMBOLS).Some?)
            && var fixed := Relocate(t.maxPhandle, overlay).value.0;
               var ready := if NeedsWorld(fixed) then w.external(fixed) else Some(fixed);
               ready.Some? && Targeted(t.root, ready.value.children, w)
  {
    hide Relocatable, Relocate, NeedsWorld, ImportAll, Targeted, UniqueNames, ImportSymbols, Child;
    RelocateIff(t.maxPhandle, overlay);
    if Relocate(t.maxPhandle, overlay).Some? {
      var fixed := Relocate(t.maxPhandle, overlay).value.0;
      RelocatedChild(t.maxPhandle, overlay, FIXUPS);
      ResolveIff(t.root, fixed, w);
      if Resolve(t.root, fixed, w).Some? {
        ImportsIff(t.root, Resolve(t.root, fixed, w).value.children, w);
      }
    }
  }

  /** With external fixups what is imported is their result on the relocated overlay. */
  lemma PreparedExternal(t: DeviceTree, overlay: Node, w: World)
    requires Prepare(t, overlay, w).Some? && Child(overlay.children, FIXUPS).Some?
    ensures w.external(Relocate(t.maxPhandle, overlay).value.0) == Some(Prepare(t, overlay, w).value.0)
  {
    hide Relocate, NeedsWorld, Child;
    RelocatedChild(t.maxPhandle, overlay, FIXUPS);
    ResolveIff(t.root, Relocate(t.maxPhandle, overlay).value.0, w);
  }

  /** Without external fixups, and without symbols or without fragments placed by path, it is the
      relocated overlay itself. */
  lemma PreparedAsIs(t: DeviceTree, overlay: Node, w: World)
    requires Prepare(t, overlay, w).Some? && Child(overlay.children, FIXUPS).None?
    requires var fixed := Relocate(t.maxPhandle, overlay).value.0;
      || Child(overlay.children, SYMBOLS).None?
      || forall i, j :: 0 <= i < |fixed.children| && 0 <= j < |fixed.children[i].properties| ==>
           fixed.children[i].properties[j].name != TARGET_PATH
    ensures Prepare(t, overlay, w).value.0 == Relocate(t.maxPhandle, overlay).value.0
  {
    hide Relocate, Child, LastData;
    var fixed := Relocate(t.maxPhandle, overlay).value.0;
    RelocatedChild(t.maxPhandle, overlay, FIXUPS);
    RelocatedChild(t.maxPhandle, overlay, SYMBOLS);
    forall i | 0 <= i < |fixed.children| && LastData(fixed.children[i].properties, TARGET_PATH).Some?
      ensures exists j :: 0 <= j < |fixed.children[i].properties| && fixed.children[i].properties[j].name == TARGET_PATH
    {
      LastDataIs(fixed.children[i].properties, TARGET_PATH);
    }
  }

  /** With symbols and a fragment placed by path, the names of the symbols are taken from outside. */
  lemma PreparedSymbols(t: DeviceTree, overlay: Node, w: World, i: nat, j: nat)
    requires Prepare(t, overlay, w).Some? && Child(overlay.children, SYMBOLS).Some?
    requires var fixed := Relocate(t.maxPhandle, overlay).value.0;
      && i < |fixed.children| && j < |fixed.children[i].properties|
      && fixed.children[i].properties[j].name == TARGET_PATH
    ensures w.external(Relocate(t.maxPhandle, overlay).value.0) == Some(Prepare(t, overlay, w).value.0)
  {
    hide Relocate, Child, LastData;
    var fixed := Relocate(t.maxPhandle, overlay).value.0;
    RelocatedChild(t.maxPhandle, overlay, SYMBOLS);
    LastDataIs(fixed.children[i].properties, TARGET_PATH);
    ResolveIff(t.root, fixed, w);
  }
}
