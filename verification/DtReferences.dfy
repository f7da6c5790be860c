/** Relocating an overlay keeps its internal references (src/base/device_tree.c:1098-1209,
    1471-1502). */
module DtReferences {
  import opened Common
  import opened FdtFormat
  import opened DtPhandles
  import opened DtFixups

  /** No two properties of a node and no two children of a node share a name. */
  predicate UniqueProperties(ps: seq<Property>) {
    ps != [] ==> PropertyIndex(ps[1..], ps[0].name).None? && UniqueProperties(ps[1..])
  }

  predicate UniqueNames(n: Node)
    decreases n, 1
  {
    UniqueProperties(n.properties) && UniqueChildren(n.children)
  }

  predicate UniqueChildren(ns: seq<Node>)
    decreases ns, 0
  {
    ns != [] ==> ChildIndex(ns[1..], ns[0].name).None? && UniqueNames(ns[0]) && UniqueChildren(ns[1..])
  }

  // ----- indices depend on names only -----

  lemma {:induction false} SamePropertyIndex(a: seq<Property>, b: seq<Property>, name: Bytes)
    requires |a| == |b| && forall i :: 0 <= i < |a| ==> a[i].name == b[i].name
    ensures PropertyIndex(a, name) == PropertyIndex(b, name)
    decreases |a|
  {
    if a != [] {
      SamePropertyIndex(a[1..], b[1..], name);
    }
  }

  lemma {:induction false} SameChildIndex(a: seq<Node>, b: seq<Node>, name: Bytes)
    requires |a| == |b| && forall i :: 0 <= i < |a| ==> a[i].name == b[i].name
    ensures ChildIndex(a, name) == ChildIndex(b, name)
    decreases |a|
  {
    if a != [] {
      SameChildIndex(a[1..], b[1..], name);
    }
  }

  // ----- what dt_fixup_locals does to each property -----

  lemma {:induction false} FixupPropertiesData(ps: seq<Property>, fix: seq<Property>, base: nat, name: Bytes)
    requires UniqueProperties(fix) && FixupProperties(ps, fix, base).Some?
    ensures var r := FixupProperties(ps, fix, base).value;
      && (Data(fix, name).None? ==> Data(r, name) == Data(ps, name))
      && (Data(fix, name).Some? ==>
            && Data(ps, name).Some? && |Data(fix, name).value| % 4 == 0 && Data(r, name).Some?
            && Data(r, name) == AdjustSlots(Data(ps, name).value, Slots(Data(fix, name).value), base))
    decreases fix
  {
    hide AdjustSlots, Slots;
    if fix != [] {
      var f := fix[0];
      var i := PropertyIndex(ps, f.name).value;
      var d := AdjustSlots(ps[i].data, Slots(f.data), base).value;
      var ps' := ps[i := Property(ps[i].name, d)];
      SamePropertyIndex(ps, ps', name);
      FixupPropertiesData(ps', fix[1..], base, name);
    }
  }

  lemma {:induction false} FixupKeepsNames(ns: seq<Node>, fix: seq<Node>, base: nat)
    requires FixupChildren(ns, fix, base).Some?
    ensures var r := FixupChildren(ns, fix, base).value;
      forall i :: 0 <= i < |ns| ==> r[i].name == ns[i].name
    decreases fix
  {
    if fix != [] {
      var i := ChildIndex(ns, fix[0].name).value;
      var c := FixupLocals(ns[i], fix[0], base).value;
      FixupKeepsNames(ns[i := c], fix[1..], base);
    }
  }

  /** The child of a given name is fixed up by the fixup child of that name, if there is one. */
  lemma {:induction false} FixupChildrenChild(ns: seq<Node>, fix: seq<Node>, base: nat, name: Bytes)
    requires UniqueChildren(fix) && FixupChildren(ns, fix, base).Some?
    ensures var r := FixupChildren(ns, fix, base).value;
      && ChildIndex(r, name) == ChildIndex(ns, name)
      && (ChildIndex(fix, name).Some? ==>
            && ChildIndex(ns, name).Some?
            && FixupLocals(ns[ChildIndex(ns, name).value], fix[ChildIndex(fix, name).value], base)
                 == Some(r[ChildIndex(ns, name).value]))
      && (ChildIndex(fix, name).None? && ChildIndex(ns, name).Some? ==>
            r[ChildIndex(ns, name).value] == ns[ChildIndex(ns, name).value])
    decreases fix
  {
    hide FixupLocals, UniqueNames;
    FixupKeepsNames(ns, fix, base);
    SameChildIndex(ns, FixupChildren(ns, fix, base).value, name);
    if fix != [] {
      var i := ChildIndex(ns, fix[0].name).value;
      var c := FixupLocals(ns[i], fix[0], base).value;
      KeepsName(ns[i], fix[0], base);
      SameChildIndex(ns, ns[i := c], name);
      FixupChildrenChild(ns[i := c], fix[1..], base, name);
    }
  }

  lemma KeepsName(n: Node, fix: Node, base: nat)
    requires FixupLocals(n, fix, base).Some?
    ensures var r := FixupLocals(n, fix, base).value; r.name == n.name && r.phandle == n.phandle
  {
  }

  lemma {:induction false} UniqueChild(ns: seq<Node>, i: nat)
    requires UniqueChildren(ns) && i < |ns|
    ensures UniqueNames(ns[i])
    decreases i
  {
    if i > 0 {
      UniqueChild(ns[1..], i - 1);
    }
  }

  /** Every property the fixups list is changed slot by slot, every other property is kept. */
  lemma {:induction false} FixupLookup(n: Node, fix: Node, base: nat, path: seq<Bytes>, name: Bytes)
    requires UniqueNames(fix) && FixupLocals(n, fix, base).Some?
    ensures var r := FixupLocals(n, fix, base).value;
      && (Lookup(fix, path, name).None? ==> Lookup(r, path, name) == Lookup(n, path, name))
      && (Lookup(fix, path, name).Some? ==>
            && Lookup(n, path, name).Some? && Lookup(r, path, name).Some?
            && |Lookup(fix, path, name).value| % 4 == 0
            && Lookup(r, path, name)
               == AdjustSlots(Lookup(n, path, name).value, Slots(Lookup(fix, path, name).value), base))
    decreases path
  {
    hide AdjustSlots, Slots, Data, FixupProperties, UniqueProperties, FixupChildren, UniqueChildren;
    var r := FixupLocals(n, fix, base).value;
    if path == [] {
      FixupPropertiesData(n.properties, fix.properties, base, name);
    } else {
      FixupChildrenChild(n.children, fix.children, base, path[0]);
      var i, k := ChildIndex(n.children, path[0]), ChildIndex(fix.children, path[0]);
      if k.Some? {
        UniqueChild(fix.children, k.value);
        FixupLookup(n.children[i.value], fix.children[k.value], base, path[1..], name);
      }
    }
  }

  // ----- which node a phandle names -----

  /** Same names and phandles, node by node. */
  predicate SameShape(a: Node, b: Node)
    decreases a, 1
  {
    a.name == b.name && a.phandle == b.phandle && SameShapes(a.children, b.children)
  }

  predicate SameShapes(a: seq<Node>, b: seq<Node>)
    decreases a, 0
  {
    |a| == |b| && (a != [] ==> SameShape(a[0], b[0]) && SameShapes(a[1..], b[1..]))
  }

  lemma {:induction false} ShapeReflexive(a: Node)
    ensures SameShape(a, a)
    decreases a, 1
  {
    ShapesReflexive(a.children);
  }

  lemma {:induction false} ShapesReflexive(a: seq<Node>)
    ensures SameShapes(a, a)
    decreases a, 0
  {
    if a != [] {
      ShapeReflexive(a[0]);
      ShapesReflexive(a[1..]);
    }
  }

  lemma {:induction false} ShapeTransitive(a: Node, b: Node, c: Node)
    requires SameShape(a, b) && SameShape(b, c)
    ensures SameShape(a, c)
    decreases a, 1
  {
    ShapesTransitive(a.children, b.children, c.children);
  }

  lemma {:induction false} ShapesTransitive(a: seq<Node>, b: seq<Node>, c: seq<Node>)
    requires SameShapes(a, b) && SameShapes(b, c)
    ensures SameShapes(a, c)
    decreases a, 0
  {
    if a != [] {
      ShapeTransitive(a[0], b[0], c[0]);
      ShapesTransitive(a[1..], b[1..], c[1..]);
    }
  }

  lemma {:induction false} ShapesUpdate(ns: seq<Node>, i: nat, c: Node)
    requires i < |ns| && SameShape(ns[i], c)
    ensures SameShapes(ns, ns[i := c])
    decreases i
  {
    if i == 0 {
      ShapesReflexive(ns[1..]);
      assert ns[0 := c][1..] == ns[1..];
    } else {
      ShapeReflexive(ns[0]);
      assert ns[i := c][1..] == ns[1..][i - 1 := c];
      ShapesUpdate(ns[1..], i - 1, c);
    }
  }

  lemma {:induction false} FixupShape(n: Node, fix: Node, base: nat)
    requires FixupLocals(n, fix, base).Some?
    ensures SameShape(n, FixupLocals(n, fix, base).value)
    decreases fix, 1
  {
    FixupShapes(n.children, fix.children, base);
  }

  lemma {:induction false} FixupShapes(ns: seq<Node>, fix: seq<Node>, base: nat)
    requires FixupChildren(ns, fix, base).Some?
    ensures SameShapes(ns, FixupChildren(ns, fix, base).value)
    decreases fix, 0
  {
    hide FixupLocals, SameShape;
    if fix == [] {
      ShapesReflexive(ns);
    } else {
      var i := ChildIndex(ns, fix[0].name).value;
      var c := FixupLocals(ns[i], fix[0], base).value;
      FixupShape(ns[i], fix[0], base);
      ShapesUpdate(ns, i, c);
      FixupShapes(ns[i := c], fix[1..], base);
      ShapesTransitive(ns, ns[i := c], FixupChildren(ns, fix, base).value);
    }
  }

  lemma {:induction false} ShapeFind(a: Node, b: Node, phandle: nat)
    requires SameShape(a, b)
    ensures FindByPhandle(a, phandle) == FindByPhandle(b, phandle)
    decreases a, 1
  {
    ShapesFind(a.children, b.children, phandle, 0);
  }

  lemma {:induction false} ShapesFind(a: seq<Node>, b: seq<Node>, phandle: nat, i: nat)
    requires SameShapes(a, b)
    ensures FindAmong(a, phandle, i) == FindAmong(b, phandle, i)
    decreases a, 0
  {
    hide SameShape, FindByPhandle;
    if a != [] {
      ShapeFind(a[0], b[0], phandle);
      ShapesFind(a[1..], b[1..], phandle, i + 1);
    }
  }

  lemma {:induction false} ShiftFind(n: Node, base: nat, phandle: nat)
    requires phandle > 0
    ensures FindByPhandle(Shift(n, base), phandle + base) == FindByPhandle(n, phandle)
    decreases n, 1
  {
    ShiftFindAmong(n.children, base, phandle, 0);
  }

  lemma {:induction false} ShiftFindAmong(ns: seq<Node>, base: nat, phandle: nat, i: nat)
    requires phandle > 0
    ensures FindAmong(ShiftAll(ns, base), phandle + base, i) == FindAmong(ns, phandle, i)
    decreases ns, 0
  {
    hide Shift, FindByPhandle;
    if ns != [] {
      ShiftFind(ns[0], base, phandle);
      ShiftFindAmong(ns[1..], base, phandle, i + 1);
      assert ShiftAll(ns, base)[1..] == ShiftAll(ns[1..], base);
    }
  }

  // ----- properties under relocation -----

  lemma {:induction false} ShiftedNames(ps: seq<Property>, base: nat)
    ensures |ShiftProperties(ps, base)| == |ps|
    ensures forall i :: 0 <= i < |ps| ==> ShiftProperties(ps, base)[i] == ShiftProperty(ps[i], base)
    ensures forall i :: 0 <= i < |ps| ==> ShiftProperties(ps, base)[i].name == ps[i].name
    decreases ps
  {
    hide IsPhandle;
    if ps != [] {
      ShiftedNames(ps[1..], base);
    }
  }

  lemma {:induction false} ShiftedNodes(ns: seq<Node>, base: nat)
    ensures |ShiftAll(ns, base)| == |ns|
    ensures forall i :: 0 <= i < |ns| ==> ShiftAll(ns, base)[i] == Shift(ns[i], base)
    decreases ns
  {
    hide Shift;
    if ns != [] {
      ShiftedNodes(ns[1..], base);
    }
  }

  predicate PhandleName(name: Bytes) {
    IsPhandle(Property(name, []))
  }

  lemma {:induction false} ShiftLookup(n: Node, base: nat, path: seq<Bytes>, name: Bytes)
    requires !PhandleName(name)
    ensures Lookup(Shift(n, base), path, name) == Lookup(n, path, name)
    decreases path
  {
    var s := Shift(n, base);
    if path == [] {
      ShiftedNames(n.properties, base);
      SamePropertyIndex(n.properties, s.properties, name);
    } else {
      ShiftedNodes(n.children, base);
      SameChildIndex(n.children, s.children, path[0]);
      var i := ChildIndex(n.children, path[0]);
      if i.Some? {
        ShiftLookup(n.children[i.value], base, path[1..], name);
      }
    }
  }

  /** A word listed once in the local fixups names the same overlay node after relocation as
      before, whatever the other slots of the property are: both the word and the phandle of the
      node have moved by base. */
  lemma ReferenceKept(root: Node, fix: Node, base: nat, path: seq<Bytes>, name: Bytes, k: nat)
    requires PhandleOk(root) && NodeFits(root, base) && UniqueNames(fix) && !PhandleName(name)
    requires FixupLocals(AdjustAll(root, base).0, fix, base).Some?
    requires Lookup(root, path, name).Some? && Lookup(fix, path, name).Some?
    requires |Lookup(fix, path, name).value| % 4 == 0
    requires var slots := Slots(Lookup(fix, path, name).value);
      ListedOnce(Lookup(root, path, name).value, slots, base, k)
    ensures var after := FixupLocals(AdjustAll(root, base).0, fix, base).value;
      var slot := Slots(Lookup(fix, path, name).value)[k];
      var v := U32(Lookup(root, path, name).value, slot);
      && Lookup(after, path, name).Some? && slot + 4 <= |Lookup(after, path, name).value|
      && U32(Lookup(after, path, name).value, slot) == v + base
      && FindByPhandle(after, v + base) == FindByPhandle(root, v)
  {
    hide PhandleOk, NodeFits, UniqueNames, Lookup, AdjustSlots, Slots, FixupLocals, Shift, AdjustAll, U32,
         SameShape, FindByPhandle, PhandleName;
    AdjustAllShifts(root, base);
    var moved := Shift(root, base);
    var after := FixupLocals(moved, fix, base).value;
    var slots := Slots(Lookup(fix, path, name).value);
    var d := Lookup(root, path, name).value;
    ShiftLookup(root, base, path, name);
    FixupLookup(moved, fix, base, path, name);
    SlotMoves(d, slots, base, k);
    FixupShape(moved, fix, base);
    ShapeFind(moved, after, U32(d, slots[k]) + base);
    ShiftFind(root, base, U32(d, slots[k]));
  }
}
