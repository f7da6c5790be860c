/** Relocation and fixups leave all names in place (src/base/device_tree.c:1098-1209). */
module DtNames {
  import opened FdtFormat
  import opened DtPhandles
  import opened DtFixups
  import opened DtReferences
  import opened DtCopy

  /** Same names of nodes and properties, in the same order; phandles and data may differ. */
  predicate SameNames(a: Node, b: Node)
    decreases a, 1
  {
    a.name == b.name && SamePropertyNames(a.properties, b.properties) && SameNamesAll(a.children, b.children)
  }

  predicate SameNamesAll(a: seq<Node>, b: seq<Node>)
    decreases a, 0
  {
    |a| == |b| && (a != [] ==> SameNames(a[0], b[0]) && SameNamesAll(a[1..], b[1..]))
  }

  predicate SamePropertyNames(a: seq<Property>, b: seq<Property>) {
    |a| == |b| && forall i :: 0 <= i < |a| ==> a[i].name == b[i].name
  }

  lemma {:induction false} SameNamesUnique(a: Node, b: Node)
    requires SameNames(a, b) && UniqueNames(a)
    ensures UniqueNames(b)
    decreases a, 1
  {
    hide UniqueProperties;
    UniqueByNames(a.properties, b.properties);
    SameNamesUniqueAll(a.children, b.children);
  }

  lemma {:induction false} SameNamesUniqueAll(a: seq<Node>, b: seq<Node>)
    requires SameNamesAll(a, b) && UniqueChildren(a)
    ensures UniqueChildren(b)
    decreases a, 0
  {
    hide SameNames, UniqueNames;
    if a != [] {
      SameNamesUnique(a[0], b[0]);
      SameNamesUniqueAll(a[1..], b[1..]);
      SameNamesIndex(a, b);
      SameNamesName(a[0], b[0]);
      SameNamesIndex(a[1..], b[1..]);
      SameChildIndex(a[1..], b[1..], a[0].name);
    }
  }

  lemma SameNamesName(a: Node, b: Node)
    requires SameNames(a, b)
    ensures a.name == b.name
  {
  }

  lemma {:induction false} SameNamesIndex(a: seq<Node>, b: seq<Node>)
    requires SameNamesAll(a, b)
    ensures |a| == |b| && forall i :: 0 <= i < |a| ==> a[i].name == b[i].name
    decreases a
  {
    hide SameNames;
    if a != [] {
      SameNamesName(a[0], b[0]);
      SameNamesIndex(a[1..], b[1..]);
      forall i | 0 <= i < |a| ensures a[i].name == b[i].name {
        if i > 0 {
          assert a[i] == a[1..][i - 1] && b[i] == b[1..][i - 1];
        }
      }
    }
  }

  lemma {:induction false} SameNamesReflexive(a: Node)
    ensures SameNames(a, a)
    decreases a, 1
  {
    SameNamesAllReflexive(a.children);
  }

  lemma {:induction false} SameNamesAllReflexive(a: seq<Node>)
    ensures SameNamesAll(a, a)
    decreases a, 0
  {
    if a != [] {
      SameNamesReflexive(a[0]);
      SameNamesAllReflexive(a[1..]);
    }
  }

  lemma {:induction false} AdjustNames(n: Node, base: nat)
    ensures SameNames(n, AdjustAll(n, base).0)
    decreases n, 1
  {
    hide AdjustProperties, SamePropertyNames;
    AdjustPropertyNames(n.properties, n.phandle, base, Max(base, 1));
    var a := AdjustProperties(n.properties, n.phandle, base, Max(base, 1));
    if a.newMax == 0 {
      SameNamesAllReflexive(n.children);
    } else {
      AdjustChildrenNames(n.children, base, a.newMax);
    }
  }

  lemma {:induction false} AdjustChildrenNames(ns: seq<Node>, base: nat, newMax: nat)
    ensures SameNamesAll(ns, AdjustChildren(ns, base, newMax).0)
    decreases ns, 0
  {
    hide AdjustAll, SameNames;
    if ns != [] {
      AdjustNames(ns[0], base);
      AdjustChildrenNames(ns[1..], base, Max(newMax, AdjustAll(ns[0], base).1));
      assert AdjustChildren(ns, base, newMax).0[1..]
          == AdjustChildren(ns[1..], base, Max(newMax, AdjustAll(ns[0], base).1)).0;
    }
  }

  lemma {:induction false} AdjustPropertyNames(ps: seq<Property>, phandle: nat, base: nat, newMax: nat)
    ensures SamePropertyNames(ps, AdjustProperties(ps, phandle, base, newMax).list)
    decreases ps
  {
    hide AdjustPhandle, IsPhandle;
    if ps != [] {
      var w := AdjustPhandle(ps[0].data, base, 0).1;
      if !IsPhandle(ps[0]) {
        AdjustPropertyNames(ps[1..], phandle, base, newMax);
      } else if w != 0 {
        AdjustPropertyNames(ps[1..], w, base, Max(newMax, w));
      }
    }
  }

  lemma {:induction false} FixupNames(n: Node, fix: Node, base: nat)
    requires FixupLocals(n, fix, base).Some?
    ensures SameNames(n, FixupLocals(n, fix, base).value)
    decreases fix, 1
  {
    hide FixupProperties, SamePropertyNames;
    FixupPropertyNames(n.properties, fix.properties, base);
    FixupChildrenNames(n.children, fix.children, base);
  }

  lemma {:induction false} FixupPropertyNames(ps: seq<Property>, fix: seq<Property>, base: nat)
    requires FixupProperties(ps, fix, base).Some?
    ensures SamePropertyNames(ps, FixupProperties(ps, fix, base).value)
    decreases fix
  {
    hide AdjustSlots, Slots;
    if fix != [] {
      var i := PropertyIndex(ps, fix[0].name).value;
      var d := AdjustSlots(ps[i].data, Slots(fix[0].data), base).value;
      FixupPropertyNames(ps[i := Property(ps[i].name, d)], fix[1..], base);
    }
  }

  lemma {:induction false} FixupChildrenNames(ns: seq<Node>, fix: seq<Node>, base: nat)
    requires FixupChildren(ns, fix, base).Some?
    ensures SameNamesAll(ns, FixupChildren(ns, fix, base).value)
    decreases fix, 0
  {
    hide FixupLocals, SameNames;
    if fix == [] {
      SameNamesAllReflexive(ns);
    } else {
      var i := ChildIndex(ns, fix[0].name).value;
      var c := FixupLocals(ns[i], fix[0], base).value;
      FixupNames(ns[i], fix[0], base);
      SameNamesUpdate(ns, i, c);
      FixupChildrenNames(ns[i := c], fix[1..], base);
      SameNamesAllTransitive(ns, ns[i := c], FixupChildren(ns, fix, base).value);
    }
  }

  lemma {:induction false} SameNamesUpdate(ns: seq<Node>, i: nat, c: Node)
    requires i < |ns| && SameNames(ns[i], c)
    ensures SameNamesAll(ns, ns[i := c])
    decreases i
  {
    hide SameNames;
    if i == 0 {
      SameNamesAllReflexive(ns[1..]);
      assert ns[0 := c][1..] == ns[1..];
    } else {
      SameNamesReflexive(ns[0]);
      assert ns[i := c][1..] == ns[1..][i - 1 := c];
      SameNamesUpdate(ns[1..], i - 1, c);
    }
  }

  lemma {:induction false} SameNamesTransitive(a: Node, b: Node, c: Node)
    requires SameNames(a, b) && SameNames(b, c)
    ensures SameNames(a, c)
    decreases a, 1
  {
    SameNamesAllTransitive(a.children, b.children, c.children);
  }

  lemma {:induction false} SameNamesAllTransitive(a: seq<Node>, b: seq<Node>, c: seq<Node>)
    requires SameNamesAll(a, b) && SameNamesAll(b, c)
    ensures SameNamesAll(a, c)
    decreases a, 0
  {
    hide SameNames;
    if a != [] {
      SameNamesTransitive(a[0], b[0], c[0]);
      SameNamesAllTransitive(a[1..], b[1..], c[1..]);
    }
  }
}
