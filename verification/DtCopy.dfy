/** Merging one subtree into another (src/base/device_tree.c:1354-1406). */
module DtCopy {
  import opened Common
  import opened FdtFormat
  import opened DtFixups
  import opened DtReferences

  const NAME: Bytes := [110, 97, 109, 101]

  /** Properties that an overlay may not bring to an existing node. */
  predicate IllegalName(name: Bytes) {
    PhandleName(name) || name == NAME
  }

  /** The loop over the properties of src; a new property goes to the front. */
  function CopyProperties(dst: seq<Property>, src: seq<Property>, upd: bool): seq<Property>
    decreases src
  {
    if src == [] then dst else CopyProperties(CopyProperty(dst, src[0], upd), src[1..], upd)
  }

  function CopyProperty(dst: seq<Property>, p: Property, upd: bool): seq<Property> {
    if IllegalName(p.name) then dst
    else match PropertyIndex(dst, p.name)
      case None => [p] + dst
      case Some(i) => if upd then dst[i := p] else dst
  }

  function CopySubtree(dst: Node, src: Node, upd: bool): Node
    decreases src, 1
  {
    dst.(properties := CopyProperties(dst.properties, src.properties, upd),
         children := CopyChildren(dst.children, src.children, upd))
  }

  /** The loop over the children of src; a new child goes to the front, whole. */
  function CopyChildren(dst: seq<Node>, src: seq<Node>, upd: bool): seq<Node>
    decreases src, 0
  {
    if src == [] then dst
    else match ChildIndex(dst, src[0].name)
      case None => CopyChildren([src[0]] + dst, src[1..], upd)
      case Some(i) => CopyChildren(dst[i := CopySubtree(dst[i], src[0], upd)], src[1..], upd)
  }

  method DtCopySubtree(dst: Node, src: Node, upd: bool) returns (r: Node)
    ensures r == CopySubtree(dst, src, upd)
    decreases src
  {
    hide IllegalName, PropertyIndex, ChildIndex;
    var ps, kids := dst.properties, dst.children;
    assert src.properties[0..] == src.properties && src.children[0..] == src.children;
    for k := 0 to |src.properties|
      invariant CopyProperties(ps, src.properties[k..], upd) == CopyProperties(dst.properties, src.properties, upd)
    {
      var p := src.properties[k];
      assert src.properties[k..][0] == p && src.properties[k..][1..] == src.properties[k + 1..];
      if IllegalName(p.name) {
        continue;
      }
      var i := PropertyIndex(ps, p.name);
      if i.None? {
        ps := [p] + ps;
      } else if upd {
        ps := ps[i.value := p];
      }
    }
    for k := 0 to |src.children|
      invariant CopyChildren(kids, src.children[k..], upd) == CopyChildren(dst.children, src.children, upd)
    {
      var c := src.children[k];
      assert src.children[k..][0] == c && src.children[k..][1..] == src.children[k + 1..];
      var i := ChildIndex(kids, c.name);
      if i.None? {
        kids := [c] + kids;
      } else {
        var m := DtCopySubtree(kids[i.value], c, upd);
        kids := kids[i.value := m];
      }
    }
    r := dst.(properties := ps, children := kids);
  }

  // ----- properties after the merge -----

  lemma CopyPropertyData(dst: seq<Property>, p: Property, upd: bool, name: Bytes)
    ensures Data(CopyProperty(dst, p, upd), name)
         == if name == p.name && !IllegalName(name) && (upd || Data(dst, name).None?) then Some(p.data)
            else Data(dst, name)
  {
    hide IllegalName;
    var i := PropertyIndex(dst, p.name);
    if i.Some? {
      SamePropertyIndex(dst, dst[i.value := p], name);
    }
  }

  lemma {:induction false} CopyPropertiesData(dst: seq<Property>, src: seq<Property>, upd: bool, name: Bytes)
    requires UniqueProperties(src)
    ensures Data(CopyProperties(dst, src, upd), name)
         == if Data(src, name).Some? && !IllegalName(name) && (upd || Data(dst, name).None?) then Data(src, name)
            else Data(dst, name)
    decreases src
  {
    hide IllegalName, CopyProperty;
    if src != [] {
      CopyPropertyData(dst, src[0], upd, name);
      CopyPropertiesData(CopyProperty(dst, src[0], upd), src[1..], upd, name);
    }
  }

  // ----- children after the merge -----

  /** A child of dst is merged with the child of src of that name, a child that only src has
      is taken over as it is. */
  lemma {:induction false} CopyChildrenChild(dst: seq<Node>, src: seq<Node>, upd: bool, name: Bytes)
    requires UniqueChildren(src)
    ensures Child(CopyChildren(dst, src, upd), name) == MergedChild(Child(dst, name), Child(src, name), upd)
    decreases src
  {
    hide CopySubtree, UniqueNames, ChildIndex;
    if src != [] {
      var c := src[0];
      var dst' := PutChild(dst, c, upd);
      PutChildChild(dst, c, upd, name);
      OtherChild(c, src[1..], name);
      assert src == [c] + src[1..];
      CopyChildrenChild(dst', src[1..], upd, name);
      OnlyOne(c, src[1..], name);
    }
  }

  function PutChild(dst: seq<Node>, c: Node, upd: bool): seq<Node> {
    match ChildIndex(dst, c.name)
    case None => [c] + dst
    case Some(i) => dst[i := CopySubtree(dst[i], c, upd)]
  }

  lemma PutChildChild(dst: seq<Node>, c: Node, upd: bool, name: Bytes)
    ensures Child(PutChild(dst, c, upd), name)
      == if c.name == name then MergedChild(Child(dst, name), Some(c), upd) else Child(dst, name)
  {
    hide CopySubtree;
    var i := ChildIndex(dst, c.name);
    if i.None? {
      OtherChild(c, dst, name);
    } else {
      CopyKeepsName(dst[i.value], c, upd);
      SameChildIndex(dst, dst[i.value := CopySubtree(dst[i.value], c, upd)], name);
    }
  }

  lemma OtherChild(c: Node, ns: seq<Node>, name: Bytes)
    ensures Child([c] + ns, name) == if c.name == name then Some(c) else Child(ns, name)
  {
    assert ([c] + ns)[1..] == ns;
  }

  lemma OnlyOne(c: Node, ns: seq<Node>, name: Bytes)
    requires UniqueChildren([c] + ns)
    ensures c.name == name ==> Child(ns, name).None?
  {
    hide ChildIndex;
  }

  lemma CopyKeepsName(dst: Node, src: Node, upd: bool)
    ensures CopySubtree(dst, src, upd).name == dst.name && CopySubtree(dst, src, upd).phandle == dst.phandle
  {
  }

  function Child(ns: seq<Node>, name: Bytes): Option<Node> {
    match ChildIndex(ns, name)
    case None => None
    case Some(i) => Some(ns[i])
  }

  function MergedChild(d: Option<Node>, s: Option<Node>, upd: bool): Option<Node> {
    if s.None? then d
    else if d.None? then s
    else Some(CopySubtree(d.value, s.value, upd))
  }

  lemma FindChild(n: Node, path: seq<Bytes>)
    requires path != []
    ensures var c := Child(n.children, path[0]);
      Find(n, path) == if c.None? then None else Find(c.value, path[1..])
  {
  }

  lemma ChildUnique(ns: seq<Node>, name: Bytes)
    requires UniqueChildren(ns)
    ensures Child(ns, name).Some? ==> UniqueNames(Child(ns, name).value)
  {
    var i := ChildIndex(ns, name);
    if i.Some? {
      UniqueChild(ns, i.value);
    }
  }

  // ----- the deep merge -----

  /** Whether the source decides what is found under `name` at `path`. */
  predicate SourceWins(dst: Node, src: Node, upd: bool, path: seq<Bytes>, name: Bytes) {
    && Lookup(src, path, name).Some?
    && !(Find(dst, path).Some? && IllegalName(name))
    && (upd || Lookup(dst, path, name).None?)
  }

  /** After the merge a property is found where the source or the destination had it, with the
      value of the source, unless updates are off and the destination had it, or it is a
      phandle or name property of a node that the destination had. */
  lemma {:induction false} DeepMerge(dst: Node, src: Node, upd: bool, path: seq<Bytes>, name: Bytes)
    requires UniqueNames(src)
    ensures Lookup(CopySubtree(dst, src, upd), path, name)
         == if SourceWins(dst, src, upd, path, name) then Lookup(src, path, name) else Lookup(dst, path, name)
    decreases path
  {
    hide IllegalName, CopyProperties, CopyChildren, Data, UniqueProperties, UniqueChildren, Child, ChildIndex, Find;
    var r := CopySubtree(dst, src, upd);
    if path == [] {
      CopyPropertiesData(dst.properties, src.properties, upd, name);
      HereIsSelf(dst);
      HereIsSelf(src);
      HereIsSelf(r);
    } else {
      CopyChildrenChild(dst.children, src.children, upd, path[0]);
      ChildUnique(src.children, path[0]);
      FindChild(r, path);
      FindChild(dst, path);
      FindChild(src, path);
      var d, s := Child(dst.children, path[0]), Child(src.children, path[0]);
      if d.Some? && s.Some? {
        DeepMerge(d.value, s.value, upd, path[1..], name);
      }
    }
  }

  lemma HereIsSelf(n: Node)
    ensures Find(n, []) == Some(n)
  {
  }

  /** A node is there after the merge exactly when one of the two trees had it. */
  lemma {:induction false} MergedNodes(dst: Node, src: Node, upd: bool, path: seq<Bytes>)
    requires UniqueNames(src)
    ensures Find(CopySubtree(dst, src, upd), path).Some? <==> Find(dst, path).Some? || Find(src, path).Some?
    decreases path
  {
    hide CopyProperties, CopyChildren, UniqueProperties, UniqueChildren, Child, ChildIndex;
    if path != [] {
      var r := CopySubtree(dst, src, upd);
      CopyChildrenChild(dst.children, src.children, upd, path[0]);
      ChildUnique(src.children, path[0]);
      FindChild(r, path);
      FindChild(dst, path);
      FindChild(src, path);
      var d, s := Child(dst.children, path[0]), Child(src.children, path[0]);
      if d.Some? && s.Some? {
        MergedNodes(d.value, s.value, upd, path[1..]);
      }
    }
  }

  // ----- what the merge keeps -----

  lemma {:induction false} UniqueByNames(a: seq<Property>, b: seq<Property>)
    requires UniqueProperties(a) && |a| == |b| && forall i :: 0 <= i < |a| ==> a[i].name == b[i].name
    ensures UniqueProperties(b)
    decreases a
  {
    if a != [] {
      SamePropertyIndex(a[1..], b[1..], a[0].name);
      UniqueByNames(a[1..], b[1..]);
    }
  }

  lemma {:induction false} CopyPropertiesUnique(dst: seq<Property>, src: seq<Property>, upd: bool)
    requires UniqueProperties(dst)
    ensures UniqueProperties(CopyProperties(dst, src, upd))
    decreases src
  {
    hide IllegalName;
    if src != [] {
      var i := PropertyIndex(dst, src[0].name);
      if i.Some? {
        UniqueByNames(dst, dst[i.value := src[0]]);
      }
      CopyPropertiesUnique(CopyProperty(dst, src[0], upd), src[1..], upd);
    }
  }

  lemma {:induction false} UniqueUpdate(ns: seq<Node>, i: nat, c: Node)
    requires UniqueChildren(ns) && i < |ns| && c.name == ns[i].name && UniqueNames(c)
    ensures UniqueChildren(ns[i := c])
    decreases i
  {
    hide UniqueNames;
    if i == 0 {
      assert ns[0 := c][1..] == ns[1..];
    } else {
      assert ns[i := c][1..] == ns[1..][i - 1 := c];
      SameChildIndex(ns[1..], ns[1..][i - 1 := c], ns[0].name);
      UniqueUpdate(ns[1..], i - 1, c);
    }
  }

  /** Sibling names and property names stay distinct, so further merges are defined alike. */
  lemma {:induction false} CopyUnique(dst: Node, src: Node, upd: bool)
    requires UniqueNames(dst) && UniqueNames(src)
    ensures UniqueNames(CopySubtree(dst, src, upd))
    decreases src, 1
  {
    CopyPropertiesUnique(dst.properties, src.properties, upd);
    CopyChildrenUnique(dst.children, src.children, upd);
  }

  lemma {:induction false} CopyChildrenUnique(dst: seq<Node>, src: seq<Node>, upd: bool)
    requires UniqueChildren(dst) && UniqueChildren(src)
    ensures UniqueChildren(CopyChildren(dst, src, upd))
    decreases src, 0
  {
    hide UniqueNames, CopySubtree;
    if src != [] {
      var i := ChildIndex(dst, src[0].name);
      if i.Some? {
        UniqueChild(dst, i.value);
        CopyUnique(dst[i.value], src[0], upd);
        CopyKeepsName(dst[i.value], src[0], upd);
        UniqueUpdate(dst, i.value, CopySubtree(dst[i.value], src[0], upd));
        CopyChildrenUnique(dst[i.value := CopySubtree(dst[i.value], src[0], upd)], src[1..], upd);
      } else {
        assert ([src[0]] + dst)[1..] == dst;
        CopyChildrenUnique([src[0]] + dst, src[1..], upd);
      }
    }
  }

  lemma {:induction false} OkUpdate(ps: seq<Property>, i: nat, p: Property, phandle: nat)
    requires PropertiesOk(ps) && PropertyOk(p) && i < |ps| && p.name == ps[i].name && !IsPhandle(p)
    ensures PropertiesOk(ps[i := p]) && LastPhandle(ps[i := p], phandle) == LastPhandle(ps, phandle)
    decreases i
  {
    hide PropertyOk, PhandleIn;
    if i == 0 {
      assert ps[0 := p][1..] == ps[1..];
    } else {
      assert ps[i := p][1..] == ps[1..][i - 1 := p];
      OkUpdate(ps[1..], i - 1, p, if IsPhandle(ps[0]) then PhandleIn(ps[0]) else phandle);
    }
  }

  lemma {:induction false} CopyPropertiesOk(dst: seq<Property>, src: seq<Property>, upd: bool)
    requires PropertiesOk(dst) && PropertiesOk(src)
    ensures PropertiesOk(CopyProperties(dst, src, upd))
    ensures LastPhandle(CopyProperties(dst, src, upd), 0) == LastPhandle(dst, 0)
    decreases src
  {
    hide PropertyOk, PhandleIn;
    if src != [] {
      var p := src[0];
      var i := PropertyIndex(dst, p.name);
      if !IllegalName(p.name) {
        assert !IsPhandle(p);
        if i.Some? {
          OkUpdate(dst, i.value, p, 0);
        } else {
          assert ([p] + dst)[1..] == dst;
        }
      }
      CopyPropertiesOk(CopyProperty(dst, p, upd), src[1..], upd);
    }
  }

  /** The merged tree can be flattened again; and if every node's phandle was the one its
      properties give, it still is. */
  lemma {:induction false} CopyOk(dst: Node, src: Node, upd: bool)
    requires NodeOk(dst) && NodeOk(src)
    ensures NodeOk(CopySubtree(dst, src, upd))
    ensures PhandleOk(dst) && PhandleOk(src) ==> PhandleOk(CopySubtree(dst, src, upd))
    decreases src, 1
  {
    hide PropertiesOk, ChildrenOk, PhandlesOk, NoNul, LastPhandle;
    CopyPropertiesOk(dst.properties, src.properties, upd);
    CopyChildrenOk(dst.children, src.children, upd);
  }

  lemma {:induction false} ChildOk(ns: seq<Node>, i: nat)
    requires ChildrenOk(ns) && i < |ns|
    ensures NodeOk(ns[i])
    ensures PhandlesOk(ns) ==> PhandleOk(ns[i])
    decreases i
  {
    hide NodeOk, PhandleOk;
    if i > 0 {
      ChildOk(ns[1..], i - 1);
    }
  }

  lemma {:induction false} OkChildUpdate(ns: seq<Node>, i: nat, c: Node)
    requires ChildrenOk(ns) && i < |ns| && NodeOk(c)
    ensures ChildrenOk(ns[i := c])
    ensures PhandlesOk(ns) && PhandleOk(c) ==> PhandlesOk(ns[i := c])
    decreases i
  {
    hide NodeOk, PhandleOk;
    if i == 0 {
      assert ns[0 := c][1..] == ns[1..];
    } else {
      assert ns[i := c][1..] == ns[1..][i - 1 := c];
      OkChildUpdate(ns[1..], i - 1, c);
    }
  }

  lemma {:induction false} CopyChildrenOk(dst: seq<Node>, src: seq<Node>, upd: bool)
    requires ChildrenOk(dst) && ChildrenOk(src)
    ensures ChildrenOk(CopyChildren(dst, src, upd))
    ensures PhandlesOk(dst) && PhandlesOk(src) ==> PhandlesOk(CopyChildren(dst, src, upd))
    decreases src, 0
  {
    hide NodeOk, PhandleOk, CopySubtree;
    if src != [] {
      var i := ChildIndex(dst, src[0].name);
      if i.Some? {
        ChildOk(dst, i.value);
        CopyOk(dst[i.value], src[0], upd);
        OkChildUpdate(dst, i.value, CopySubtree(dst[i.value], src[0], upd));
        CopyChildrenOk(dst[i.value := CopySubtree(dst[i.value], src[0], upd)], src[1..], upd);
      } else {
        assert ([src[0]] + dst)[1..] == dst;
        CopyChildrenOk([src[0]] + dst, src[1..], upd);
      }
    }
  }

  // ----- the order after the merge -----

  function Names(ns: seq<Node>): seq<Bytes> {
    if ns == [] then [] else [ns[0].name] + Names(ns[1..])
  }

  function PropertyNames(ps: seq<Property>): seq<Bytes> {
    if ps == [] then [] else [ps[0].name] + PropertyNames(ps[1..])
  }

  /** The names of the list, followed by those of `more` that it does not have yet: each goes to the
      front. */
  function InFront(names: seq<Bytes>, more: seq<Bytes>): seq<Bytes>
    decreases more
  {
    if more == [] then names
    else InFront(if more[0] in names then names else [more[0]] + names, more[1..])
  }

  /** Children keep their order; a new one goes to the front of all before it. */
  lemma {:induction false} CopyOrder(dst: seq<Node>, src: seq<Node>, upd: bool)
    ensures Names(CopyChildren(dst, src, upd)) == InFront(Names(dst), Names(src))
    decreases src
  {
    hide CopySubtree;
    if src != [] {
      NamesHave(dst, src[0].name);
      var i := ChildIndex(dst, src[0].name);
      if i.Some? {
        var c := CopySubtree(dst[i.value], src[0], upd);
        CopyKeepsName(dst[i.value], src[0], upd);
        NamesUpdate(dst, i.value, c);
        CopyOrder(dst[i.value := c], src[1..], upd);
      } else {
        assert ([src[0]] + dst)[1..] == dst;
        CopyOrder([src[0]] + dst, src[1..], upd);
      }
    }
  }

  lemma {:induction false} NamesHave(ns: seq<Node>, name: Bytes)
    ensures name in Names(ns) <==> ChildIndex(ns, name).Some?
    decreases ns
  {
    if ns != [] {
      NamesHave(ns[1..], name);
    }
  }

  lemma {:induction false} NamesUpdate(ns: seq<Node>, i: nat, c: Node)
    requires i < |ns| && c.name == ns[i].name
    ensures Names(ns[i := c]) == Names(ns)
    decreases i
  {
    if i == 0 {
      assert ns[0 := c][1..] == ns[1..];
    } else {
      assert ns[i := c][1..] == ns[1..][i - 1 := c];
      NamesUpdate(ns[1..], i - 1, c);
    }
  }

  /** And so do properties; those an overlay may not bring stay away. */
  lemma {:induction false} CopyPropertyOrder(dst: seq<Property>, src: seq<Property>, upd: bool)
    ensures PropertyNames(CopyProperties(dst, src, upd)) == InFront(PropertyNames(dst), PropertyNames(Legal(src)))
    decreases src
  {
    hide IllegalName;
    if src != [] {
      var p := src[0];
      PropertyNamesHave(dst, p.name);
      var i := PropertyIndex(dst, p.name);
      if IllegalName(p.name) {
        CopyPropertyOrder(dst, src[1..], upd);
      } else {
        assert ([p] + Legal(src[1..]))[1..] == Legal(src[1..]);
        if i.Some? {
          PropertyNamesUpdate(dst, i.value, p);
        } else {
          assert ([p] + dst)[1..] == dst;
        }
        CopyPropertyOrder(CopyProperty(dst, p, upd), src[1..], upd);
      }
    }
  }

  function Legal(ps: seq<Property>): seq<Property> {
    if ps == [] then []
    else if IllegalName(ps[0].name) then Legal(ps[1..])
    else [ps[0]] + Legal(ps[1..])
  }

  lemma {:induction false} PropertyNamesHave(ps: seq<Property>, name: Bytes)
    ensures name in PropertyNames(ps) <==> PropertyIndex(ps, name).Some?
    decreases ps
  {
    if ps != [] {
      PropertyNamesHave(ps[1..], name);
    }
  }

  lemma {:induction false} PropertyNamesUpdate(ps: seq<Property>, i: nat, p: Property)
    requires i < |ps| && p.name == ps[i].name
    ensures PropertyNames(ps[i := p]) == PropertyNames(ps)
    decreases i
  {
    if i == 0 {
      assert ps[0 := p][1..] == ps[1..];
    } else {
      assert ps[i := p][1..] == ps[1..][i - 1 := p];
      PropertyNamesUpdate(ps[1..], i - 1, p);
    }
  }
}
