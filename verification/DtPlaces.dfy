/** Places in a tree, by child numbers as the C pointers have them and by names as paths have
    them, and a merge at a place. */
module DtPlaces {
  import opened Common
  import opened FdtFormat
  import opened DtFixups
  import opened DtReferences
  import opened DtCopy

  predicate ValidPlace(n: Node, p: seq<nat>)
    decreases p
  {
    p != [] ==> p[0] < |n.children| && ValidPlace(n.children[p[0]], p[1..])
  }

  function NodeAtPlace(n: Node, p: seq<nat>): Node
    requires ValidPlace(n, p)
    decreases p
  {
    if p == [] then n else NodeAtPlace(n.children[p[0]], p[1..])
  }

  /** The names on the way to a place. */
  function NamesAt(n: Node, p: seq<nat>): seq<Bytes>
    requires ValidPlace(n, p)
    decreases p
  {
    if p == [] then [] else [n.children[p[0]].name] + NamesAt(n.children[p[0]], p[1..])
  }

  /** The place of the node at a path of names. */
  function PathIndices(n: Node, path: seq<Bytes>): Option<seq<nat>>
    decreases path
  {
    if path == [] then Some([])
    else match ChildIndex(n.children, path[0])
      case None => None
      case Some(i) =>
        match PathIndices(n.children[i], path[1..])
        case None => None
        case Some(p) => Some([i] + p)
  }

  /** Merges src into the node at place p of the tree below n. */
  function CopyAt(n: Node, p: seq<nat>, src: Node, upd: bool): Node
    requires ValidPlace(n, p)
    decreases p
  {
    if p == [] then CopySubtree(n, src, upd)
    else n.(children := n.children[p[0] := CopyAt(n.children[p[0]], p[1..], src, upd)])
  }

  // ----- paths and places agree -----

  lemma {:induction false} PathIndicesFind(n: Node, path: seq<Bytes>)
    ensures PathIndices(n, path).Some? <==> Find(n, path).Some?
    ensures PathIndices(n, path).Some? ==>
      var p := PathIndices(n, path).value;
      ValidPlace(n, p) && NodeAtPlace(n, p) == Find(n, path).value && NamesAt(n, p) == path
    decreases path
  {
    if path != [] {
      var i := ChildIndex(n.children, path[0]);
      if i.Some? {
        PathIndicesFind(n.children[i.value], path[1..]);
        assert path == [path[0]] + path[1..];
      }
    }
  }

  lemma {:induction false} OwnIndex(ns: seq<Node>, i: nat)
    requires UniqueChildren(ns) && i < |ns|
    ensures ChildIndex(ns, ns[i].name) == Some(i)
    decreases i
  {
    hide UniqueNames;
    if i > 0 {
      OwnIndex(ns[1..], i - 1);
      assert ns[i] == ns[1..][i - 1];
    }
  }

  /** With distinct names the names on the way to a place lead back to it. */
  lemma {:induction false} FindNames(n: Node, p: seq<nat>)
    requires UniqueNames(n) && ValidPlace(n, p)
    ensures Find(n, NamesAt(n, p)) == Some(NodeAtPlace(n, p)) && UniqueNames(NodeAtPlace(n, p))
    decreases p
  {
    if p != [] {
      OwnIndex(n.children, p[0]);
      UniqueChild(n.children, p[0]);
      FindNames(n.children[p[0]], p[1..]);
      assert NamesAt(n, p)[1..] == NamesAt(n.children[p[0]], p[1..]);
    }
  }

  /** The lookup of a path from the root on continues from any place on it. */
  lemma {:induction false} FindBelow(n: Node, p: seq<nat>, path: seq<Bytes>)
    requires UniqueNames(n) && ValidPlace(n, p) && NamesAt(n, p) <= path
    ensures Find(n, path) == Find(NodeAtPlace(n, p), path[|NamesAt(n, p)|..])
    decreases p
  {
    if p != [] {
      var c, rest := n.children[p[0]], NamesAt(n.children[p[0]], p[1..]);
      OwnIndex(n.children, p[0]);
      UniqueChild(n.children, p[0]);
      assert NamesAt(n, p) == [c.name] + rest && |NamesAt(n, p)| == |rest| + 1;
      PrefixCons(c.name, rest, path);
      FindBelow(c, p[1..], path[1..]);
    }
  }

  // ----- a merge at a place, seen by path -----

  /** Both are missing, or both are there with the same properties and phandle. */
  predicate SameHere(a: Option<Node>, b: Option<Node>) {
    match (a, b)
    case (None, None) => true
    case (Some(x), Some(y)) => x.properties == y.properties && x.phandle == y.phandle
    case _ => false
  }

  lemma CopyAtKeepsName(n: Node, p: seq<nat>, src: Node, upd: bool)
    requires ValidPlace(n, p)
    ensures CopyAt(n, p, src, upd).name == n.name && CopyAt(n, p, src, upd).phandle == n.phandle
  {
    hide CopyProperties, CopyChildren;
  }

  /** Below the place there is the merged subtree; everything else is as it was. */
  lemma {:induction false} CopyAtFind(n: Node, p: seq<nat>, src: Node, upd: bool, path: seq<Bytes>)
    requires UniqueNames(n) && ValidPlace(n, p)
    ensures var q := NamesAt(n, p); var r := CopyAt(n, p, src, upd);
      if q <= path then Find(r, path) == Find(CopySubtree(NodeAtPlace(n, p), src, upd), path[|q|..])
      else SameHere(Find(r, path), Find(n, path))
    decreases p
  {
    hide CopySubtree, UniqueNames, UniqueProperties;
    if p != [] {
      var i := p[0];
      var c, rest := n.children[i], NamesAt(n.children[i], p[1..]);
      UniqueParts(n);
      OwnIndex(n.children, i);
      UniqueChild(n.children, i);
      var c' := CopyAt(c, p[1..], src, upd);
      CopyAtKeepsName(c, p[1..], src, upd);
      assert NamesAt(n, p) == [c.name] + rest;
      if path != [] {
        SameChildIndex(n.children, n.children[i := c'], path[0]);
        assert path == [path[0]] + path[1..];
        PrefixCons(c.name, rest, path);
        if path[0] == c.name {
          CopyAtFind(c, p[1..], src, upd, path[1..]);
        } else {
          SameHereReflexive(Find(n, path));
        }
      }
    }
  }

  lemma UniqueParts(n: Node)
    requires UniqueNames(n)
    ensures UniqueProperties(n.properties) && UniqueChildren(n.children)
  {
  }

  lemma PrefixCons(x: Bytes, rest: seq<Bytes>, path: seq<Bytes>)
    requires path != []
    ensures [x] + rest <= path <==> x == path[0] && rest <= path[1..]
    ensures [x] + rest <= path ==> path[1..][|rest|..] == path[|[x] + rest|..]
  {
    assert path == [path[0]] + path[1..];
    if x == path[0] && rest <= path[1..] {
      assert path[..|rest| + 1] == [x] + path[1..][..|rest|];
    }
    if [x] + rest <= path {
      assert path[1..][..|rest|] == path[..|rest| + 1][1..] == ([x] + rest)[1..] == rest;
    }
  }

  lemma SameHereReflexive(a: Option<Node>)
    ensures SameHere(a, a)
  {
  }

  lemma {:induction false} CopyAtUnique(n: Node, p: seq<nat>, src: Node, upd: bool)
    requires UniqueNames(n) && UniqueNames(src) && ValidPlace(n, p)
    ensures UniqueNames(CopyAt(n, p, src, upd))
    decreases p
  {
    hide CopySubtree;
    if p == [] {
      CopyUnique(n, src, upd);
    } else {
      var c := n.children[p[0]];
      UniqueChild(n.children, p[0]);
      CopyAtUnique(c, p[1..], src, upd);
      CopyAtKeepsName(c, p[1..], src, upd);
      UniqueUpdate(n.children, p[0], CopyAt(c, p[1..], src, upd));
    }
  }

  // ----- the first node with a phandle -----

  /** dt_find_node_by_phandle finds a node with the phandle if there is one. */
  lemma {:induction false} FindByPhandleIff(n: Node, phandle: nat)
    ensures var r := FindByPhandle(n, phandle);
      if r.Some? then ValidPlace(n, r.value) && NodeAtPlace(n, r.value).phandle == phandle
      else forall p: seq<nat> :: ValidPlace(n, p) ==> NodeAtPlace(n, p).phandle != phandle
    decreases n, 1
  {
    FindAmongIff(n.children, phandle, n.children, 0);
  }

  lemma {:induction false} FindAmongIff(ns: seq<Node>, phandle: nat, all: seq<Node>, i: nat)
    requires i <= |all| && ns == all[i..]
    ensures var r := FindAmong(ns, phandle, i);
      if r.None? then
        forall k, p: seq<nat> :: i <= k < |all| && ValidPlace(all[k], p) ==> NodeAtPlace(all[k], p).phandle != phandle
      else
        && r.value != [] && r.value[0] < |all| && ValidPlace(all[r.value[0]], r.value[1..])
        && NodeAtPlace(all[r.value[0]], r.value[1..]).phandle == phandle
    decreases ns, 0
  {
    if ns != [] {
      FindByPhandleIff(ns[0], phandle);
      FindAmongIff(ns[1..], phandle, all, i + 1);
    }
  }

  /** In the order in which a walk from the root meets the places. */
  predicate Earlier(p: seq<nat>, q: seq<nat>)
    decreases p
  {
    q != [] && (p == [] || p[0] < q[0] || (p[0] == q[0] && Earlier(p[1..], q[1..])))
  }

  /** It is the first such node. */
  lemma {:induction false} FindFirst(n: Node, phandle: nat, q: seq<nat>)
    requires ValidPlace(n, q) && NodeAtPlace(n, q).phandle == phandle
    ensures var r := FindByPhandle(n, phandle); r.Some? && (r.value == q || Earlier(r.value, q))
    decreases n, 1
  {
    if n.phandle != phandle {
      FindFirstAmong(n.children, phandle, n.children, 0, q);
    }
  }

  lemma {:induction false} FindFirstAmong(ns: seq<Node>, phandle: nat, all: seq<Node>, i: nat, q: seq<nat>)
    requires i <= |all| && ns == all[i..] && q != [] && i <= q[0] < |all|
    requires ValidPlace(all[q[0]], q[1..]) && NodeAtPlace(all[q[0]], q[1..]).phandle == phandle
    ensures var r := FindAmong(ns, phandle, i); r.Some? && (r.value == q || Earlier(r.value, q))
    decreases ns, 0
  {
    hide FindByPhandle, ValidPlace, NodeAtPlace;
    if q[0] == i {
      FindFirst(ns[0], phandle, q[1..]);
      assert [i] + q[1..] == q;
    } else {
      FindFirstAmong(ns[1..], phandle, all, i + 1, q);
    }
  }
}
