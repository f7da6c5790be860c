/** The linked list behind a set of ranges, changed in place (src/base/ranges.c). */
module Ranges {
  import opened RangeSets

  lemma Inserted<T>(s: seq<T>, k: nat, x: T)
    requires k <= |s|
    ensures var r := s[..k] + [x] + s[k..];
      && |r| == |s| + 1 && r[k] == x
      && (forall i {:trigger r[i]} :: 0 <= i < |r| && i != k ==> r[i] == if i < k then s[i] else s[i - 1])
  {
  }

  lemma Removed<T>(s: seq<T>, k: nat)
    requires k < |s|
    ensures var r := s[..k] + s[k + 1..];
      && |r| == |s| - 1
      && (forall i {:trigger r[i]} :: 0 <= i < |r| ==> r[i] == if i < k then s[i] else s[i + 1])
  {
  }

  class RangesEdge {
    var next: RangesEdge?
    var pos: nat

    constructor (next: RangesEdge?, pos: nat)
      ensures this.next == next && this.pos == pos
    {
      this.next := next;
      this.pos := pos;
    }
  }

  class RangeList {
    const head: RangesEdge
    /** The list from the head on, and the positions of all edges but the head. */
    ghost var nodes: seq<RangesEdge>
    ghost var edges: seq<nat>
    ghost var repr: set<RangesEdge>

    ghost predicate Valid()
      reads this, repr
    {
      && |nodes| == |edges| + 1
      && nodes[0] == head
      && (forall i :: 0 <= i < |nodes| ==> nodes[i] in repr)
      && (forall i, j :: 0 <= i < j < |nodes| ==> nodes[i] != nodes[j])
      && (forall i :: 0 <= i < |edges| ==> nodes[i].next == nodes[i + 1])
      && nodes[|edges|].next == null
      && (forall i :: 0 <= i < |edges| ==> nodes[i + 1].pos == edges[i])
    }

    constructor ()
      ensures Valid() && fresh(repr) && edges == []
    {
      var first := new RangesEdge(null, 0);
      head := first;
      nodes := [first];
      edges := [];
      repr := {first};
    }

    lemma Link(k: nat)
      requires Valid() && k <= |edges|
      ensures |nodes| == |edges| + 1 && nodes[0] == head && nodes[k] in repr
      ensures k == |edges| ==> nodes[k].next == null
      ensures k < |edges| ==> nodes[k].next == nodes[k + 1] && nodes[k + 1].pos == edges[k]
    {
    }

    /** ranges_insert_between: a new edge behind the one at index `at`. */
    method InsertBetween(before: RangesEdge, after: RangesEdge?, pos: nat, ghost at: nat)
      requires Valid() && at <= |edges| < |nodes| && nodes[at] == before && before.next == after
      modifies this, before
      ensures Valid() && before.next != null && fresh(repr - old(repr)) && old(repr) <= repr
      ensures nodes == old(nodes)[..at + 1] + [before.next] + old(nodes)[at + 1..]
      ensures edges == old(edges)[..at] + [pos] + old(edges)[at..]
    {
      var edge := new RangesEdge(after, pos);
      before.next := edge;
      Inserted(nodes, at + 1, edge);
      Inserted(edges, at, pos);
      nodes := nodes[..at + 1] + [edge] + nodes[at + 1..];
      edges := edges[..at] + [pos] + edges[at..];
      repr := repr + {edge};
    }

    /** Takes out the edge behind the one at index `at`; `cur` is the edge behind that. */
    method Unlink(prev: RangesEdge, cur: RangesEdge?, ghost at: nat)
      requires Valid() && at < |edges| == |nodes| - 1 && nodes[at] == prev && nodes[at + 1].next == cur
      modifies this, prev
      ensures Valid() && prev.next == cur && repr == old(repr)
      ensures nodes == old(nodes)[..at + 1] + old(nodes)[at + 2..]
      ensures edges == old(edges)[..at] + old(edges)[at + 1..]
    {
      prev.next := cur;
      Removed(nodes, at + 1);
      Removed(edges, at);
      nodes := nodes[..at + 1] + nodes[at + 2..];
      edges := edges[..at] + edges[at + 1..];
    }

    /** ranges_set_region_to. */
    method SetRegionTo(start: nat, end: nat, newIncluded: bool)
      requires Valid() && start != end
      modifies this, repr
      ensures Valid() && fresh(repr - old(repr))
      ensures edges == SetRegion(old(edges), start, end, newIncluded)
    {
      hide Below, Behind, Valid, EdgeIf, Odd;
      var prev, included, k := FindStart(start);
      ghost var was := edges;
      assert was[..k] + was[k..] == was;
      PutIn(was[..k], was[k..], newIncluded != included, start);
      ghost var at, front := k, was[..k] + EdgeIf(newIncluded != included, start);
      EdgeIfEither(newIncluded != included, start);
      if newIncluded != included {
        InsertBetween(prev, prev.next, start, at);
        prev := prev.next;
        at := k + 1;
      }
      DeleteObscured(prev, end, newIncluded, included, at, front, was, k);
    }

    /** The first loop of ranges_set_region_to: the last edge below `start`, at index k, and
        whether the addresses behind it are in the set. */
    method FindStart(start: nat) returns (prev: RangesEdge, included: bool, ghost k: nat)
      requires Valid()
      ensures k == Below(edges, start) && included == Odd(k)
      ensures |nodes| == |edges| + 1 && nodes[k] == prev && prev in repr
    {
      hide Below, Valid, Odd;
      ParityFlips();
      Link(0);
      k := 0;
      included := false;
      prev := head;
      var cur := prev.next;
      while cur != null && cur.pos < start
        invariant k <= |edges| && included == Odd(k)
        invariant |nodes| == |edges| + 1 && nodes[k] == prev && prev.next == cur
        invariant forall i :: 0 <= i < k ==> edges[i] < start
        decreases |edges| - k
      {
        Link(k);
        prev := cur;
        cur := cur.next;
        included := !included;
        k := k + 1;
      }
      Link(k);
      BelowIs(edges, start, k);
    }

    /** The second half of ranges_set_region_to, behind the edge `prev` at index `at`: the edges
        the region obscures go, and the one at its end comes if needed. */
    method DeleteObscured(prev: RangesEdge, end: nat, newIncluded: bool, wasIncluded: bool, ghost at: nat,
                          ghost front: seq<nat>, ghost was: seq<nat>, ghost k: nat)
      requires Valid() && at < |nodes| && nodes[at] == prev
      requires k <= |was| && at == |front| && edges == front + was[k..]
      requires wasIncluded == Odd(k)
      modifies this, repr
      ensures Valid() && fresh(repr - old(repr))
      ensures var m := Behind(was, k, end);
        edges == front + EdgeIf(newIncluded != Odd(m), end) + was[m..]
    {
      hide Behind, Valid, EdgeIf, Odd;
      ParityFlips();
      var included := wasIncluded;
      Link(at);
      var cur := prev.next;
      ghost var m := k;
      while cur != null && cur.pos <= end
        invariant Valid() && repr == old(repr)
        invariant at < |nodes| == |edges| + 1 && nodes[at] == prev && prev.next == cur
        invariant k <= m <= |was| && edges == front + was[m..]
        invariant included == Odd(m)
        invariant forall i :: k <= i < m ==> was[i] <= end
        decreases |was| - m
      {
        Link(at);
        Link(at + 1);
        cur := cur.next;
        Unlink(prev, cur, at);
        TakeOut(front, was, m);
        included := !included;
        m := m + 1;
      }
      Link(at);
      BehindIs(was, k, end, m);
      PutIn(front, was[m..], newIncluded != included, end);
      if included != newIncluded {
        InsertBetween(prev, cur, end, at);
      }
    }

    /** ranges_add: the set grows by [start, end). */
    method Add(start: nat, end: nat)
      requires Valid() && Canonical(edges) && start < end
      modifies this, repr
      ensures Valid() && Canonical(edges) && fresh(repr - old(repr))
      ensures edges == SetRegion(old(edges), start, end, true)
      ensures forall x: nat :: Member(edges, x) <==> Member(old(edges), x) || start <= x < end
    {
      hide Member, SetRegion, Canonical;
      SetRegionTo(start, end, true);
      SetRegionCanonical(old(edges), start, end, true);
      forall x: nat ensures Member(edges, x) <==> Member(old(edges), x) || start <= x < end {
        SetRegionMember(old(edges), start, end, true, x);
      }
    }

    /** ranges_sub: the set loses [start, end). */
    method Sub(start: nat, end: nat)
      requires Valid() && Canonical(edges) && start < end
      modifies this, repr
      ensures Valid() && Canonical(edges) && fresh(repr - old(repr))
      ensures edges == SetRegion(old(edges), start, end, false)
      ensures forall x: nat :: Member(edges, x) <==> Member(old(edges), x) && !(start <= x < end)
    {
      hide Member, SetRegion, Canonical;
      SetRegionTo(start, end, false);
      SetRegionCanonical(old(edges), start, end, false);
      forall x: nat ensures Member(edges, x) <==> Member(old(edges), x) && !(start <= x < end) {
        SetRegionMember(old(edges), start, end, false, x);
      }
    }

    /** ranges_for_each: the ranges its function is called with, in order.  With an odd number of
        edges it stops at the last one. */
    method ForEach() returns (calls: seq<Interval>, odd: bool)
      requires Valid()
      ensures calls == Intervals(edges)
      ensures odd <==> |edges| % 2 == 1
    {
      calls := [];
      ghost var k := 0;
      var cur := head.next;
      while cur != null
        invariant k <= |edges| && nodes[k].next == cur
        invariant k % 2 == 0
        invariant Intervals(edges) == calls + Intervals(edges[k..])
        decreases |edges| - k
      {
        if cur.next == null {
          assert k + 1 == |edges|;
          return calls, true;
        }
        assert edges[k..][2..] == edges[k + 2..];
        calls := calls + [Interval(cur.pos, cur.next.pos)];
        k := k + 2;
        cur := cur.next.next;
      }
      odd := false;
    }
  }

  lemma {:induction false} BelowIs(es: seq<nat>, start: nat, k: nat)
    requires k <= |es|
    requires forall i :: 0 <= i < k ==> es[i] < start
    requires k < |es| ==> es[k] >= start
    ensures Below(es, start) == k
    decreases k
  {
    if k > 0 {
      BelowIs(es[1..], start, k - 1);
    }
  }

  lemma {:induction false} BehindIs(es: seq<nat>, k: nat, end: nat, m: nat)
    requires k <= m <= |es|
    requires forall i :: k <= i < m ==> es[i] <= end
    requires m < |es| ==> es[m] > end
    ensures Behind(es, k, end) == m
    decreases m - k
  {
    if k < m {
      BehindIs(es, k + 1, end, m);
    }
  }

  lemma ParityFlips()
    ensures !Odd(0)
    ensures forall n: nat :: Odd(n + 1) <==> !Odd(n)
  {
  }

  lemma EdgeIfEither(c: bool, pos: nat)
    ensures EdgeIf(c, pos) == if c then [pos] else []
  {
  }

  lemma TakeOut(front: seq<nat>, was: seq<nat>, m: nat)
    requires m < |was|
    ensures var es := front + was[m..];
      es[..|front|] + es[|front| + 1..] == front + was[m + 1..]
  {
  }

  lemma PutIn(front: seq<nat>, rest: seq<nat>, c: bool, pos: nat)
    ensures var es := front + rest;
      c ==> es[..|front|] + [pos] + es[|front|..] == front + EdgeIf(c, pos) + rest
    ensures !c ==> front + rest == front + EdgeIf(c, pos) + rest
  {
  }

  // ----- any run of adds and subs -----

  datatype Update = Update(start: nat, end: nat, included: bool)

  function After(es: seq<nat>, us: seq<Update>): seq<nat> {
    if us == [] then es
    else
      var u := us[|us| - 1];
      SetRegion(After(es, us[..|us| - 1]), u.start, u.end, u.included)
  }

  /** The last update that covers x decides. */
  predicate LastWord(us: seq<Update>, x: nat) {
    if us == [] then false
    else
      var u := us[|us| - 1];
      if u.start <= x < u.end then u.included else LastWord(us[..|us| - 1], x)
  }

  predicate Forward(us: seq<Update>) {
    forall i :: 0 <= i < |us| ==> us[i].start < us[i].end
  }

  lemma {:induction false} RunMeans(us: seq<Update>, x: nat)
    requires Forward(us)
    ensures Canonical(After([], us))
    ensures Member(After([], us), x) <==> LastWord(us, x)
    decreases us
  {
    hide Member, Canonical, SetRegion;
    if us == [] {
      EmptySet(x);
    } else {
      var u := us[|us| - 1];
      RunMeans(us[..|us| - 1], x);
      SetRegionCanonical(After([], us[..|us| - 1]), u.start, u.end, u.included);
      SetRegionMember(After([], us[..|us| - 1]), u.start, u.end, u.included, x);
    }
  }

  lemma EmptySet(x: nat)
    ensures Canonical([]) && !Member([], x)
  {
  }

  /** Two runs that mean the same set leave the same list. */
  lemma RunsAgree(us: seq<Update>, vs: seq<Update>)
    requires Forward(us) && Forward(vs)
    requires forall x: nat :: LastWord(us, x) <==> LastWord(vs, x)
    ensures After([], us) == After([], vs)
  {
    hide Member, LastWord, After;
    RunMeans(us, 0);
    RunMeans(vs, 0);
    forall x: nat ensures Member(After([], us), x) <==> Member(After([], vs), x) {
      RunMeans(us, x);
      RunMeans(vs, x);
    }
    CanonicalForm(After([], us), After([], vs));
  }

  /** What ranges_for_each reports after any run: the maximal ranges of the set, in order. */
  lemma RunReports(us: seq<Update>, x: nat)
    requires Forward(us)
    ensures Separated(Intervals(After([], us)))
    ensures InSome(Intervals(After([], us)), x) <==> LastWord(us, x)
  {
    hide Member, LastWord, After, Canonical, Intervals, Separated, InSome;
    RunMeans(us, x);
    IntervalsSeparated(After([], us));
    IntervalsMember(After([], us), x);
  }
}
