/** Sets of addresses as lists of edges (src/base/ranges.c). */
module RangeSets {

  /** Every edge lies behind the one before it. */
  predicate Increasing(es: seq<nat>) {
    forall i, j :: 0 <= i < j < |es| ==> es[i] < es[j]
  }

  predicate Odd(n: nat) { n % 2 == 1 }

  function CountLe(es: seq<nat>, x: nat): nat {
    if es == [] then 0 else (if es[0] <= x then 1 else 0) + CountLe(es[1..], x)
  }

  /** x is in the set: an odd number of edges is at or below x. */
  predicate Member(es: seq<nat>, x: nat) {
    Odd(CountLe(es, x))
  }

  /** The form the list always has. */
  predicate Canonical(es: seq<nat>) {
    Increasing(es) && |es| % 2 == 0
  }

  lemma {:induction false} CountAppend(a: seq<nat>, b: seq<nat>, x: nat)
    ensures CountLe(a + b, x) == CountLe(a, x) + CountLe(b, x)
    decreases a
  {
    if a == [] {
      assert a + b == b;
    } else {
      assert (a + b)[1..] == a[1..] + b;
      CountAppend(a[1..], b, x);
    }
  }

  lemma {:induction false} CountAll(es: seq<nat>, x: nat)
    ensures (forall i :: 0 <= i < |es| ==> es[i] <= x) ==> CountLe(es, x) == |es|
    ensures (forall i :: 0 <= i < |es| ==> es[i] > x) ==> CountLe(es, x) == 0
    decreases es
  {
    if es != [] {
      CountAll(es[1..], x);
    }
  }

  // ----- setting a region -----

  /** The number of edges in front of the first one that is not below `start`. */
  function Below(es: seq<nat>, start: nat): (k: nat)
    ensures k <= |es|
    ensures forall i :: 0 <= i < k ==> es[i] < start
    ensures k < |es| ==> es[k] >= start
  {
    if es == [] || es[0] >= start then 0 else 1 + Below(es[1..], start)
  }

  /** Where the edges behind the region start: the first index from k on whose edge is above
      `end`. */
  function Behind(es: seq<nat>, k: nat, end: nat): (m: nat)
    requires k <= |es|
    ensures k <= m <= |es|
    ensures forall i :: k <= i < m ==> es[i] <= end
    ensures m < |es| ==> es[m] > end
    decreases |es| - k
  {
    if k == |es| || es[k] > end then k else Behind(es, k + 1, end)
  }

  function EdgeIf(c: bool, pos: nat): seq<nat> {
    if c then [pos] else []
  }

  /** What ranges_set_region_to leaves. */
  function SetRegion(es: seq<nat>, start: nat, end: nat, included: bool): seq<nat> {
    var k := Below(es, start);
    var m := Behind(es, k, end);
    es[..k] + EdgeIf(included != Odd(k), start) + EdgeIf(included != Odd(m), end) + es[m..]
  }

  /** The edges around a region: those below it, those it obscures, those above it. */
  lemma SetRegionParts(es: seq<nat>, start: nat, end: nat, x: nat)
    requires Increasing(es) && start < end
    ensures var k := Below(es, start);
      var m := Behind(es, k, end);
      && CountLe(es, x) == CountLe(es[..k], x) + CountLe(es[k..m], x) + CountLe(es[m..], x)
      && (x >= start ==> CountLe(es[..k], x) == k)
      && (x < start ==> CountLe(es[k..m], x) == 0)
      && (x >= end ==> CountLe(es[k..m], x) == m - k)
      && (x < end ==> CountLe(es[m..], x) == 0)
  {
    hide CountLe, Below, Behind;
    var k := Below(es, start);
    var m := Behind(es, k, end);
    assert es[..k] + es[k..m] + es[m..] == es;
    CountParts(es[..k], es[k..m], es[m..], start, end, x);
  }

  lemma CountParts(below: seq<nat>, obscured: seq<nat>, above: seq<nat>, start: nat, end: nat, x: nat)
    requires start < end
    requires forall i :: 0 <= i < |below| ==> below[i] < start
    requires forall i :: 0 <= i < |obscured| ==> start <= obscured[i] <= end
    requires forall i :: 0 <= i < |above| ==> above[i] > end
    ensures CountLe(below + obscured + above, x) == CountLe(below, x) + CountLe(obscured, x) + CountLe(above, x)
    ensures x >= start ==> CountLe(below, x) == |below|
    ensures x < start ==> CountLe(obscured, x) == 0
    ensures x >= end ==> CountLe(obscured, x) == |obscured|
    ensures x < end ==> CountLe(above, x) == 0
  {
    hide CountLe;
    CountAppend(below + obscured, above, x);
    CountAppend(below, obscured, x);
    CountAll(below, x);
    CountAll(obscured, x);
    CountAll(above, x);
  }

  /** The edges at or below x, part by part. */
  lemma SetRegionCount(es: seq<nat>, start: nat, end: nat, included: bool, x: nat)
    ensures var k := Below(es, start);
      var m := Behind(es, k, end);
      CountLe(SetRegion(es, start, end, included), x)
      == CountLe(es[..k], x) + (if included != Odd(k) && start <= x then 1 else 0)
         + (if included != Odd(m) && end <= x then 1 else 0) + CountLe(es[m..], x)
  {
    hide CountLe, Below, Behind, EdgeIf, Odd;
    var k := Below(es, start);
    var m := Behind(es, k, end);
    var s, e := EdgeIf(included != Odd(k), start), EdgeIf(included != Odd(m), end);
    CountAppend(es[..k] + s + e, es[m..], x);
    CountAppend(es[..k] + s, e, x);
    CountAppend(es[..k], s, x);
    CountEdgeIf(included != Odd(k), start, x);
    CountEdgeIf(included != Odd(m), end, x);
  }

  /** Inside [start, end) membership becomes `included`, outside it stays. */
  lemma SetRegionMember(es: seq<nat>, start: nat, end: nat, included: bool, x: nat)
    requires Canonical(es) && start < end
    ensures Member(SetRegion(es, start, end, included), x) <==> if start <= x < end then included else Member(es, x)
  {
    hide CountLe, Below, Behind, Increasing, SetRegion;
    SetRegionParts(es, start, end, x);
    SetRegionCount(es, start, end, included, x);
  }

  lemma CountEdgeIf(c: bool, pos: nat, x: nat)
    ensures CountLe(EdgeIf(c, pos), x) == if c && pos <= x then 1 else 0
  {
    if c {
      assert [pos][1..] == [];
    }
  }

  lemma SetRegionCanonical(es: seq<nat>, start: nat, end: nat, included: bool)
    requires Canonical(es) && start < end
    ensures Canonical(SetRegion(es, start, end, included))
  {
    hide Below, Behind, Increasing;
    var k := Below(es, start);
    var m := Behind(es, k, end);
    PartsIncreasing(es, k, m);
    SetRegionIncreasing(es[..k], included != Odd(k), start, included != Odd(m), end, es[m..]);
  }

  lemma PartsIncreasing(es: seq<nat>, k: nat, m: nat)
    requires Increasing(es) && k <= |es| && m <= |es|
    ensures Increasing(es[..k]) && Increasing(es[m..])
  {
  }

  lemma SetRegionIncreasing(a: seq<nat>, c: bool, start: nat, d: bool, end: nat, b: seq<nat>)
    requires Increasing(a) && Increasing(b) && start < end
    requires forall i :: 0 <= i < |a| ==> a[i] < start
    requires forall i :: 0 <= i < |b| ==> b[i] > end
    ensures Increasing(a + EdgeIf(c, start) + EdgeIf(d, end) + b)
  {
  }

  /** The C code only asserts start != end.  A region given backwards leaves the edges in order
      exactly when it leaves them as they were: when the place of `start` already has the
      membership asked for. */
  lemma BackwardsRegion(es: seq<nat>, start: nat, end: nat, included: bool)
    requires Canonical(es) && end < start
    ensures Increasing(SetRegion(es, start, end, included)) <==> included == Odd(Below(es, start))
    ensures included == Odd(Below(es, start)) ==> SetRegion(es, start, end, included) == es
  {
    hide Below, Behind;
    var k := Below(es, start);
    assert Behind(es, k, end) == k;
    var r := SetRegion(es, start, end, included);
    if included != Odd(k) {
      assert r == es[..k] + [start] + [end] + es[k..];
      assert r[k] == start && r[k + 1] == end;
    } else {
      assert r == es[..k] + es[k..];
    }
  }

  // ----- the form is canonical -----

  /** Below the first edge nothing is in the set; the first edge is. */
  lemma FirstEdge(es: seq<nat>, x: nat)
    requires Increasing(es)
    ensures es == [] || x < es[0] ==> !Member(es, x)
    ensures es != [] && x == es[0] ==> Member(es, x)
    ensures es != [] && x >= es[0] ==> (Member(es, x) <==> !Member(es[1..], x))
  {
    if es == [] || x < es[0] {
      CountAll(es, x);
    } else if x == es[0] {
      CountAll(es[1..], x);
      assert forall i :: 0 <= i < |es[1..]| ==> es[1..][i] == es[i + 1];
    }
  }

  lemma {:induction false} CanonicalForm(a: seq<nat>, b: seq<nat>)
    requires Increasing(a) && Increasing(b)
    requires forall x: nat :: Member(a, x) <==> Member(b, x)
    ensures a == b
    decreases |a|
  {
    hide Member;
    if a != [] {
      FirstEdge(a, a[0]);
      FirstEdge(b, a[0]);
    }
    if b != [] {
      FirstEdge(a, b[0]);
      FirstEdge(b, b[0]);
    }
    if a != [] && b != [] {
      assert a[0] == b[0];
      forall x: nat ensures Member(a[1..], x) <==> Member(b[1..], x) {
        FirstEdge(a, x);
        FirstEdge(b, x);
        FirstEdge(a[1..], x);
        FirstEdge(b[1..], x);
      }
      CanonicalForm(a[1..], b[1..]);
      assert a == [a[0]] + a[1..] && b == [b[0]] + b[1..];
    }
  }

  // ----- the intervals -----

  datatype Interval = Interval(start: nat, end: nat)

  /** What ranges_for_each hands to its function, in order. */
  function Intervals(es: seq<nat>): seq<Interval> {
    if |es| < 2 then [] else [Interval(es[0], es[1])] + Intervals(es[2..])
  }

  predicate InSome(rs: seq<Interval>, x: nat) {
    exists i :: 0 <= i < |rs| && rs[i].start <= x < rs[i].end
  }

  /** Non-empty, in ascending order, and with a gap between any two of them. */
  predicate Separated(rs: seq<Interval>) {
    && (forall i :: 0 <= i < |rs| ==> rs[i].start < rs[i].end)
    && (forall i, j :: 0 <= i < j < |rs| ==> rs[i].end < rs[j].start)
  }

  lemma {:induction false} IntervalsAt(es: seq<nat>, i: nat)
    requires Canonical(es) && 2 * i < |es|
    ensures |Intervals(es)| * 2 == |es|
    ensures Intervals(es)[i] == Interval(es[2 * i], es[2 * i + 1])
    decreases es
  {
    IntervalsCount(es);
    if i > 0 {
      IntervalsAt(es[2..], i - 1);
    }
  }

  lemma {:induction false} IntervalsCount(es: seq<nat>)
    requires |es| % 2 == 0
    ensures |Intervals(es)| * 2 == |es|
    decreases es
  {
    if es != [] {
      IntervalsCount(es[2..]);
    }
  }

  /** The intervals are the maximal ones of the set. */
  lemma IntervalsSeparated(es: seq<nat>)
    requires Canonical(es)
    ensures Separated(Intervals(es))
  {
    var rs := Intervals(es);
    IntervalsCount(es);
    forall i | 0 <= i < |rs| ensures rs[i] == Interval(es[2 * i], es[2 * i + 1]) {
      IntervalsAt(es, i);
    }
  }

  lemma {:induction false} IntervalsMember(es: seq<nat>, x: nat)
    requires Canonical(es)
    ensures InSome(Intervals(es), x) <==> Member(es, x)
    decreases es
  {
    if es == [] {
    } else {
      var rest := es[2..];
      var r := Interval(es[0], es[1]);
      IntervalsMember(rest, x);
      InSomeCons(r, Intervals(rest), x);
      FirstEdge(es, x);
      FirstEdge(es[1..], x);
      FirstEdge(rest, x);
      assert es[1..][1..] == rest;
    }
  }

  lemma InSomeCons(r: Interval, rs: seq<Interval>, x: nat)
    ensures InSome([r] + rs, x) <==> r.start <= x < r.end || InSome(rs, x)
  {
    if r.start <= x < r.end {
      assert ([r] + rs)[0] == r;
    }
    if InSome(rs, x) {
      var i :| 0 <= i < |rs| && rs[i].start <= x < rs[i].end;
      assert ([r] + rs)[i + 1] == rs[i];
    }
  }
}
