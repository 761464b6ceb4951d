/** Finite directed graphs given by their edge sets, and reachability by non-empty paths.
    This stands for the part of networkx that the crash-state generator relies on. */
module Digraphs {

  type Edges<T(==)> = set<(T, T)>

  ghost predicate IsPath<T>(e: Edges<T>, p: seq<T>) {
    |p| >= 2 && forall i {:trigger p[i]} :: 0 <= i < |p| - 1 ==> (p[i], p[i + 1]) in e
  }

  ghost predicate PathFromTo<T>(e: Edges<T>, p: seq<T>, a: T, b: T) {
    IsPath(e, p) && p[0] == a && p[|p| - 1] == b
  }

  /** Happens-before: there is a path of length at least one. */
  ghost predicate Reach<T(!new)>(e: Edges<T>, a: T, b: T) {
    exists p :: PathFromTo(e, p, a, b)
  }

  ghost predicate Acyclic<T(!new)>(e: Edges<T>) {
    forall a :: !Reach(e, a, a)
  }

  /** Every edge of e1 is a path of e2. */
  ghost predicate Implied<T(!new)>(e1: Edges<T>, e2: Edges<T>) {
    forall d :: d in e1 ==> Reach(e2, d.0, d.1)
  }

  lemma EdgeReach<T(!new)>(e: Edges<T>, a: T, b: T)
    requires (a, b) in e
    ensures Reach(e, a, b)
  {
    assert PathFromTo(e, [a, b], a, b);
  }

  lemma ReachTrans<T(!new)>(e: Edges<T>, a: T, b: T, c: T)
    requires Reach(e, a, b) && Reach(e, b, c)
    ensures Reach(e, a, c)
  {
    var p :| PathFromTo(e, p, a, b);
    var q :| PathFromTo(e, q, b, c);
    var r := p + q[1..];
    forall i | 0 <= i < |r| - 1 ensures (r[i], r[i + 1]) in e {
      if i >= |p| - 1 {
        assert r[i] == q[i - (|p| - 1)] && r[i + 1] == q[i - (|p| - 1) + 1];
      } else {
        assert r[i] == p[i] && r[i + 1] == p[i + 1];
      }
    }
    assert PathFromTo(e, r, a, c);
  }

  /** It is the least relation that holds along edges and chains. */
  lemma {:induction false} ReachLeast<T(!new)>(e: Edges<T>, holds: (T, T) -> bool, a: T, b: T)
    requires forall d :: d in e ==> holds(d.0, d.1)
    requires forall x, y, z :: holds(x, y) && holds(y, z) ==> holds(x, z)
    requires Reach(e, a, b)
    ensures holds(a, b)
  {
    var p :| PathFromTo(e, p, a, b);
    PathHolds(e, holds, p);
  }

  lemma {:induction false} PathHolds<T(!new)>(e: Edges<T>, holds: (T, T) -> bool, p: seq<T>)
    requires forall d :: d in e ==> holds(d.0, d.1)
    requires forall x, y, z :: holds(x, y) && holds(y, z) ==> holds(x, z)
    requires IsPath(e, p)
    ensures holds(p[0], p[|p| - 1])
    decreases |p|
  {
    assert (p[0], p[1]) in e;
    assert holds((p[0], p[1]).0, (p[0], p[1]).1);
    if |p| > 2 { PathHolds(e, holds, p[1..]); }
  }

  /** The last step of a path. */
  lemma ReachEnds<T(!new)>(e: Edges<T>, a: T, b: T) returns (c: T)
    requires Reach(e, a, b)
    ensures (c, b) in e
  {
    var p :| PathFromTo(e, p, a, b);
    c := p[|p| - 2];
    assert (p[|p| - 2], p[|p| - 2 + 1]) in e;
  }

  lemma {:induction false} PathImplied<T(!new)>(e1: Edges<T>, e2: Edges<T>, p: seq<T>)
    requires Implied(e1, e2) && IsPath(e1, p)
    ensures Reach(e2, p[0], p[|p| - 1])
    decreases |p|
  {
    assert (p[0], p[1]) in e1;
    assert Reach(e2, (p[0], p[1]).0, (p[0], p[1]).1);
    if |p| > 2 {
      PathImplied(e1, e2, p[1..]);
      ReachTrans(e2, p[0], p[1], p[|p| - 1]);
    }
  }

  /** Reachability is monotone in implied edges. */
  lemma ReachImplied<T(!new)>(e1: Edges<T>, e2: Edges<T>, a: T, b: T)
    requires Implied(e1, e2) && Reach(e1, a, b)
    ensures Reach(e2, a, b)
  {
    var p :| PathFromTo(e1, p, a, b);
    PathImplied(e1, e2, p);
  }

  lemma SubsetImplied<T(!new)>(e1: Edges<T>, e2: Edges<T>)
    requires e1 <= e2
    ensures Implied(e1, e2)
  {
    forall d | d in e1 ensures Reach(e2, d.0, d.1) {
      assert d == (d.0, d.1);
      EdgeReach(e2, d.0, d.1);
    }
  }

  ghost predicate Within<T>(nodes: set<T>, e: Edges<T>) {
    forall d :: d in e ==> d.0 in nodes && d.1 in nodes
  }

  lemma ReachWithin<T(!new)>(nodes: set<T>, e: Edges<T>, a: T, b: T)
    requires Within(nodes, e) && Reach(e, a, b)
    ensures a in nodes && b in nodes
  {
    var p :| PathFromTo(e, p, a, b);
    assert (p[0], p[1]) in e && (p[|p| - 2], p[|p| - 1]) in e;
  }

  // ---------------------------------------------------------------- descendants

  /** Least superset of seen closed under the edges, found breadth first. */
  function Closure<T>(nodes: set<T>, e: Edges<T>, seen: set<T>): (r: set<T>)
    decreases nodes - seen
  {
    var next := set d | d in e && d.0 in seen && d.1 in nodes && d.1 !in seen :: d.1;
    if next == {} then seen
    else
      assert exists x :: x in next;
      Closure(nodes, e, seen + next)
  }

  function Descendants<T>(nodes: set<T>, e: Edges<T>, v: T): set<T> {
    Closure(nodes, e, set d | d in e && d.0 == v :: d.1)
  }

  lemma {:induction false} ClosureSound<T(!new)>(nodes: set<T>, e: Edges<T>, seen: set<T>, v: T)
    requires forall x :: x in seen ==> Reach(e, v, x)
    ensures forall x :: x in Closure(nodes, e, seen) ==> Reach(e, v, x)
    decreases nodes - seen
  {
    var next := set d | d in e && d.0 in seen && d.1 in nodes && d.1 !in seen :: d.1;
    if next != {} {
      forall x | x in next ensures Reach(e, v, x) {
        var d :| d in e && d.0 in seen && d.1 in nodes && d.1 !in seen && d.1 == x;
        assert d == (d.0, d.1);
        EdgeReach(e, d.0, d.1);
        ReachTrans(e, v, d.0, x);
      }
      assert exists x :: x in next;
      ClosureSound(nodes, e, seen + next, v);
    }
  }

  lemma {:induction false} ClosureClosed<T>(nodes: set<T>, e: Edges<T>, seen: set<T>)
    requires Within(nodes, e)
    ensures seen <= Closure(nodes, e, seen)
    ensures forall d :: d in e && d.0 in Closure(nodes, e, seen) ==> d.1 in Closure(nodes, e, seen)
    decreases nodes - seen
  {
    var next := set d | d in e && d.0 in seen && d.1 in nodes && d.1 !in seen :: d.1;
    if next != {} {
      assert exists x :: x in next;
      ClosureClosed(nodes, e, seen + next);
    } else {
      assert forall d :: d in e && d.0 in seen ==> d.1 in seen || d.1 in next;
    }
  }

  lemma {:induction false} PathStaysIn<T>(e: Edges<T>, s: set<T>, p: seq<T>)
    requires forall d :: d in e && d.0 in s ==> d.1 in s
    requires IsPath(e, p) && p[1] in s
    ensures p[|p| - 1] in s
    decreases |p|
  {
    if |p| > 2 {
      assert (p[1], p[2]) in e;
      assert (p[1], p[2]).1 in s;
      PathStaysIn(e, s, p[1..]);
    }
  }

  /** The breadth-first search finds exactly the nodes reachable by a non-empty path. */
  lemma DescendantsExact<T(!new)>(nodes: set<T>, e: Edges<T>, v: T, x: T)
    requires Within(nodes, e)
    ensures x in Descendants(nodes, e, v) <==> Reach(e, v, x)
  {
    var start := set d | d in e && d.0 == v :: d.1;
    forall y | y in start ensures Reach(e, v, y) {
      var d :| d in e && d.0 == v && d.1 == y;
      assert d == (v, y);
      EdgeReach(e, v, y);
    }
    ClosureSound(nodes, e, start, v);
    ClosureClosed(nodes, e, start);
    if Reach(e, v, x) {
      var p :| PathFromTo(e, p, v, x);
      assert (p[0], p[1]) in e;
      assert (p[0], p[1]).1 in start;
      PathStaysIn(e, Closure(nodes, e, start), p);
    }
  }

  // ------------------------------------------------- removing a node "nicely"

  function Preds<T>(e: Edges<T>, n: T): set<T> { set d | d in e && d.1 == n :: d.0 }

  function Succs<T>(e: Edges<T>, n: T): set<T> { set d | d in e && d.0 == n :: d.1 }

  function Spliced<T(==)>(e: Edges<T>, n: T): Edges<T> {
    (set d | d in e && d.0 != n && d.1 != n)
    + (set a, b | a in Preds(e, n) && b in Succs(e, n) :: (a, b))
  }

  lemma SplicedMembers<T>(e: Edges<T>, n: T, a: T, b: T)
    ensures (a, b) in Spliced(e, n) <==>
            ((a, b) in e && a != n && b != n) || ((a, n) in e && (n, b) in e)
  {
    if (a, n) in e && (n, b) in e {
      assert (a, n).0 in Preds(e, n) && (n, b).1 in Succs(e, n);
      assert (a, b) in (set x, y | x in Preds(e, n) && y in Succs(e, n) :: (x, y));
    }
  }

  lemma SplicedImplied<T(!new)>(e: Edges<T>, n: T)
    ensures Implied(Spliced(e, n), e)
  {
    forall d | d in Spliced(e, n) ensures Reach(e, d.0, d.1) {
      assert d == (d.0, d.1);
      SplicedMembers(e, n, d.0, d.1);
      if d in e && d.0 != n && d.1 != n {
        EdgeReach(e, d.0, d.1);
      } else {
        EdgeReach(e, d.0, n);
        EdgeReach(e, n, d.1);
        ReachTrans(e, d.0, n, d.1);
      }
    }
  }

  lemma {:induction false} PathSpliced<T(!new)>(e: Edges<T>, n: T, p: seq<T>)
    requires IsPath(e, p) && p[0] != n && p[|p| - 1] != n
    ensures Reach(Spliced(e, n), p[0], p[|p| - 1])
    decreases |p|
  {
    var b := p[|p| - 1];
    var k := 1;
    while p[k] == n
      invariant 1 <= k < |p| - 1 || (k == |p| - 1 && p[k] != n)
      invariant forall i :: 1 <= i < k ==> p[i] == n
      decreases |p| - k
    {
      k := k + 1;
    }
    assert (p[k - 1], p[k]) in e && (p[0], p[1]) in e;
    SplicedMembers(e, n, p[0], p[k]);
    EdgeReach(Spliced(e, n), p[0], p[k]);
    if k < |p| - 1 {
      var q := p[k..];
      forall i | 0 <= i < |q| - 1 ensures (q[i], q[i + 1]) in e {
        assert q[i] == p[k + i] && q[i + 1] == p[k + i + 1];
      }
      PathSpliced(e, n, q);
      ReachTrans(Spliced(e, n), p[0], p[k], b);
    }
  }

  /** Splicing a node out changes no reachability between the other nodes, self-loop or not. */
  lemma SplicedReach<T(!new)>(e: Edges<T>, n: T, a: T, b: T)
    requires a != n && b != n
    ensures Reach(Spliced(e, n), a, b) <==> Reach(e, a, b)
  {
    if Reach(e, a, b) {
      var p :| PathFromTo(e, p, a, b);
      PathSpliced(e, n, p);
    }
    if Reach(Spliced(e, n), a, b) {
      SplicedImplied(e, n);
      ReachImplied(Spliced(e, n), e, a, b);
    }
  }

  lemma {:induction false} ConstantCycle<T>(e: Edges<T>, n: T, p: seq<T>)
    requires IsPath(e, p) && p[0] == n && p[|p| - 1] == n
    ensures (n, n) in e || exists i :: 0 < i < |p| - 1 && p[i] != n
  {
    assert (p[0], p[1]) in e;
    if |p| > 2 && p[1] == n {}
  }

  /** A cycle survives splicing (if only as a self-loop) and none is created. */
  lemma SplicedAcyclic<T(!new)>(e: Edges<T>, n: T)
    ensures Acyclic(Spliced(e, n)) <==> Acyclic(e)
  {
    SplicedImplied(e, n);
    if Acyclic(e) {
      forall a ensures !Reach(Spliced(e, n), a, a) {
        if Reach(Spliced(e, n), a, a) { ReachImplied(Spliced(e, n), e, a, a); }
      }
    } else {
      var a :| Reach(e, a, a);
      if a != n {
        SplicedReach(e, n, a, a);
      } else {
        var p :| PathFromTo(e, p, n, n);
        ConstantCycle(e, n, p);
        if (n, n) in e {
          SplicedMembers(e, n, n, n);
          EdgeReach(Spliced(e, n), n, n);
        } else {
          var i :| 0 < i < |p| - 1 && p[i] != n;
          CycleElsewhere(e, n, p, i);
          SplicedReach(e, n, p[i], p[i]);
        }
      }
    }
  }

  lemma CycleElsewhere<T(!new)>(e: Edges<T>, n: T, p: seq<T>, i: nat)
    requires PathFromTo(e, p, n, n) && 0 < i < |p| - 1
    ensures Reach(e, p[i], p[i])
  {
    var front, back := p[..i + 1], p[i..];
    forall k | 0 <= k < |back| - 1 ensures (back[k], back[k + 1]) in e {
      assert back[k] == p[i + k] && back[k + 1] == p[i + k + 1];
    }
    assert PathFromTo(e, front, n, p[i]);
    assert PathFromTo(e, back, p[i], n);
    ReachTrans(e, p[i], n, p[i]);
  }

  // -------------------------------------------------- transitive reduction

  /** An edge stays iff no other successor of its source already leads to its target. */
  function TransitiveReduction<T>(nodes: set<T>, e: Edges<T>): Edges<T> {
    set d | d in e && forall w | w in Succs(e, d.0) :: w == d.1 || d.1 !in Descendants(nodes, e, w)
  }

  /** An edge with a detour around it. */
  ghost predicate Redundant<T(!new)>(e: Edges<T>, a: T, b: T) {
    exists w :: (a, w) in e && w != b && Reach(e, w, b)
  }

  lemma ReductionMembers<T(!new)>(nodes: set<T>, e: Edges<T>, a: T, b: T)
    requires Within(nodes, e)
    ensures (a, b) in TransitiveReduction(nodes, e) <==> (a, b) in e && !Redundant(e, a, b)
  {
    forall w ensures w in Succs(e, a) <==> (a, w) in e {
      if (a, w) in e { assert (a, w).1 in Succs(e, a); }
    }
    forall w ensures b in Descendants(nodes, e, w) <==> Reach(e, w, b) {
      DescendantsExact(nodes, e, w, b);
    }
  }

  ghost function Ancestors<T(!new)>(nodes: set<T>, e: Edges<T>, v: T): set<T> {
    set x | x in nodes && Reach(e, x, v)
  }

  ghost function Rank<T(!new)>(nodes: set<T>, e: Edges<T>, v: T): nat {
    |Ancestors(nodes, e, v)|
  }

  lemma SubsetSize<T>(a: set<T>, b: set<T>)
    requires a < b
    ensures |a| < |b|
  {
    assert b == a + (b - a);
    assert |b| == |a| + |b - a|;
    assert b - a != {};
  }

  /** In an acyclic graph the number of ancestors grows along every path. */
  lemma RankGrows<T(!new)>(nodes: set<T>, e: Edges<T>, a: T, b: T)
    requires Within(nodes, e) && Acyclic(e) && Reach(e, a, b)
    ensures Rank(nodes, e, a) < Rank(nodes, e, b)
  {
    ReachWithin(nodes, e, a, b);
    forall x | x in Ancestors(nodes, e, a) ensures x in Ancestors(nodes, e, b) {
      ReachTrans(e, x, a, b);
    }
    assert a in Ancestors(nodes, e, b) && a !in Ancestors(nodes, e, a);
    SubsetSize(Ancestors(nodes, e, a), Ancestors(nodes, e, b));
  }

  lemma {:induction false} PathInReduction<T(!new)>(nodes: set<T>, e: Edges<T>, p: seq<T>)
    requires Within(nodes, e) && Acyclic(e) && IsPath(e, p)
    ensures Reach(TransitiveReduction(nodes, e), p[0], p[|p| - 1])
    decreases Rank(nodes, e, p[|p| - 1]) - Rank(nodes, e, p[0]), |p| == 2
  {
    var tr := TransitiveReduction(nodes, e);
    var a, b := p[0], p[|p| - 1];
    assert (p[0], p[1]) in e;
    EdgeReach(e, a, p[1]);
    assert Reach(e, a, b) by { assert PathFromTo(e, p, a, b); }
    RankGrows(nodes, e, a, b);
    RankGrows(nodes, e, a, p[1]);
    if |p| == 2 {
      ReductionMembers(nodes, e, a, b);
      if (a, b) in tr {
        EdgeReach(tr, a, b);
      } else {
        var w :| (a, w) in e && w != b && Reach(e, w, b);
        var q :| PathFromTo(e, q, w, b);
        var r := [a] + q;
        assert IsPath(e, r) by {
          forall i | 0 <= i < |r| - 1 ensures (r[i], r[i + 1]) in e {
            if i > 0 { assert r[i] == q[i - 1] && r[i + 1] == q[i]; }
          }
        }
        PathInReduction(nodes, e, r);
      }
    } else {
      assert PathFromTo(e, p[1..], p[1], b);
      RankGrows(nodes, e, p[1], b);
      PathInReduction(nodes, e, [a, p[1]]);
      PathInReduction(nodes, e, p[1..]);
      ReachTrans(tr, a, p[1], b);
    }
  }

  /** Transitive reduction of a DAG keeps reachability. */
  lemma ReductionReach<T(!new)>(nodes: set<T>, e: Edges<T>, a: T, b: T)
    requires Within(nodes, e) && Acyclic(e)
    ensures Reach(TransitiveReduction(nodes, e), a, b) <==> Reach(e, a, b)
  {
    if Reach(e, a, b) {
      var p :| PathFromTo(e, p, a, b);
      PathInReduction(nodes, e, p);
    }
    if Reach(TransitiveReduction(nodes, e), a, b) {
      SubsetImplied(TransitiveReduction(nodes, e), e);
      ReachImplied(TransitiveReduction(nodes, e), e, a, b);
    }
  }
}
