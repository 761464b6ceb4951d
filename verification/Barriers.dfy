/** Duplicate barriers of a parallel workload: removing them leaves the groups of calls between barriers alone. */
module Barriers {
  import opened Options
  import opened Sequences

  /** A barrier with the number it was given, or any other call. */
  datatype Step = Barrier(id: nat) | Call(name: nat)

  /** The positions of the barriers. */
  function BarrierIndexes(p: seq<Step>): (r: seq<nat>)
    ensures forall i :: 0 <= i < |r| ==> r[i] < |p|
    ensures forall i, j :: 0 <= i < j < |r| ==> r[i] < r[j]
  {
    if p == [] then []
    else BarrierIndexes(p[..|p| - 1]) + if p[|p| - 1].Barrier? then [|p| - 1] else []
  }

  /** The calls before the first barrier, between the barriers, and after the last one. */
  function Groups(p: seq<Step>): (g: seq<seq<nat>>)
    ensures |g| == |BarrierIndexes(p)| + 1
  {
    if p == [] then [[]]
    else
      var before := Groups(p[..|p| - 1]);
      var k := |before| - 1;
      match p[|p| - 1]
      case Barrier(_) => before + [[]]
      case Call(name) => before[..k] + [before[k] + [name]]
  }

  /** The process without the barriers that come as number i, i in d. */
  function Strip(p: seq<Step>, d: set<nat>): seq<Step> {
    if p == [] then []
    else
      var last := p[|p| - 1];
      Strip(p[..|p| - 1], d)
      + if last.Barrier? && |BarrierIndexes(p[..|p| - 1])| in d then [] else [last]
  }

  lemma {:induction false} BarrierIndexesSay(p: seq<Step>)
    ensures forall i: nat :: i in BarrierIndexes(p) <==> i < |p| && p[i].Barrier?
  {
    if p != [] { BarrierIndexesSay(p[..|p| - 1]); }
  }

  /** A call is in the group of the barriers before it, at its distance from the last of them. */
  lemma GroupsSay(p: seq<Step>, x: nat)
    requires x < |p| && p[x].Call?
    ensures var b, g := BarrierIndexes(p), |BarrierIndexes(p[..x])|;
            && g <= |b| && (g > 0 ==> b[g - 1] < x) && (g < |b| ==> x < b[g])
            && var at := if g == 0 then x else x - b[g - 1] - 1;
               at < |Groups(p)[g]| && Groups(p)[g][at] == p[x].name
  {
    Bounds(p, x);
    CallPlaced(p, x);
  }

  lemma Bounds(p: seq<Step>, x: nat)
    requires x < |p| && p[x].Call?
    ensures var b, g := BarrierIndexes(p), |BarrierIndexes(p[..x])|;
            g <= |b| && (g > 0 ==> b[g - 1] < x) && (g < |b| ==> x < b[g])
  {
    IndexesPrefix(p[..x], p);
    BarrierIndexesSay(p);
  }

  lemma {:induction false} CallPlaced(p: seq<Step>, x: nat)
    requires x < |p| && p[x].Call?
    ensures HasAt(Groups(p), |BarrierIndexes(p[..x])|, Distance(p, x), p[x].name)
  {
    var q := p[..|p| - 1];
    if x < |q| {
      CallPlaced(q, x);
      DistanceStays(p, x);
      HasStays(p, |BarrierIndexes(p[..x])|, Distance(q, x), p[x].name);
    } else {
      assert p[..x] == q;
      LastPlaced(p);
    }
  }

  lemma DistanceStays(p: seq<Step>, x: nat)
    requires x < |p| - 1
    ensures p[..|p| - 1][..x] == p[..x] && Distance(p[..|p| - 1], x) == Distance(p, x)
  {
    var q := p[..|p| - 1];
    IndexesPrefix(q, p);
    assert q[..x] == p[..x];
    IndexesPrefix(p[..x], q);
  }

  lemma LastPlaced(p: seq<Step>)
    requires p != [] && p[|p| - 1].Call?
    ensures var x := |p| - 1; HasAt(Groups(p), |BarrierIndexes(p[..x])|, Distance(p, x), p[x].name)
  {
    GroupsAppend(p);
    GroupLengths(p[..|p| - 1]);
  }

  /** How far a position is behind the last barrier before it, or the front. */
  function Distance(p: seq<Step>, x: nat): int
    requires x < |p|
  {
    var b, g := BarrierIndexes(p), |BarrierIndexes(p[..x])|;
    if 0 < g <= |b| then x - b[g - 1] - 1 else x
  }

  ghost predicate HasAt(gs: seq<seq<nat>>, g: int, at: int, name: nat) {
    0 <= g < |gs| && 0 <= at < |gs[g]| && gs[g][at] == name
  }

  lemma HasStays(p: seq<Step>, g: int, at: int, name: nat)
    requires p != [] && HasAt(Groups(p[..|p| - 1]), g, at, name)
    ensures HasAt(Groups(p), g, at, name)
  {
    GroupsAppend(p);
  }

  lemma GroupsAppend(p: seq<Step>)
    requires p != []
    ensures var q, s := p[..|p| - 1], p[|p| - 1];
            && BarrierIndexes(p) == BarrierIndexes(q) + (if s.Barrier? then [|q|] else [])
            && (forall g :: 0 <= g < |Groups(q)| - 1 ==> Groups(p)[g] == Groups(q)[g])
            && (s.Call? ==> Groups(p)[|Groups(q)| - 1] == Groups(q)[|Groups(q)| - 1] + [s.name])
            && (s.Barrier? ==> Groups(p)[|Groups(q)| - 1] == Groups(q)[|Groups(q)| - 1])
  {}

  lemma GroupLengths(q: seq<Step>)
    ensures var b := BarrierIndexes(q); |Groups(q)[|b|]| == if b == [] then |q| else |q| - 1 - b[|b| - 1]
  {
    LastGroup(q);
    if BarrierIndexes(q) == [] { OnlyCalls(q); }
  }

  lemma {:induction false} OnlyCalls(q: seq<Step>)
    requires BarrierIndexes(q) == []
    ensures |Groups(q)[0]| == |q|
  {
    if q != [] { OnlyCalls(q[..|q| - 1]); }
  }

  lemma GroupsStep(p: seq<Step>, s: Step)
    ensures var k := |Groups(p)| - 1;
            Groups(p + [s]) == if s.Barrier? then Groups(p) + [[]] else Groups(p)[..k] + [Groups(p)[k] + [s.name]]
    ensures BarrierIndexes(p + [s]) == BarrierIndexes(p) + if s.Barrier? then [|p|] else []
  {
    assert (p + [s])[..|p|] == p;
  }

  /** Two barriers stand next to each other exactly when the group between them is empty. */
  lemma {:induction false} GapIsGroup(p: seq<Step>, i: nat)
    requires i < |BarrierIndexes(p)|
    ensures i > 0 ==> |Groups(p)[i]| == BarrierIndexes(p)[i] - BarrierIndexes(p)[i - 1] - 1
    decreases |p|
  {
    var q, s := p[..|p| - 1], p[|p| - 1];
    assert p == q + [s];
    GroupsStep(q, s);
    if i < |BarrierIndexes(q)| {
      GapIsGroup(q, i);
    } else {
      LastGroup(q);
    }
  }

  lemma {:induction false} LastGroup(p: seq<Step>)
    ensures var b := BarrierIndexes(p); b != [] ==> |Groups(p)[|b|]| == |p| - 1 - b[|b| - 1]
  {
    if p != [] {
      var q, s := p[..|p| - 1], p[|p| - 1];
      assert p == q + [s];
      GroupsStep(q, s);
      LastGroup(q);
    }
  }

  /** All but the last group are subject to removal. */
  function KeepLast(g: seq<seq<nat>>, d: set<nat>): seq<seq<nat>>
    requires g != []
  {
    LeaveOut(g[..|g| - 1], d) + [g[|g| - 1]]
  }

  lemma KeepLastCall(g: seq<seq<nat>>, d: set<nat>, c: seq<nat>)
    requires g != []
    ensures var k := |g| - 1; KeepLast(g[..k] + [c], d) == KeepLast(g, d)[..|KeepLast(g, d)| - 1] + [c]
  {
    var k := |g| - 1;
    assert (g[..k] + [c])[..k] == g[..k];
  }

  lemma KeepLastBarrier(g: seq<seq<nat>>, d: set<nat>)
    requires g != [] && (|g| - 1 in d ==> g[|g| - 1] == [])
    ensures KeepLast(g + [[]], d) == if |g| - 1 in d then KeepLast(g, d) else KeepLast(g, d) + [[]]
  {
    assert (g + [[]])[..|g|] == g;
  }

  /** One more step; a barrier that is removed must come behind an empty group. */
  lemma StripStep(q: seq<Step>, s: Step, d: set<nat>)
    requires Groups(Strip(q, d)) == KeepLast(Groups(q), d)
    requires var k := |BarrierIndexes(q)|; s.Barrier? && k in d ==> Groups(q)[k] == []
    ensures Groups(Strip(q + [s], d)) == KeepLast(Groups(q + [s]), d)
  {
    var k := |BarrierIndexes(q)|;
    GroupsStep(q, s);
    GroupsStep(Strip(q, d), s);
    assert (q + [s])[..|q|] == q;
    if s.Barrier? {
      KeepLastBarrier(Groups(q), d);
      if k in d { assert Strip(q + [s], d) == Strip(q, d); }
    } else {
      KeepLastCall(Groups(q), d, Groups(q)[k] + [s.name]);
    }
  }

  /** Removing barriers behind empty groups removes these groups. */
  lemma {:induction false} StripDrops(p: seq<Step>, d: set<nat>)
    requires forall i :: i in d && i < |BarrierIndexes(p)| ==> Groups(p)[i] == []
    ensures Groups(Strip(p, d)) == KeepLast(Groups(p), d)
  {
    if p != [] {
      var q, s := p[..|p| - 1], p[|p| - 1];
      assert p == q + [s];
      forall i | i in d && i < |BarrierIndexes(q)| ensures Groups(q)[i] == [] { EarlierGroup(q, s, i); }
      StripDrops(q, d);
      EarlierGroup(q, s, |BarrierIndexes(q)|);
      StripStep(q, s, d);
    }
  }

  /** A group that a barrier has ended does not change any more. */
  lemma EarlierGroup(q: seq<Step>, s: Step, i: nat)
    requires i <= |BarrierIndexes(q)|
    ensures i < |BarrierIndexes(q + [s])| ==> Groups(q + [s])[i] == Groups(q)[i]
  {
    GroupsStep(q, s);
  }

  // ------------------------------------------------------------------ the removal

  /** An index that counts from the end when it is negative. */
  function At(s: seq<nat>, i: int): nat
    requires -|s| <= i < |s|
  {
    if i < 0 then s[i + |s|] else s[i]
  }

  ghost predicate SameCount(ps: seq<seq<Step>>, n: nat) {
    forall k :: 0 <= k < |ps| ==> |BarrierIndexes(ps[k])| == n
  }

  /** What the check of the counts lets through: it overlooks processes without any barrier. */
  predicate CountsAgree(ps: seq<seq<Step>>, n: nat) {
    && n > 0 && (exists k :: 0 <= k < |ps| && |BarrierIndexes(ps[k])| == n)
    && forall k :: 0 <= k < |ps| ==> |BarrierIndexes(ps[k])| == 0 || |BarrierIndexes(ps[k])| == n
  }

  /** In this process, barrier i comes right behind the barrier before it. */
  predicate Follows(p: seq<Step>, i: nat)
    requires i < |BarrierIndexes(p)|
  {
    var b := BarrierIndexes(p);
    b[i] != 0 && b[i] - 1 == At(b, i - 1)
  }

  /** Whether barrier i is a duplicate in the processes from k on; None when one is reached that has no such
      barrier. */
  function DuplicateFrom(ps: seq<seq<Step>>, i: nat, k: nat): Option<bool>
    decreases |ps| - k
  {
    if k >= |ps| then Some(true)
    else if i >= |BarrierIndexes(ps[k])| then None
    else if Follows(ps[k], i) then DuplicateFrom(ps, i, k + 1)
    else Some(false)
  }

  lemma FollowsEmpty(p: seq<Step>, i: nat)
    requires i < |BarrierIndexes(p)|
    ensures Follows(p, i) <==> i > 0 && Groups(p)[i] == []
  {
    var b := BarrierIndexes(p);
    GapIsGroup(p, i);
    if i == 0 { assert b[0] <= b[|b| - 1]; }
  }

  /** The process has n barriers, and between barrier i and the one before it there is nothing. */
  ghost predicate EmptyAt(p: seq<Step>, n: nat, i: nat) {
    |BarrierIndexes(p)| == n && 0 < i < n && Groups(p)[i] == []
  }

  lemma EmptyFollows(p: seq<Step>, n: nat, i: nat)
    requires i < n && (|BarrierIndexes(p)| == 0 || |BarrierIndexes(p)| == n)
    ensures EmptyAt(p, n, i) <==> i < |BarrierIndexes(p)| && Follows(p, i)
  {
    if |BarrierIndexes(p)| == n { FollowsEmpty(p, i); }
  }

  lemma {:induction false} DuplicateIsEmpty(ps: seq<seq<Step>>, n: nat, i: nat, k: nat)
    requires CountsAgree(ps, n) && i < n && k <= |ps|
    ensures DuplicateFrom(ps, i, k) == Some(true) <==> forall j :: k <= j < |ps| ==> EmptyAt(ps[j], n, i)
    decreases |ps| - k
  {
    if k < |ps| {
      EmptyFollows(ps[k], n, i);
      DuplicateIsEmpty(ps, n, i, k + 1);
    }
  }

  ghost predicate FailsAt(ps: seq<seq<Step>>, n: nat, i: nat, k: nat, m: nat) {
    k <= m < |ps| && BarrierIndexes(ps[m]) == [] && forall j :: k <= j < m ==> EmptyAt(ps[j], n, i)
  }

  lemma {:induction false} WhereItFails(ps: seq<seq<Step>>, n: nat, i: nat, k: nat) returns (m: nat)
    requires CountsAgree(ps, n) && i < n && k <= |ps| && DuplicateFrom(ps, i, k).None?
    ensures FailsAt(ps, n, i, k, m)
    decreases |ps| - k
  {
    m := k;
    if BarrierIndexes(ps[k]) != [] {
      EmptyFollows(ps[k], n, i);
      m := WhereItFails(ps, n, i, k + 1);
    }
  }

  lemma {:induction false} ThereItFails(ps: seq<seq<Step>>, n: nat, i: nat, k: nat, m: nat)
    requires CountsAgree(ps, n) && i < n && FailsAt(ps, n, i, k, m)
    ensures DuplicateFrom(ps, i, k).None?
    decreases m - k
  {
    if k < m {
      assert EmptyAt(ps[k], n, i);
      EmptyFollows(ps[k], n, i);
      ThereItFails(ps, n, i, k + 1, m);
    }
  }

  /** The lookup of a barrier fails exactly when a process without barriers comes behind processes that all have the
      barrier right behind the one before it. */
  lemma LookupFails(ps: seq<seq<Step>>, n: nat, i: nat)
    requires CountsAgree(ps, n) && i < n
    ensures DuplicateFrom(ps, i, 0).None? <==>
            exists m :: 0 <= m < |ps| && BarrierIndexes(ps[m]) == []
                        && forall j :: 0 <= j < m ==> |BarrierIndexes(ps[j])| == n && 0 < i && Groups(ps[j])[i] == []
  {
    if DuplicateFrom(ps, i, 0).None? { var m := WhereItFails(ps, n, i, 0); }
    forall m | 0 <= m < |ps| && FailsAt(ps, n, i, 0, m) ensures DuplicateFrom(ps, i, 0).None? {
      ThereItFails(ps, n, i, 0, m);
    }
    forall m: nat
      ensures FailsAt(ps, n, i, 0, m) <==>
              && 0 <= m < |ps| && BarrierIndexes(ps[m]) == []
              && forall j :: 0 <= j < m ==> |BarrierIndexes(ps[j])| == n && 0 < i && Groups(ps[j])[i] == []
    {}
  }

  /** The positions of the barriers that come as number i, i in d. */
  function PositionsOf(p: seq<Step>, d: set<nat>): set<nat> {
    set i | i in d && i < |BarrierIndexes(p)| :: BarrierIndexes(p)[i]
  }

  lemma {:induction false} KeepIsStrip(p: seq<Step>, d: set<nat>, all: seq<Step>)
    requires p <= all
    ensures LeaveOut(p, PositionsOf(all, d)) == Strip(p, d)
    ensures BarrierIndexes(p) <= BarrierIndexes(all)
    ensures forall i :: |BarrierIndexes(p)| <= i < |BarrierIndexes(all)| ==> BarrierIndexes(all)[i] >= |p|
    decreases |p|, |all|
  {
    IndexesPrefix(p, all);
    if p != [] {
      var q := p[..|p| - 1];
      KeepIsStrip(q, d, all);
      var k := |BarrierIndexes(q)|;
      var b := BarrierIndexes(all);
      if p[|p| - 1].Barrier? {
        assert b[k] == BarrierIndexes(p)[k] == |p| - 1;
        assert |p| - 1 in PositionsOf(all, d) <==> k in d;
      } else {
        assert BarrierIndexes(p) == BarrierIndexes(q);
        assert |p| - 1 !in PositionsOf(all, d);
      }
    }
  }

  lemma {:induction false} IndexesPrefix(p: seq<Step>, all: seq<Step>)
    requires p <= all
    ensures BarrierIndexes(p) <= BarrierIndexes(all)
    ensures forall i :: |BarrierIndexes(p)| <= i < |BarrierIndexes(all)| ==> BarrierIndexes(all)[i] >= |p|
    decreases |all|
  {
    if |p| < |all| {
      IndexesPrefix(p, all[..|all| - 1]);
    } else {
      assert p == all;
    }
  }

  /** Numbers the barriers from 1 on. */
  function Numbered(p: seq<Step>): (r: seq<Step>)
    ensures |r| == |p|
    ensures forall i :: 0 <= i < |p| ==> (r[i].Barrier? <==> p[i].Barrier?) && (p[i].Call? ==> r[i] == p[i])
  {
    if p == [] then []
    else
      var q := p[..|p| - 1];
      Numbered(q) + [if p[|p| - 1].Barrier? then Barrier(|BarrierIndexes(q)| + 1) else p[|p| - 1]]
  }

  /** The barriers that stay are numbered consecutively from 1. */
  lemma {:induction false} NumberedIds(p: seq<Step>, k: nat)
    requires k < |BarrierIndexes(p)|
    ensures Numbered(p)[BarrierIndexes(p)[k]] == Barrier(k + 1)
  {
    if k < |BarrierIndexes(p[..|p| - 1])| { NumberedIds(p[..|p| - 1], k); }
  }

  lemma {:induction false} NumberedSame(p: seq<Step>)
    ensures Groups(Numbered(p)) == Groups(p) && BarrierIndexes(Numbered(p)) == BarrierIndexes(p)
  {
    if p != [] {
      var q, s := p[..|p| - 1], p[|p| - 1];
      NumberedSame(q);
      assert p == q + [s];
      GroupsStep(q, s);
      GroupsStep(Numbered(q), if s.Barrier? then Barrier(|BarrierIndexes(q)| + 1) else s);
    }
  }

  /** The numbers of the barriers that are removed. */
  function Duplicates(ps: seq<seq<Step>>, n: nat): set<nat> {
    set i | 0 <= i < n && DuplicateFrom(ps, i, 0) == Some(true)
  }

  /** What removal makes of one process. */
  function Cleaned(p: seq<Step>, d: set<nat>): seq<Step> { Numbered(LeaveOut(p, PositionsOf(p, d))) }

  /** Barriers are removed only when all processes have the same number of them, and then those that end a group, not
      the first, that is empty in every process. */
  lemma DuplicatesAre(ps: seq<seq<Step>>, n: nat, i: nat)
    requires CountsAgree(ps, n)
    ensures i in Duplicates(ps, n) <==>
            SameCount(ps, n) && 0 < i < n && forall j :: 0 <= j < |ps| ==> Groups(ps[j])[i] == []
  {
    if i < n {
      DuplicateIsEmpty(ps, n, i, 0);
      assert i in Duplicates(ps, n) <==> forall j :: 0 <= j < |ps| ==> EmptyAt(ps[j], n, i);
      if SameCount(ps, n) && 0 < i && forall j :: 0 <= j < |ps| ==> Groups(ps[j])[i] == [] {
        assert forall j :: 0 <= j < |ps| ==> EmptyAt(ps[j], n, i);
      }
    }
  }

  /** Every process loses these groups; all others stay as they are, in the same order. */
  lemma CleanedGroups(ps: seq<seq<Step>>, n: nat, k: nat)
    requires CountsAgree(ps, n) && k < |ps|
    ensures var g := Groups(ps[k]);
            Groups(Cleaned(ps[k], Duplicates(ps, n))) == LeaveOut(g[..|g| - 1], Duplicates(ps, n)) + [g[|g| - 1]]
  {
    var d := Duplicates(ps, n);
    forall i | i in d ensures i < |BarrierIndexes(ps[k])| ==> Groups(ps[k])[i] == [] { DuplicatesAre(ps, n, i); }
    KeepIsStrip(ps[k], d, ps[k]);
    StripDrops(ps[k], d);
    NumberedSame(Strip(ps[k], d));
  }

  lemma {:induction false} DropLength(g: seq<seq<nat>>, h: seq<seq<nat>>, d: set<nat>)
    requires |g| == |h|
    ensures |LeaveOut(g, d)| == |LeaveOut(h, d)|
  {
    if g != [] { DropLength(g[..|g| - 1], h[..|h| - 1], d); }
  }

  lemma {:induction false} DropNothing(g: seq<seq<nat>>)
    ensures LeaveOut(g, {}) == g
  {
    if g != [] { DropNothing(g[..|g| - 1]); }
  }

  /** Afterwards the processes have the same number of barriers exactly when they had before. */
  lemma CleanedCount(ps: seq<seq<Step>>, n: nat)
    requires CountsAgree(ps, n)
    ensures SameCount(ps, n) <==>
            forall j, k :: 0 <= j < |ps| && 0 <= k < |ps| ==>
              |BarrierIndexes(Cleaned(ps[j], Duplicates(ps, n)))| == |BarrierIndexes(Cleaned(ps[k], Duplicates(ps, n)))|
  {
    var d := Duplicates(ps, n);
    forall k | 0 <= k < |ps|
      ensures |BarrierIndexes(Cleaned(ps[k], d))| == |LeaveOut(Groups(ps[k])[..|Groups(ps[k])| - 1], d)|
    {
      CleanedGroups(ps, n, k);
    }
    if SameCount(ps, n) {
      forall j, k | 0 <= j < |ps| && 0 <= k < |ps|
        ensures |BarrierIndexes(Cleaned(ps[j], d))| == |BarrierIndexes(Cleaned(ps[k], d))|
      {
        DropLength(Groups(ps[j])[..n], Groups(ps[k])[..n], d);
      }
    } else {
      forall i ensures i !in d { DuplicatesAre(ps, n, i); }
      assert d == {};
      forall k | 0 <= k < |ps| ensures |BarrierIndexes(Cleaned(ps[k], d))| == |BarrierIndexes(ps[k])| {
        DropNothing(Groups(ps[k])[..|Groups(ps[k])| - 1]);
      }
      var j :| 0 <= j < |ps| && |BarrierIndexes(ps[j])| == n;
      var k :| 0 <= k < |ps| && |BarrierIndexes(ps[k])| != n;
      assert |BarrierIndexes(Cleaned(ps[j], d))| != |BarrierIndexes(Cleaned(ps[k], d))|;
    }
  }

  /** The check lets different numbers pass: one process with a barrier and one without. */
  lemma CountsMayDiffer()
    ensures var ps := [[Barrier(0)], [Call(7)]];
            CountsAgree(ps, 1) && DuplicateFrom(ps, 0, 0).Some? && !SameCount(ps, 1)
  {
    var a, b := [Barrier(0)], [Call(7)];
    OneStep(Barrier(0));
    OneStep(Call(7));
    DifferingCounts([a, b]);
  }

  lemma OneStep(s: Step)
    ensures BarrierIndexes([s]) == if s.Barrier? then [0] else []
  {
    assert [s][..0] == [];
  }

  lemma DifferingCounts(ps: seq<seq<Step>>)
    requires |ps| == 2 && |BarrierIndexes(ps[0])| == 1 && |BarrierIndexes(ps[1])| == 0
    ensures CountsAgree(ps, 1) && DuplicateFrom(ps, 0, 0).Some? && !SameCount(ps, 1)
  {
    assert !Follows(ps[0], 0);
  }

  class Workload {
    var processes: seq<seq<Step>>

    constructor (processes: seq<seq<Step>>)
      ensures this.processes == processes
    {
      this.processes := processes;
    }

    /** The barrier positions of every process. */
    method Collect() returns (barriers: seq<seq<nat>>)
      ensures |barriers| == |processes| && forall k :: 0 <= k < |processes| ==>
                barriers[k] == BarrierIndexes(processes[k])
    {
      barriers := [];
      for k := 0 to |processes|
        invariant |barriers| == k && forall j :: 0 <= j < k ==> barriers[j] == BarrierIndexes(processes[j])
      {
        var p, b: seq<nat> := processes[k], [];
        for i := 0 to |p|
          invariant b == BarrierIndexes(p[..i])
        {
          assert p[..i + 1][..i] == p[..i];
          if p[i].Barrier? { b := b + [i]; }
        }
        assert p[..|p|] == p;
        barriers := barriers + [b];
      }
    }

    /** The one count that is not zero; None when there is none or more than one. */
    method BarrierCount(barriers: seq<seq<nat>>) returns (n: Option<nat>)
      requires |barriers| == |processes|
      requires forall k :: 0 <= k < |processes| ==> barriers[k] == BarrierIndexes(processes[k])
      ensures n.Some? ==> CountsAgree(processes, n.value)
      ensures n.None? ==> forall m :: !CountsAgree(processes, m)
    {
      n := None;
      for k := 0 to |barriers|
        invariant n.None? ==> forall j :: 0 <= j < k ==> |barriers[j]| == 0
        invariant n.Some? ==> n.value > 0 && exists j :: 0 <= j < k && |BarrierIndexes(processes[j])| == n.value
        invariant n.Some? ==> forall j :: 0 <= j < k ==> |barriers[j]| == 0 || |barriers[j]| == n.value
      {
        assert barriers[k] == BarrierIndexes(processes[k]);
        if |barriers[k]| > 0 {
          if n.Some? && n.value != |barriers[k]| {
            return None;
          }
          n := Some(|barriers[k]|);
        }
      }
    }

    /** Whether barrier i is a duplicate; None where the lookup fails. */
    method IsDuplicate(barriers: seq<seq<nat>>, i: nat) returns (dup: Option<bool>)
      requires |barriers| == |processes|
      requires forall k :: 0 <= k < |processes| ==> barriers[k] == BarrierIndexes(processes[k])
      ensures dup == DuplicateFrom(processes, i, 0)
    {
      for k := 0 to |processes|
        invariant DuplicateFrom(processes, i, 0) == DuplicateFrom(processes, i, k)
      {
        assert barriers[k] == BarrierIndexes(processes[k]);
        if i >= |barriers[k]| {
          return None;
        }
        if barriers[k][i] == 0 || barriers[k][i] - 1 != At(barriers[k], i - 1) {
          return Some(false);
        }
      }
      dup := Some(true);
    }

    method FindDuplicates(barriers: seq<seq<nat>>, n: nat) returns (dups: Option<set<nat>>)
      requires |barriers| == |processes|
      requires forall k :: 0 <= k < |processes| ==> barriers[k] == BarrierIndexes(processes[k])
      ensures dups.Some? <==> forall i :: 0 <= i < n ==> DuplicateFrom(processes, i, 0).Some?
      ensures dups.Some? ==> dups.value == Duplicates(processes, n)
    {
      var found: set<nat> := {};
      for i := 0 to n
        invariant found == Duplicates(processes, i)
        invariant forall j :: 0 <= j < i ==> DuplicateFrom(processes, j, 0).Some?
      {
        var dup := IsDuplicate(barriers, i);
        if dup.None? {
          return None;
        }
        if dup.value { found := found + {i}; }
      }
      dups := Some(found);
    }

    /** The removal of duplicate barriers and the numbering of the others; false where it fails. */
    method RemoveDuplicates() returns (ok: bool)
      modifies `processes
      ensures ok <==> exists n: nat :: CountsAgree(old(processes), n)
                                  && forall i :: 0 <= i < n ==> DuplicateFrom(old(processes), i, 0).Some?
      ensures !ok ==> processes == old(processes)
      ensures ok ==> |processes| == |old(processes)|
      ensures forall n: nat, k :: ok && CountsAgree(old(processes), n) && 0 <= k < |processes| ==>
                processes[k] == Cleaned(old(processes)[k], Duplicates(old(processes), n))
    {
      var barriers := Collect();
      var n := BarrierCount(barriers);
      if n.None? {
        return false;
      }
      OneCount(processes, n.value);
      var dups := FindDuplicates(barriers, n.value);
      if dups.None? {
        return false;
      }
      CleanAll(dups.value);
      ok := true;
    }

    method CleanAll(dups: set<nat>)
      modifies `processes
      ensures |processes| == |old(processes)|
      ensures forall k :: 0 <= k < |processes| ==> processes[k] == Cleaned(old(processes)[k], dups)
    {
      var cleaned: seq<seq<Step>> := [];
      for k := 0 to |processes|
        invariant |cleaned| == k && forall j :: 0 <= j < k ==> cleaned[j] == Cleaned(processes[j], dups)
      {
        cleaned := cleaned + [Cleaned(processes[k], dups)];
      }
      processes := cleaned;
    }
  }

  lemma OneCount(ps: seq<seq<Step>>, n: nat)
    requires CountsAgree(ps, n)
    ensures forall m :: CountsAgree(ps, m) ==> m == n
  {}
}
