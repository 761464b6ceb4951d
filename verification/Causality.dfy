/** The persists-before relation and the thinning of a frontier by victims that failed to persist. */
module Causality {
  import opened Sequences
  import opened Digraphs
  import opened Traces
  import opened ExecGraphs
  import opened Frontiers

  /** An fsync of one of the call's paths. Reduced graphs hold no network calls, which have no paths. */
  predicate Syncs(sync: Call, c: Call) {
    sync.op.Fsync? && !IsNetwork(c) && HasSamePath(sync, c)
  }

  /** a is fsynced before b happens. */
  ghost predicate SyncedBetween(nodes: set<Call>, e: Edges<Call>, a: Call, b: Call) {
    exists s :: s in nodes && Syncs(s, a) && Reach(e, a, s) && Reach(e, s, b)
  }

  /** On one server order is persistence order; across servers only an fsync in between forces it. */
  ghost predicate PersistsBefore(nodes: set<Call>, e: Edges<Call>, a: Call, b: Call) {
    if a.service == b.service then Reach(e, a, b) else SyncedBetween(nodes, e, a, b)
  }

  /** What the relation says of two calls: on one server, that a happens before b; across servers, that an fsync of a
      path of a lies in between. Links and renames have two paths. */
  lemma PersistsSays(nodes: set<Call>, e: Edges<Call>, a: Call, b: Call)
    requires !a.op.Sendto? && !a.op.Recvfrom?
    ensures a.service == b.service ==> (PersistsBefore(nodes, e, a, b) <==> Reach(e, a, b))
    ensures a.service != b.service && (a.op.Link? || a.op.Rename?) ==>
              (PersistsBefore(nodes, e, a, b) <==>
               exists s :: s in nodes && s.op.Fsync? && (s.op.path == a.op.src || s.op.path == a.op.dest)
                           && Reach(e, a, s) && Reach(e, s, b))
    ensures a.service != b.service && !a.op.Link? && !a.op.Rename? ==>
              (PersistsBefore(nodes, e, a, b) <==>
               exists s :: s in nodes && s.op.Fsync? && s.op.path == a.op.path && Reach(e, a, s) && Reach(e, s, b))
  {
    forall s: Call | s.op.Fsync?
      ensures Syncs(s, a) <==> if a.op.Link? || a.op.Rename? then s.op.path == a.op.src || s.op.path == a.op.dest
                               else s.op.path == a.op.path
    {
      SyncsSay(s, a);
    }
  }

  lemma SyncsSay(s: Call, a: Call)
    requires s.op.Fsync? && !a.op.Sendto? && !a.op.Recvfrom?
    ensures Syncs(s, a) <==> if a.op.Link? || a.op.Rename? then s.op.path == a.op.src || s.op.path == a.op.dest
                             else s.op.path == a.op.path
  {
    PathsSay(s, s.op.path);
    PathsSay(a, s.op.path);
    if HasSamePath(s, a) {
      var p :| p in Paths(s) && p in Paths(a);
      PathsSay(s, p);
    }
  }

  lemma PathsSay(a: Call, p: string)
    requires !a.op.Sendto? && !a.op.Recvfrom?
    ensures p in Paths(a) <==> if a.op.Link? || a.op.Rename? then p == a.op.src || p == a.op.dest else p == a.op.path
  {}

  // ------------------------------------------------------------ laws of the relation

  lemma PersistsIsHappens(nodes: set<Call>, e: Edges<Call>, a: Call, b: Call)
    requires PersistsBefore(nodes, e, a, b)
    ensures Reach(e, a, b)
  {
    if a.service != b.service {
      var s :| s in nodes && Syncs(s, a) && Reach(e, a, s) && Reach(e, s, b);
      ReachTrans(e, a, s, b);
    }
  }

  /** Chain rule: the relation extends along happens-before, unless the chain stays on a's server and then leaves
      it. */
  lemma ChainRule(nodes: set<Call>, e: Edges<Call>, a: Call, b: Call, c: Call)
    requires PersistsBefore(nodes, e, a, b) && Reach(e, b, c)
    requires a.service != b.service || c.service == a.service
    ensures PersistsBefore(nodes, e, a, c)
  {
    PersistsIsHappens(nodes, e, a, b);
    ReachTrans(e, a, b, c);
    if a.service != b.service {
      var s :| s in nodes && Syncs(s, a) && Reach(e, a, s) && Reach(e, s, b);
      ReachTrans(e, s, b, c);
    }
  }

  /** Two steps of the relation, both within the frontier. */
  ghost predicate TwoSteps(nodes: set<Call>, e: Edges<Call>, front: set<Call>, a: Call, b: Call) {
    exists c :: c in front && PersistsBefore(nodes, e, a, c) && PersistsBefore(nodes, e, c, b)
  }

  /** Chains of three steps never reach further than chains of at most two. */
  lemma ThreeStepsCollapse(nodes: set<Call>, e: Edges<Call>, front: set<Call>, a: Call, b: Call, c: Call, d: Call)
    requires b in front && c in front
    requires PersistsBefore(nodes, e, a, b) && PersistsBefore(nodes, e, b, c) && PersistsBefore(nodes, e, c, d)
    ensures PersistsBefore(nodes, e, a, d) || TwoSteps(nodes, e, front, a, d)
  {
    if b.service != c.service || d.service == b.service {
      PersistsIsHappens(nodes, e, c, d);
      ChainRule(nodes, e, b, c, d);
    } else {
      PersistsIsHappens(nodes, e, b, c);
      ChainRule(nodes, e, a, b, c);
    }
  }

  // --------------------------------------------------------------- thinned frontiers

  /** A set of calls of the frontier that could be what persisted: with every call, all that persists before it. */
  ghost predicate Persistable(nodes: set<Call>, e: Edges<Call>, front: set<Call>, s: set<Call>) {
    s <= front && forall a, b :: a in front && b in s && PersistsBefore(nodes, e, a, b) ==> a in s
  }

  /** The condition under which a victim is refused for a pivot. */
  ghost predicate Refused(nodes: set<Call>, e: Edges<Call>, front: set<Call>, victim: Call, pivot: Call) {
    PersistsBefore(nodes, e, victim, pivot) || TwoSteps(nodes, e, front, victim, pivot)
  }

  /** The calls that go missing together with a victim. */
  ghost function Dropped(nodes: set<Call>, e: Edges<Call>, front: set<Call>, victims: set<Call>): set<Call> {
    set c | c in front && (c in victims || exists v :: v in victims && PersistsBefore(nodes, e, v, c))
  }

  /** The calls that no persistable set without the victims can hold. */
  ghost function Doomed(nodes: set<Call>, e: Edges<Call>, front: set<Call>, victims: set<Call>): set<Call> {
    set c | c in front && (c in victims || exists v :: v in victims && Refused(nodes, e, front, v, c))
  }

  /** front minus the doomed calls is the greatest persistable set without the victims. */
  lemma GreatestPersistable(nodes: set<Call>, e: Edges<Call>, front: set<Call>, victims: set<Call>)
    requires victims <= front
    ensures var rest := front - Doomed(nodes, e, front, victims);
            && Persistable(nodes, e, front, rest) && rest !! victims
            && forall s :: Persistable(nodes, e, front, s) && s !! victims ==> s <= rest
  {
    var doomed := Doomed(nodes, e, front, victims);
    forall a, b | a in front && a in doomed && b in front && PersistsBefore(nodes, e, a, b) ensures b in doomed {
      if a in victims {
        assert Refused(nodes, e, front, a, b);
      } else {
        var v :| v in victims && Refused(nodes, e, front, v, a);
        if PersistsBefore(nodes, e, v, a) {
          assert TwoSteps(nodes, e, front, v, b);
        } else {
          var c :| c in front && PersistsBefore(nodes, e, v, c) && PersistsBefore(nodes, e, c, a);
          ThreeStepsCollapse(nodes, e, front, v, c, a, b);
        }
        assert Refused(nodes, e, front, v, b);
      }
    }
    forall s, c | Persistable(nodes, e, front, s) && s !! victims && c in s ensures c !in doomed {
      assert forall x :: x in front && PersistsBefore(nodes, e, x, c) ==> x in s;
      assert forall v, x :: v in victims && x in s ==> !PersistsBefore(nodes, e, v, x);
    }
  }

  /** A victim is refused exactly when no persistable set can keep the pivot without it. No transitivity is needed. */
  lemma RefusedIffImpossible(nodes: set<Call>, e: Edges<Call>, front: set<Call>, victim: Call, pivot: Call)
    requires victim in front && pivot in front && victim != pivot
    ensures Refused(nodes, e, front, victim, pivot) <==>
            forall s :: Persistable(nodes, e, front, s) && pivot in s ==> victim in s
  {
    GreatestPersistable(nodes, e, front, {victim});
    var rest := front - Doomed(nodes, e, front, {victim});
    if Refused(nodes, e, front, victim, pivot) {
      assert pivot !in rest;
      assert forall s :: Persistable(nodes, e, front, s) && pivot in s ==> !(s !! {victim});
    } else {
      assert pivot in rest && victim !in rest;
    }
  }

  /** The failing pattern: a follows the victim on its server and is fsynced before b elsewhere, the victim is not. */
  ghost predicate Escapes(nodes: set<Call>, e: Edges<Call>, victim: Call, a: Call, b: Call) {
    && a.service == victim.service && b.service != victim.service && Reach(e, victim, a)
    && SyncedBetween(nodes, e, a, b) && !SyncedBetween(nodes, e, victim, b)
  }

  /** Every call reached by the failing pattern is dropped for another victim's sake. */
  ghost predicate NoEscape(nodes: set<Call>, e: Edges<Call>, front: set<Call>, victims: set<Call>) {
    forall v, a, b :: v in victims && a in front && b in front && Escapes(nodes, e, v, a, b) ==>
      b in Dropped(nodes, e, front, victims)
  }

  lemma OneStepEscape(nodes: set<Call>, e: Edges<Call>, v: Call, a: Call, b: Call)
    requires PersistsBefore(nodes, e, v, a) && PersistsBefore(nodes, e, a, b)
    ensures PersistsBefore(nodes, e, v, b) || Escapes(nodes, e, v, a, b)
  {
    PersistsIsHappens(nodes, e, a, b);
    if v.service != a.service || b.service == v.service {
      ChainRule(nodes, e, v, a, b);
    }
  }

  /** What is left of the frontier could have persisted exactly when the failing pattern does not occur, and it
      is then the greatest such set. */
  lemma SurvivorsPersistable(nodes: set<Call>, e: Edges<Call>, front: set<Call>, victims: set<Call>)
    requires victims <= front
    ensures var rest := front - Dropped(nodes, e, front, victims);
            && (Persistable(nodes, e, front, rest) <==> NoEscape(nodes, e, front, victims))
            && (NoEscape(nodes, e, front, victims) ==>
                  forall s :: Persistable(nodes, e, front, s) && s !! victims ==> s <= rest)
  {
    var dropped := Dropped(nodes, e, front, victims);
    var rest := front - dropped;
    if NoEscape(nodes, e, front, victims) {
      forall a, b | a in front && b in rest && PersistsBefore(nodes, e, a, b) ensures a in rest {
        if a in dropped && a !in victims {
          var v :| v in victims && PersistsBefore(nodes, e, v, a);
          OneStepEscape(nodes, e, v, a, b);
        }
      }
      forall s, c | Persistable(nodes, e, front, s) && s !! victims && c in s ensures c in rest {
        assert forall v :: v in victims ==> !PersistsBefore(nodes, e, v, c);
      }
    }
    if Persistable(nodes, e, front, rest) {
      forall v, a, b | v in victims && a in front && b in front && Escapes(nodes, e, v, a, b) ensures b in dropped {
        assert PersistsBefore(nodes, e, v, a) && PersistsBefore(nodes, e, a, b);
        assert a in dropped;
      }
    }
  }

  /** With a transitive relation the failing pattern cannot occur. */
  lemma TransitiveNoEscape(nodes: set<Call>, e: Edges<Call>, front: set<Call>, victims: set<Call>)
    requires victims <= front
    requires forall a, b, c :: a in front && b in front && c in front
                               && PersistsBefore(nodes, e, a, b) && PersistsBefore(nodes, e, b, c)
                               ==> PersistsBefore(nodes, e, a, c)
    ensures NoEscape(nodes, e, front, victims)
  {
    assert forall v, a, b :: Escapes(nodes, e, v, a, b) ==>
             PersistsBefore(nodes, e, v, a) && PersistsBefore(nodes, e, a, b) && !PersistsBefore(nodes, e, v, b);
  }

  /** Some victim of a choice is refused exactly when no persistable set keeps the pivot without all of them. */
  lemma ChoiceRefusedIffImpossible(nodes: set<Call>, e: Edges<Call>, front: set<Call>, victims: set<Call>, pivot: Call)
    requires victims <= front && pivot in front && pivot !in victims
    ensures (exists v :: v in victims && Refused(nodes, e, front, v, pivot)) <==>
            forall s :: Persistable(nodes, e, front, s) && pivot in s ==> !(s !! victims)
  {
    GreatestPersistable(nodes, e, front, victims);
    var rest := front - Doomed(nodes, e, front, victims);
    if forall s :: Persistable(nodes, e, front, s) && pivot in s ==> !(s !! victims) {
      assert pivot !in rest;
    }
  }

  // ------------------------------------------- a trace on which it is not transitive

  const WRITE_X := Call("A", 1.0, Creat("f"))
  const WRITE_Y := Call("A", 2.0, Creat("g"))
  const SYNC_Y := Call("A", 3.0, Fsync("g"))
  const SEND := Call("A", 4.0, Sendto("B"))
  const RECEIVE := Call("B", 5.0, Recvfrom("A"))
  const WRITE_Z := Call("B", 6.0, Creat("h"))
  const PIVOT := Call("C", 7.0, Fsync("k"))
  const SAMPLE_SERVICES := [
    Service("A", [WRITE_X, WRITE_Y, SYNC_Y, SEND]), Service("B", [RECEIVE, WRITE_Z]), Service("C", [PIVOT])]
  const SAMPLE_LINKS: Links := map[SEND := RECEIVE, RECEIVE := SEND]
  const SAMPLE_CALLS := {WRITE_X, WRITE_Y, SYNC_Y, SEND, RECEIVE, WRITE_Z, PIVOT}
  const SAMPLE_NODES := {WRITE_X, WRITE_Y, SYNC_Y, WRITE_Z, PIVOT}

  lemma OrderedDistinct(calls: seq<Call>)
    requires TimeOrdered(calls)
    ensures DistinctTimes(ToSet(calls))
  {
    forall a, b | a in ToSet(calls) && b in ToSet(calls) && a.timestamp == b.timestamp ensures a == b {
      var i :| 0 <= i < |calls| && calls[i] == a;
      var j :| 0 <= j < |calls| && calls[j] == b;
      assert !(i < j) && !(j < i);
    }
  }

  /** Three services whose calls, one list after the other, are in time order. */
  lemma ThreeServices(a: Service, b: Service, c: Service)
    requires a.name != b.name && a.name != c.name && b.name != c.name
    requires TimeOrdered(a.syscalls + b.syscalls + c.syscalls)
    requires forall x :: x in a.syscalls ==> x.service == a.name
    requires forall x :: x in b.syscalls ==> x.service == b.name
    requires forall x :: x in c.syscalls ==> x.service == c.name
    ensures AllCalls([a, b, c]) == ToSet(a.syscalls + b.syscalls + c.syscalls) && WellFormed([a, b, c])
  {
    var all := a.syscalls + b.syscalls + c.syscalls;
    forall s ensures s in [a, b, c] <==> s == a || s == b || s == c {}
    forall x ensures x in AllCalls([a, b, c]) <==> x in all {
      assert a in [a, b, c] && b in [a, b, c] && c in [a, b, c];
    }
    OrderedDistinct(all);
    PartsOrdered(a.syscalls, b.syscalls, c.syscalls);
  }

  lemma PartsOrdered(a: seq<Call>, b: seq<Call>, c: seq<Call>)
    requires TimeOrdered(a + b + c)
    ensures TimeOrdered(a) && TimeOrdered(b) && TimeOrdered(c)
  {
    var all := a + b + c;
    assert (forall i :: 0 <= i < |a| ==> all[i] == a[i]) && (forall i :: 0 <= i < |b| ==> all[|a| + i] == b[i]);
    assert forall i :: 0 <= i < |c| ==> all[|a| + |b| + i] == c[i];
  }

  lemma SampleCalls()
    ensures AllCalls(SAMPLE_SERVICES) == SAMPLE_CALLS && DiskCalls(SAMPLE_SERVICES) == SAMPLE_NODES
    ensures LinksWellFormed(SAMPLE_CALLS, SAMPLE_LINKS) && WellFormed(SAMPLE_SERVICES)
  {
    SampleServices();
    SampleDisk();
    SampleLinks();
  }

  lemma SampleServices()
    ensures AllCalls(SAMPLE_SERVICES) == SAMPLE_CALLS && WellFormed(SAMPLE_SERVICES)
  {
    SampleOrder();
    ThreeServices(SAMPLE_SERVICES[0], SAMPLE_SERVICES[1], SAMPLE_SERVICES[2]);
    assert [SAMPLE_SERVICES[0], SAMPLE_SERVICES[1], SAMPLE_SERVICES[2]] == SAMPLE_SERVICES;
  }

  lemma SampleOrder()
    ensures var all := SAMPLE_SERVICES[0].syscalls + SAMPLE_SERVICES[1].syscalls + SAMPLE_SERVICES[2].syscalls;
            TimeOrdered(all) && ToSet(all) == SAMPLE_CALLS
  {
    var all := [WRITE_X, WRITE_Y, SYNC_Y, SEND, RECEIVE, WRITE_Z, PIVOT];
    assert SAMPLE_SERVICES[0].syscalls + SAMPLE_SERVICES[1].syscalls + SAMPLE_SERVICES[2].syscalls == all;
    Ordered7(WRITE_X, WRITE_Y, SYNC_Y, SEND, RECEIVE, WRITE_Z, PIVOT);
  }

  lemma Ordered7(a: Call, b: Call, c: Call, d: Call, f: Call, g: Call, h: Call)
    requires a.timestamp < b.timestamp < c.timestamp < d.timestamp < f.timestamp < g.timestamp < h.timestamp
    ensures TimeOrdered([a, b, c, d, f, g, h]) && ToSet([a, b, c, d, f, g, h]) == {a, b, c, d, f, g, h}
  {}

  lemma SampleDisk()
    requires AllCalls(SAMPLE_SERVICES) == SAMPLE_CALLS
    ensures DiskCalls(SAMPLE_SERVICES) == SAMPLE_NODES
  {
    TwoOfNetwork(WRITE_X, WRITE_Y, SYNC_Y, SEND, RECEIVE, WRITE_Z, PIVOT);
  }

  lemma SampleLinks()
    ensures LinksWellFormed(SAMPLE_CALLS, SAMPLE_LINKS)
  {}

  lemma TwoOfNetwork(a: Call, b: Call, c: Call, s: Call, r: Call, d: Call, f: Call)
    requires IsNetwork(s) && IsNetwork(r) && forall x :: x in {a, b, c, d, f} ==> !IsNetwork(x)
    ensures OnDisk({a, b, c, s, r, d, f}) == {a, b, c, d, f}
  {}

  /** What the graph built and reduced from the trace is like. */
  ghost predicate SampleGraph(e: Edges<Call>) {
    && LinksWellFormed(SAMPLE_CALLS, SAMPLE_LINKS) && Within(SAMPLE_NODES, e)
    && forall a, b :: a in SAMPLE_NODES && b in SAMPLE_NODES ==>
         (Reach(e, a, b) <==> Reach(CausalEdges(SAMPLE_CALLS, SAMPLE_LINKS), a, b))
  }

  lemma SampleReaches()
    ensures LinksWellFormed(SAMPLE_CALLS, SAMPLE_LINKS)
    ensures var full := CausalEdges(SAMPLE_CALLS, SAMPLE_LINKS);
            Reach(full, WRITE_X, WRITE_Y) && Reach(full, WRITE_Y, SYNC_Y) && Reach(full, SYNC_Y, WRITE_Z)
  {
    SampleCalls();
    var full := CausalEdges(SAMPLE_CALLS, SAMPLE_LINKS);
    ProgramReach(SAMPLE_CALLS, full, WRITE_X, WRITE_Y);
    ProgramReach(SAMPLE_CALLS, full, WRITE_Y, SYNC_Y);
    ProgramReach(SAMPLE_CALLS, full, SYNC_Y, SEND);
    assert PairEdge(SAMPLE_CALLS, SAMPLE_LINKS, SEND, RECEIVE);
    EdgeReach(full, SEND, RECEIVE);
    ProgramReach(SAMPLE_CALLS, full, RECEIVE, WRITE_Z);
    ReachTrans(full, SYNC_Y, SEND, RECEIVE);
    ReachTrans(full, SYNC_Y, RECEIVE, WRITE_Z);
  }

  lemma NothingReachesPivot(c: Call)
    requires LinksWellFormed(SAMPLE_CALLS, SAMPLE_LINKS)
    ensures !Reach(CausalEdges(SAMPLE_CALLS, SAMPLE_LINKS), c, PIVOT)
  {
    var full := CausalEdges(SAMPLE_CALLS, SAMPLE_LINKS);
    forall a ensures (a, PIVOT) !in full {
      assert a in SAMPLE_CALLS && a.service == PIVOT.service ==> a == PIVOT;
      assert a in SAMPLE_LINKS ==> SAMPLE_LINKS[a] != PIVOT;
    }
    if Reach(full, c, PIVOT) { var a := ReachEnds(full, c, PIVOT); }
  }

  lemma SampleSyncs()
    ensures Syncs(SYNC_Y, WRITE_Y)
    ensures forall s :: s in SAMPLE_NODES ==> !Syncs(s, WRITE_X)
  {
    assert "g" in Paths(WRITE_Y) && "g" in Paths(SYNC_Y);
    assert Paths(WRITE_X) == ["f"] && Paths(SYNC_Y) == ["g"] && Paths(PIVOT) == ["k"];
    assert "f" != "g" && "f" != "k" by { assert "f"[0] != "g"[0] && "f"[0] != "k"[0]; }
  }

  lemma SampleTraced(e: Edges<Call>)
    requires SampleGraph(e)
    ensures Traced(SAMPLE_NODES, e) && Closed(SAMPLE_NODES, e, SAMPLE_NODES)
  {
    SampleCalls();
    ReducedIsTraced(SAMPLE_SERVICES, SAMPLE_LINKS, e);
  }

  lemma SamplePersists(e: Edges<Call>)
    requires SampleGraph(e)
    ensures Reach(e, WRITE_X, WRITE_Y) && Reach(e, WRITE_Y, SYNC_Y) && Reach(e, SYNC_Y, WRITE_Z)
    ensures forall c :: !PersistsBefore(SAMPLE_NODES, e, c, PIVOT)
  {
    SampleReaches();
    forall c ensures !PersistsBefore(SAMPLE_NODES, e, c, PIVOT) { NothingPersistsBeforePivot(e, c); }
  }

  /** The pattern: x and y on one server, only y fsynced before z on another one. */
  lemma PatternBreaks(nodes: set<Call>, e: Edges<Call>, x: Call, y: Call, sync: Call, z: Call, pivot: Call)
    requires nodes == {x, y, sync, z, pivot} && x != y && pivot.service != x.service
    requires x.service == y.service == sync.service && z.service != x.service
    requires Reach(e, x, y) && Reach(e, y, sync) && Reach(e, sync, z)
    requires Syncs(sync, y) && (forall s :: s in nodes ==> !Syncs(s, x))
    requires forall c :: !PersistsBefore(nodes, e, c, pivot)
    ensures PersistsBefore(nodes, e, x, y) && PersistsBefore(nodes, e, y, z) && !PersistsBefore(nodes, e, x, z)
    ensures !Refused(nodes, e, nodes, x, pivot)
    ensures Refused(nodes, e, nodes, x, z)
    ensures Dropped(nodes, e, nodes, {x}) == {x, y, sync}
    ensures !Persistable(nodes, e, nodes, {z, pivot})
  {
    assert SyncedBetween(nodes, e, y, z);
    ReachTrans(e, x, y, sync);
    assert y in nodes && y !in {z, pivot};
  }

  /** x and y are written on server A and only y is fsynced before A sends to B, which then writes z; C does the last
      call. In the graph of this trace x persists before y and y before z, but x not before z. Dropping x drops y with
      it but keeps z, which leaves calls that could not have persisted without y. */
  lemma NotTransitive(e: Edges<Call>)
    requires SampleGraph(e)
    ensures Traced(SAMPLE_NODES, e) && Closed(SAMPLE_NODES, e, SAMPLE_NODES)
    ensures PersistsBefore(SAMPLE_NODES, e, WRITE_X, WRITE_Y) && PersistsBefore(SAMPLE_NODES, e, WRITE_Y, WRITE_Z)
    ensures !PersistsBefore(SAMPLE_NODES, e, WRITE_X, WRITE_Z)
    ensures !Refused(SAMPLE_NODES, e, SAMPLE_NODES, WRITE_X, PIVOT)
    ensures Refused(SAMPLE_NODES, e, SAMPLE_NODES, WRITE_X, WRITE_Z)
    ensures Dropped(SAMPLE_NODES, e, SAMPLE_NODES, {WRITE_X}) == {WRITE_X, WRITE_Y, SYNC_Y}
    ensures !Persistable(SAMPLE_NODES, e, SAMPLE_NODES, {WRITE_Z, PIVOT})
  {
    SampleTraced(e);
    SampleSyncs();
    SamplePersists(e);
    PatternBreaks(SAMPLE_NODES, e, WRITE_X, WRITE_Y, SYNC_Y, WRITE_Z, PIVOT);
  }

  lemma NothingPersistsBeforePivot(e: Edges<Call>, c: Call)
    requires SampleGraph(e)
    ensures !PersistsBefore(SAMPLE_NODES, e, c, PIVOT)
  {
    if PersistsBefore(SAMPLE_NODES, e, c, PIVOT) {
      PersistsIsHappens(SAMPLE_NODES, e, c, PIVOT);
      ReachWithin(SAMPLE_NODES, e, c, PIVOT);
      NothingReachesPivot(c);
    }
  }

  /** The graph that is built from the trace. */
  method SampleBuilt() returns (g: ExecGraph)
    ensures fresh(g) && g.nodes == SAMPLE_NODES && SampleGraph(g.edges)
  {
    SampleCalls();
    g := BuildReduced(SAMPLE_SERVICES, SAMPLE_LINKS);
    assert g.nodes == DiskCalls(SAMPLE_SERVICES);
  }
}
