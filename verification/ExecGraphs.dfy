/** The execution graph of a trace: its construction from the per-server calls and its reduction to disk calls. */
module ExecGraphs {
  import opened Sequences
  import opened Digraphs
  import opened Traces

  // ------------------------------------------------ what the edges are meant to be

  /** a directly precedes b on one server. */
  ghost predicate ProgramEdge(calls: set<Call>, a: Call, b: Call) {
    && a in calls && b in calls && a.service == b.service && a.timestamp < b.timestamp
    && forall c :: c in calls && c.service == a.service ==> !(a.timestamp < c.timestamp < b.timestamp)
  }

  /** The links made between sends and receives by the pairing pass; calls without one talk to the client. */
  type Links = map<Call, Call>

  ghost predicate LinksWellFormed(calls: set<Call>, links: Links) {
    forall c :: c in links && c in calls && c.op.Sendto? ==> links[c] in calls && c.timestamp < links[c].timestamp
  }

  ghost predicate PairEdge(calls: set<Call>, links: Links, a: Call, b: Call) {
    a in calls && a.op.Sendto? && a in links && b == links[a]
  }

  predicate ClientSend(links: Links, c: Call) { c.op.Sendto? && c !in links }

  predicate ClientRecv(links: Links, c: Call) { c.op.Recvfrom? && c !in links }

  /** The dependency through the client: everything sent to it earlier may have caused what it asks for later. */
  ghost predicate CausalClientEdge(calls: set<Call>, links: Links, a: Call, b: Call) {
    && a in calls && b in calls && ClientSend(links, a) && ClientRecv(links, b)
    && a.service != b.service && a.timestamp < b.timestamp
  }

  /** The pruned form: a is the last send of its server before b, and b the first receive of its server after a. */
  ghost predicate PrunedClientEdge(calls: set<Call>, links: Links, a: Call, b: Call) {
    && CausalClientEdge(calls, links, a, b)
    && (forall c :: c in calls && ClientSend(links, c) && c.service == a.service
          ==> !(a.timestamp < c.timestamp < b.timestamp))
    && (forall c :: c in calls && ClientRecv(links, c) && c.service == b.service
          ==> !(a.timestamp < c.timestamp < b.timestamp))
  }

  ghost predicate BuiltEdge(calls: set<Call>, links: Links, a: Call, b: Call) {
    ProgramEdge(calls, a, b) || PairEdge(calls, links, a, b) || PrunedClientEdge(calls, links, a, b)
  }

  ghost predicate CausalEdge(calls: set<Call>, links: Links, a: Call, b: Call) {
    ProgramEdge(calls, a, b) || PairEdge(calls, links, a, b) || CausalClientEdge(calls, links, a, b)
  }

  /** The unpruned dependency graph, against which everything below is judged. */
  ghost function CausalEdges(calls: set<Call>, links: Links): Edges<Call>
    requires LinksWellFormed(calls, links)
  {
    set a, b | a in calls && b in calls && CausalEdge(calls, links, a, b) :: (a, b)
  }

  // --------------------------------------------------------- program order reaches

  lemma {:induction false} ProgramReach(calls: set<Call>, e: Edges<Call>, a: Call, b: Call)
    requires DistinctTimes(calls)
    requires forall x, y :: ProgramEdge(calls, x, y) ==> (x, y) in e
    requires a in calls && b in calls && a.service == b.service && a.timestamp < b.timestamp
    ensures Reach(e, a, b)
    decreases set c | c in calls && c.service == a.service && a.timestamp < c.timestamp < b.timestamp
  {
    var between := set c | c in calls && c.service == a.service && a.timestamp < c.timestamp < b.timestamp;
    if between == {} {
      assert ProgramEdge(calls, a, b) by {
        forall c | c in calls && c.service == a.service ensures !(a.timestamp < c.timestamp < b.timestamp) {
          assert c !in between;
        }
      }
      EdgeReach(e, a, b);
    } else {
      var c :| c in between;
      assert c !in (set d | d in calls && d.service == a.service && a.timestamp < d.timestamp < c.timestamp);
      assert c !in (set d | d in calls && d.service == c.service && c.timestamp < d.timestamp < b.timestamp);
      ProgramReach(calls, e, a, c);
      ProgramReach(calls, e, c, b);
      ReachTrans(e, a, c, b);
    }
  }

  /** The edge that stands in for a pruned one: from the last send not after a's, to the first receive after it. */
  lemma StandIn(calls: set<Call>, links: Links, a: Call, b: Call) returns (s: Call, r: Call)
    requires DistinctTimes(calls) && CausalClientEdge(calls, links, a, b)
    ensures PrunedClientEdge(calls, links, s, r)
    ensures s.service == a.service && (s == a || a.timestamp < s.timestamp)
    ensures r.service == b.service && (r == b || r.timestamp < b.timestamp)
  {
    var sends := set c | c in calls && ClientSend(links, c) && c.service == a.service
                         && a.timestamp <= c.timestamp < b.timestamp;
    assert a in sends;
    s := Latest(sends);
    var recvs := set c | c in calls && ClientRecv(links, c) && c.service == b.service
                         && s.timestamp < c.timestamp <= b.timestamp;
    assert b in recvs;
    r := Earliest(recvs);
    forall c | c in calls && ClientSend(links, c) && c.service == s.service
      ensures !(s.timestamp < c.timestamp < r.timestamp)
    {
      assert c in sends || !(s.timestamp < c.timestamp < b.timestamp);
    }
    forall c | c in calls && ClientRecv(links, c) && c.service == r.service
      ensures !(s.timestamp < c.timestamp < r.timestamp)
    {
      assert c in recvs || !(s.timestamp < c.timestamp < r.timestamp);
    }
  }

  /** What a causal edge joins is joined without the pruned edges. */
  lemma CausalReach(calls: set<Call>, links: Links, e: Edges<Call>, a: Call, b: Call)
    requires DistinctTimes(calls) && CausalEdge(calls, links, a, b)
    requires forall x, y :: (x, y) in e <==> BuiltEdge(calls, links, x, y)
    ensures Reach(e, a, b)
  {
    if CausalClientEdge(calls, links, a, b) {
      var s, r := StandIn(calls, links, a, b);
      EdgeReach(e, s, r);
      if s != a { ProgramReach(calls, e, a, s); ReachTrans(e, a, s, r); }
      if r != b { ProgramReach(calls, e, r, b); ReachTrans(e, a, r, b); }
    } else {
      EdgeReach(e, a, b);
    }
  }

  // ------------------------------------------------ the same in terms of the calls

  /** What the built edges say of two calls: which of them join two servers, and what can be reached. A call without a
      link is one of the client. */
  lemma EdgesSay(calls: set<Call>, links: Links, e: Edges<Call>, a: Call, b: Call)
    requires DistinctTimes(calls) && LinksWellFormed(calls, links)
    requires forall x, y :: (x, y) in e <==> BuiltEdge(calls, links, x, y)
    ensures (a, b) in e ==> a in calls && b in calls && a.timestamp < b.timestamp
    ensures (a, b) in e && a.service != b.service ==>
              a.op.Sendto? && if a in links then links[a] == b else b.op.Recvfrom? && b !in links
    ensures a in calls && a.op.Sendto? && a in links ==> (a, links[a]) in e
    ensures a in calls && b in calls && a.timestamp < b.timestamp && a.service == b.service ==> Reach(e, a, b)
    ensures && a in calls && b in calls && a.timestamp < b.timestamp && a.service != b.service
            && a.op.Sendto? && a !in links && b.op.Recvfrom? && b !in links
            ==> Reach(e, a, b)
  {
    if a in calls && b in calls && a.timestamp < b.timestamp {
      if a.service == b.service {
        ProgramReach(calls, e, a, b);
      } else if a.op.Sendto? && a !in links && b.op.Recvfrom? && b !in links {
        CausalReach(calls, links, e, a, b);
      }
    }
  }

  /** Happens-before holds along program order, from each linked send to its partner and from each send to the
      client to every later receive from the client at another server; and of what holds along these and along
      chains, it is the least. */
  lemma HappensSays(calls: set<Call>, links: Links, holds: (Call, Call) -> bool)
    requires DistinctTimes(calls) && LinksWellFormed(calls, links)
    requires forall x, y, z :: holds(x, y) && holds(y, z) ==> holds(x, z)
    requires forall a, b :: a in calls && b in calls && a.timestamp < b.timestamp && a.service == b.service ==>
               holds(a, b)
    requires forall a :: a in calls && a.op.Sendto? && a in links ==> holds(a, links[a])
    requires forall a, b ::
               && a in calls && b in calls && a.timestamp < b.timestamp && a.service != b.service
               && a.op.Sendto? && a !in links && b.op.Recvfrom? && b !in links
               ==> holds(a, b)
    ensures forall a, b :: Reach(CausalEdges(calls, links), a, b) ==> holds(a, b)
  {
    var e := CausalEdges(calls, links);
    forall d | d in e ensures holds(d.0, d.1) { assert d == (d.0, d.1); }
    forall a, b | Reach(e, a, b) ensures holds(a, b) { ReachLeast(e, holds, a, b); }
  }

  lemma HappensAlong(calls: set<Call>, links: Links, a: Call, b: Call)
    requires DistinctTimes(calls) && LinksWellFormed(calls, links) && a in calls && b in calls
    requires a.timestamp < b.timestamp
    requires || a.service == b.service
             || (a.op.Sendto? && a in links && links[a] == b)
             || (a.op.Sendto? && a !in links && b.op.Recvfrom? && b !in links)
    ensures Reach(CausalEdges(calls, links), a, b)
  {
    var e := CausalEdges(calls, links);
    forall x, y | ProgramEdge(calls, x, y) ensures (x, y) in e {}
    if a.service == b.service { ProgramReach(calls, e, a, b); } else { EdgeReach(e, a, b); }
  }

  /** Pruning client edges loses no reachability and adds none. */
  lemma PrunedReachesAll(calls: set<Call>, links: Links, e: Edges<Call>, a: Call, b: Call)
    requires DistinctTimes(calls) && LinksWellFormed(calls, links)
    requires forall x, y :: (x, y) in e <==> BuiltEdge(calls, links, x, y)
    ensures Reach(e, a, b) <==> Reach(CausalEdges(calls, links), a, b)
  {
    var full := CausalEdges(calls, links);
    forall d | d in e ensures d in full { assert d == (d.0, d.1); }
    forall d | d in full ensures Reach(e, d.0, d.1) {
      assert d == (d.0, d.1);
      CausalReach(calls, links, e, d.0, d.1);
    }
    SubsetImplied(e, full);
    if Reach(e, a, b) { ReachImplied(e, full, a, b); }
    if Reach(full, a, b) { ReachImplied(full, e, a, b); }
  }

  // ------------------------------------------------------------ time moves forward

  ghost predicate Forward(e: Edges<Call>) {
    forall d :: d in e ==> d.0.timestamp < d.1.timestamp
  }

  lemma {:induction false} ForwardPath(e: Edges<Call>, p: seq<Call>)
    requires Forward(e) && IsPath(e, p)
    ensures p[0].timestamp < p[|p| - 1].timestamp
    decreases |p|
  {
    assert (p[0], p[1]) in e;
    assert (p[0], p[1]).0.timestamp < (p[0], p[1]).1.timestamp;
    if |p| > 2 { ForwardPath(e, p[1..]); }
  }

  lemma ForwardReach(e: Edges<Call>, a: Call, b: Call)
    requires Forward(e) && Reach(e, a, b)
    ensures a.timestamp < b.timestamp
  {
    var p :| PathFromTo(e, p, a, b);
    ForwardPath(e, p);
  }

  lemma CausalForward(calls: set<Call>, links: Links)
    requires LinksWellFormed(calls, links)
    ensures Forward(CausalEdges(calls, links))
    ensures Within(calls, CausalEdges(calls, links))
    ensures Acyclic(CausalEdges(calls, links))
  {
    var e := CausalEdges(calls, links);
    forall d | d in e ensures d.0.timestamp < d.1.timestamp { assert d == (d.0, d.1); }
    forall a ensures !Reach(e, a, a) {
      if Reach(e, a, a) { ForwardReach(e, a, a); }
    }
  }

  // --------------------------------------------------------- lists against the sets

  ghost predicate Consecutive(s: seq<Call>, a: Call, b: Call) {
    exists i :: 0 <= i < |s| - 1 && s[i] == a && s[i + 1] == b
  }

  lemma ConsecutiveIsProgramEdge(services: seq<Service>, s: Service, a: Call, b: Call)
    requires WellFormed(services) && s in services && Consecutive(s.syscalls, a, b)
    ensures ProgramEdge(AllCalls(services), a, b)
  {
    var calls := AllCalls(services);
    var i :| 0 <= i < |s.syscalls| - 1 && s.syscalls[i] == a && s.syscalls[i + 1] == b;
    assert a in s.syscalls && b in s.syscalls;
    forall c | c in calls && c.service == a.service ensures !(a.timestamp < c.timestamp < b.timestamp) {
      var t :| t in services && c in t.syscalls;
      SameName(services, s, t);
      NothingBetween(s.syscalls, i, c);
    }
  }

  lemma NothingBetween(s: seq<Call>, i: nat, c: Call)
    requires TimeOrdered(s) && i + 1 < |s| && c in s
    ensures !(s[i].timestamp < c.timestamp < s[i + 1].timestamp)
  {
    var k :| 0 <= k < |s| && s[k] == c;
    assert k < i || k == i || k == i + 1 || k > i + 1;
  }

  lemma AdjacentInList(s: seq<Call>, a: Call, b: Call)
    requires TimeOrdered(s) && a in s && b in s && a.timestamp < b.timestamp
    requires forall c :: c in s ==> !(a.timestamp < c.timestamp < b.timestamp)
    ensures Consecutive(s, a, b)
  {
    var i :| 0 <= i < |s| && s[i] == a;
    var j :| 0 <= j < |s| && s[j] == b;
    assert i < j;
    assert s[i + 1] in s;
    assert j == i + 1;
  }

  lemma ProgramEdgeIsConsecutive(services: seq<Service>, a: Call, b: Call)
    requires WellFormed(services) && ProgramEdge(AllCalls(services), a, b)
    ensures exists s :: s in services && Consecutive(s.syscalls, a, b)
  {
    var s :| s in services && a in s.syscalls;
    var t :| t in services && b in t.syscalls;
    SameName(services, s, t);
    assert forall c :: c in s.syscalls ==> c in AllCalls(services);
    AdjacentInList(s.syscalls, a, b);
  }

  lemma SameName(services: seq<Service>, s: Service, t: Service)
    requires WellFormed(services) && s in services && t in services && s.name == t.name
    ensures s == t
  {
    var i :| 0 <= i < |services| && services[i] == s;
    var j :| 0 <= j < |services| && services[j] == t;
  }

  // ---------------------------------------------------------------------- the graph

  class ExecGraph {
    const services: seq<Service>
    const links: Links
    var nodes: set<Call>
    var edges: Edges<Call>

    constructor (services: seq<Service>, links: Links)
      ensures this.services == services && this.links == links
      ensures nodes == {} && edges == {}
    {
      this.services, this.links := services, links;
      nodes, edges := {}, {};
    }

    /** Nodes and program order. */
    method AddProgramOrder()
      requires WellFormed(services) && nodes == {} && edges == {}
      modifies this
      ensures nodes == AllCalls(services)
      ensures forall a, b :: (a, b) in edges <==> ProgramEdge(AllCalls(services), a, b)
    {
      for i := 0 to |services|
        invariant nodes == AllCalls(services[..i])
        invariant forall a, b :: (a, b) in edges <==> exists s :: s in services[..i] && Consecutive(s.syscalls, a, b)
      {
        var calls := services[i].syscalls;
        nodes := nodes + ToSet(calls);
        ghost var before := edges;
        edges := edges + (set k {:trigger calls[k]} | 0 <= k < |calls| - 1 :: (calls[k], calls[k + 1]));
        assert services[..i + 1] == services[..i] + [services[i]];
        forall a, b
          ensures (a, b) in edges <==> exists s :: s in services[..i + 1] && Consecutive(s.syscalls, a, b)
        {
          assert (a, b) in edges <==> (a, b) in before || Consecutive(services[i].syscalls, a, b);
          assert (exists s :: s in services[..i + 1] && Consecutive(s.syscalls, a, b)) <==>
                 (exists s :: s in services[..i] && Consecutive(s.syscalls, a, b))
                 || Consecutive(services[i].syscalls, a, b);
        }
      }
      assert services[..|services|] == services;
      forall a, b ensures (a, b) in edges <==> ProgramEdge(AllCalls(services), a, b) {
        if s :| s in services && Consecutive(s.syscalls, a, b) { ConsecutiveIsProgramEdge(services, s, a, b); }
        if ProgramEdge(AllCalls(services), a, b) { ProgramEdgeIsConsecutive(services, a, b); }
      }
    }

    /** One edge from each paired send to its receive. */
    method AddPairs()
      requires LinksWellFormed(AllCalls(services), links)
      modifies this`edges
      ensures forall a, b :: (a, b) in edges <==> (a, b) in old(edges) || PairEdge(AllCalls(services), links, a, b)
    {
      for i := 0 to |services|
        invariant forall a, b :: (a, b) in edges <==>
                                 (a, b) in old(edges) || PairEdge(AllCalls(services[..i]), links, a, b)
      {
        var calls := services[i].syscalls;
        ghost var before := edges;
        for k := 0 to |calls|
          invariant forall a, b :: (a, b) in edges <==>
                                   (a, b) in before || PairEdge(ToSet(calls[..k]), links, a, b)
        {
          var call := calls[k];
          assert calls[..k + 1] == calls[..k] + [call];
          assert ToSet(calls[..k + 1]) == ToSet(calls[..k]) + {call};
          if call.op.Sendto? {
            if call in links {
              edges := edges + {(call, links[call])};
            }
          }
        }
        assert calls[..|calls|] == calls;
        assert services[..i + 1] == services[..i] + [services[i]];
        assert AllCalls(services[..i + 1]) == AllCalls(services[..i]) + ToSet(calls);
      }
      assert services[..|services|] == services;
    }

    /** The calls that talk to the client, in time order. */
    method ClientCalls() returns (r: seq<Call>)
      requires WellFormed(services)
      ensures TimeOrdered(r)
      ensures forall c :: c in r <==> c in AllCalls(services) && (ClientSend(links, c) || ClientRecv(links, c))
    {
      r := [];
      for i := 0 to |services|
        invariant NoDup(r)
        invariant forall c :: c in r <==> c in AllCalls(services[..i]) && (ClientSend(links, c) || ClientRecv(links, c))
      {
        var calls := services[i].syscalls;
        ghost var before := r;
        assert services[i] in services;
        assert services[..i + 1] == services[..i] + [services[i]];
        for k := 0 to |calls|
          invariant NoDup(r)
          invariant forall c :: c in r <==>
                      c in before || (c in calls[..k] && (ClientSend(links, c) || ClientRecv(links, c)))
        {
          var call := calls[k];
          assert calls[..k + 1] == calls[..k] + [call];
          if IsNetwork(call) {
            if call !in links {
              assert call !in before by {
                if call in before {
                  var s :| s in services[..i] && call in s.syscalls;
                  SameName(services, s, services[i]);
                }
              }
              r := r + [call];
            }
          }
        }
        assert calls[..|calls|] == calls;
      }
      assert services[..|services|] == services;
      forall a, b | a in r && b in r && a.timestamp == b.timestamp ensures a == b {}
      SortDistinct(r);
      r := SortByTime(r);
    }

    /** A receive from the client at its server depends on the last send of every other server,
        unless an earlier receive of the same server already recorded that send. */
    static ghost predicate Records(recv: Call, lastSend: map<string, Call>, seen: map<(string, string), Call>,
                                   o: string, a: Call)
    {
      o in lastSend && lastSend[o] == a && !((recv.service, o) in seen && seen[(recv.service, o)] == a)
    }

    /** The edges after the servers in done have been handled at a receive. */
    static ghost predicate Recorded(edges: Edges<Call>, before: Edges<Call>, recv: Call, lastSend: map<string, Call>,
                                    seen: map<(string, string), Call>, done: set<string>)
    {
      forall a, b :: (a, b) in edges <==>
        (a, b) in before || (b == recv && exists o :: o in done && Records(recv, lastSend, seen, o, a))
    }

    static lemma RecordedNext(edges: Edges<Call>, before: Edges<Call>, recv: Call, lastSend: map<string, Call>,
                              seen: map<(string, string), Call>, done: set<string>, o: string)
      requires Recorded(edges, before, recv, lastSend, seen, done) && o in lastSend
      ensures Recorded(if Records(recv, lastSend, seen, o, lastSend[o]) then edges + {(lastSend[o], recv)} else edges,
                       before, recv, lastSend, seen, done + {o})
    {
      forall a ensures (exists p :: p in done + {o} && Records(recv, lastSend, seen, p, a)) <==>
                (exists p :: p in done && Records(recv, lastSend, seen, p, a))
                || Records(recv, lastSend, seen, o, a)
      {
        if p :| p in done && Records(recv, lastSend, seen, p, a) { assert p in done + {o}; }
      }
    }

    /** The table of recorded sends after the servers in done have been handled at a receive. */
    static ghost predicate SeenAfter(seen': map<(string, string), Call>, recv: Call, lastSend: map<string, Call>,
                                     seen: map<(string, string), Call>, done: set<string>)
      requires done <= lastSend.Keys
    {
      && (forall x, o :: (x, o) in seen' <==> (x, o) in seen || (x == recv.service && o in done))
      && (forall x, o :: (x, o) in seen' ==>
            seen'[(x, o)] == if x == recv.service && o in done then lastSend[o] else seen[(x, o)])
    }

    method Receive(recv: Call, lastSend: map<string, Call>, seen: map<(string, string), Call>)
      returns (seen': map<(string, string), Call>)
      modifies this`edges
      ensures Recorded(edges, old(edges), recv, lastSend, seen, lastSend.Keys - {recv.service})
      ensures SeenAfter(seen', recv, lastSend, seen, lastSend.Keys - {recv.service})
    {
      seen' := seen;
      var todo := lastSend.Keys - {recv.service};
      ghost var done: set<string> := {};
      while todo != {}
        invariant done + todo == lastSend.Keys - {recv.service} && done !! todo
        invariant SeenAfter(seen', recv, lastSend, seen, done)
        invariant Recorded(edges, old(edges), recv, lastSend, seen, done)
        decreases todo
      {
        var other :| other in todo;
        todo := todo - {other};
        RecordedNext(edges, old(edges), recv, lastSend, seen, done, other);
        assert (recv.service, other) in seen' <==> (recv.service, other) in seen;
        seen' := ReceiveFrom(recv, other, lastSend[other], seen');
        done := done + {other};
      }
    }

    /** The edge and the table entry for one other server, unless its send has already been recorded. */
    method ReceiveFrom(recv: Call, other: string, send: Call, seen: map<(string, string), Call>)
      returns (seen': map<(string, string), Call>)
      modifies this`edges
      ensures seen' == seen[(recv.service, other) := send]
      ensures edges == if (recv.service, other) in seen && seen[(recv.service, other)] == send then old(edges)
                       else old(edges) + {(send, recv)}
    {
      seen' := seen;
      if (recv.service, other) in seen && seen[(recv.service, other)] == send {
      } else {
        edges := edges + {(send, recv)};
        seen' := seen[(recv.service, other) := send];
      }
    }

    /** What the tables hold after the first k client calls: each server's last send, and for each pair of
        servers whether that send was already recorded at a receive. */
    static ghost predicate Tables(calls: seq<Call>, k: nat, lastSend: map<string, Call>,
                                  seen: map<(string, string), Call>)
      requires k <= |calls|
    {
      && LastSends(calls[..k], lastSend) && SeenFrom(calls[..k], seen)
      && forall x, o :: o in lastSend && x != o ==> SeenRight(calls[..k], lastSend, seen, x, o)
    }

    static ghost predicate LastSends(calls: seq<Call>, lastSend: map<string, Call>) {
      && (forall c :: c in calls && c.op.Sendto? ==>
            c.service in lastSend && c.timestamp <= lastSend[c.service].timestamp)
      && (forall o :: o in lastSend ==> lastSend[o] in calls && lastSend[o].op.Sendto? && lastSend[o].service == o)
    }

    static ghost predicate SeenFrom(calls: seq<Call>, seen: map<(string, string), Call>) {
      forall x, o :: (x, o) in seen ==> seen[(x, o)] in calls
    }

    static ghost predicate SeenRight(calls: seq<Call>, lastSend: map<string, Call>, seen: map<(string, string), Call>,
                                     x: string, o: string)
      requires o in lastSend
    {
      (x, o) in seen && seen[(x, o)] == lastSend[o] <==> ReceivedAfter(calls, x, lastSend[o])
    }

    static ghost predicate ReceivedAfter(calls: seq<Call>, x: string, send: Call) {
      exists c :: c in calls && c.op.Recvfrom? && c.service == x && send.timestamp < c.timestamp
    }

    /** The calls before call, and it comes after all of them. */
    static ghost predicate Extends(calls: seq<Call>, k: nat, call: Call)
      requires k < |calls|
    {
      && calls[..k + 1] == calls[..k] + [call] && call !in calls[..k]
      && forall c :: c in calls[..k] ==> c.timestamp < call.timestamp
    }

    static lemma TakeCall(calls: seq<Call>, k: nat)
      requires k < |calls| && TimeOrdered(calls)
      ensures Extends(calls, k, calls[k])
    {}

    static lemma SendStep(calls: seq<Call>, k: nat, lastSend: map<string, Call>, seen: map<(string, string), Call>)
      requires k < |calls| && TimeOrdered(calls) && calls[k].op.Sendto? && Tables(calls, k, lastSend, seen)
      ensures Tables(calls, k + 1, lastSend[calls[k].service := calls[k]], seen)
    {
      var call := calls[k];
      var ls, next := lastSend[call.service := call], calls[..k + 1];
      TakeCall(calls, k);
      forall x, o | o in ls && x != o ensures SeenRight(next, ls, seen, x, o) {
        assert o in lastSend ==> SeenRight(calls[..k], lastSend, seen, x, o);
        SendKeepsSeen(calls, k, call, lastSend, seen, x, o);
      }
    }

    static lemma SendKeepsSeen(calls: seq<Call>, k: nat, call: Call, lastSend: map<string, Call>,
                               seen: map<(string, string), Call>, x: string, o: string)
      requires k < |calls| && Extends(calls, k, call) && call.op.Sendto? && SeenFrom(calls[..k], seen)
      requires o in lastSend[call.service := call] && (o in lastSend ==> SeenRight(calls[..k], lastSend, seen, x, o))
      ensures SeenRight(calls[..k + 1], lastSend[call.service := call], seen, x, o)
    {}

    static lemma RecvStep(calls: seq<Call>, k: nat, lastSend: map<string, Call>, seen: map<(string, string), Call>,
                          seen': map<(string, string), Call>)
      requires k < |calls| && TimeOrdered(calls) && calls[k].op.Recvfrom? && Tables(calls, k, lastSend, seen)
      requires SeenAfter(seen', calls[k], lastSend, seen, lastSend.Keys - {calls[k].service})
      ensures Tables(calls, k + 1, lastSend, seen')
    {
      var call := calls[k];
      var next := calls[..k + 1];
      TakeCall(calls, k);
      forall x, o | o in lastSend && x != o ensures SeenRight(next, lastSend, seen', x, o) {
        assert SeenRight(calls[..k], lastSend, seen, x, o);
        if x == call.service {
          SeenHere(calls, k, call, lastSend, seen', x, o);
        } else {
          SeenElsewhere(calls, k, call, lastSend, seen, seen', x, o);
        }
      }
      forall x, o | (x, o) in seen' ensures seen'[(x, o)] in calls[..k + 1] {
        assert seen'[(x, o)] in calls[..k];
      }
    }

    /** At the server of the receive, every last send of another one has now been recorded. */
    static lemma SeenHere(calls: seq<Call>, k: nat, call: Call, lastSend: map<string, Call>,
                          seen': map<(string, string), Call>, x: string, o: string)
      requires k < |calls| && Extends(calls, k, call) && call.op.Recvfrom? && x == call.service
      requires o in lastSend && lastSend[o] in calls[..k] && (x, o) in seen' && seen'[(x, o)] == lastSend[o]
      ensures SeenRight(calls[..k + 1], lastSend, seen', x, o)
    {
      assert call in calls[..k + 1];
    }

    /** At the other servers nothing changes. */
    static lemma SeenElsewhere(calls: seq<Call>, k: nat, call: Call, lastSend: map<string, Call>,
                               seen: map<(string, string), Call>, seen': map<(string, string), Call>, x: string,
                               o: string)
      requires k < |calls| && Extends(calls, k, call) && x != call.service && o in lastSend
      requires SeenRight(calls[..k], lastSend, seen, x, o)
      requires (x, o) in seen' <==> (x, o) in seen
      requires (x, o) in seen ==> seen'[(x, o)] == seen[(x, o)]
      ensures SeenRight(calls[..k + 1], lastSend, seen', x, o)
    {}

    /** The pruned client edges into the first n client calls have been added. */
    ghost predicate AddedTo(edges: Edges<Call>, before: Edges<Call>, calls: seq<Call>, n: nat)
      requires n <= |calls|
    {
      forall a, b :: (a, b) in edges <==>
        (a, b) in before || (b in calls[..n] && PrunedClientEdge(AllCalls(services), links, a, b))
    }

    /** Dependencies through the client. */
    method AddClientEdges()
      requires WellFormed(services)
      modifies this`edges
      ensures forall a, b :: (a, b) in edges <==>
                             (a, b) in old(edges) || PrunedClientEdge(AllCalls(services), links, a, b)
      ensures forall a, b :: (a, b) in edges && (a, b) !in old(edges) ==>
                a.op.Sendto? && a !in links && b.op.Recvfrom? && b !in links && a.service != b.service
    {
      var calls := ClientCalls();
      var lastSend: map<string, Call> := map[];
      var seen: map<(string, string), Call> := map[];
      for k := 0 to |calls|
        invariant Tables(calls, k, lastSend, seen) && AddedTo(edges, old(edges), calls, k)
      {
        if calls[k].op.Sendto? {
          SendStep(calls, k, lastSend, seen);
          NoEdges(edges, old(edges), calls, k);
          lastSend := lastSend[calls[k].service := calls[k]];
        } else {
          assert calls[k] in calls;
          ghost var was := edges;
          var seen' := Receive(calls[k], lastSend, seen);
          RecvStep(calls, k, lastSend, seen, seen');
          EdgesInto(edges, was, old(edges), calls, k, lastSend, seen);
          seen := seen';
        }
      }
      assert calls[..|calls|] == calls;
    }

    /** No pruned client edge ends at a send. */
    lemma NoEdges(edges: Edges<Call>, before: Edges<Call>, calls: seq<Call>, k: nat)
      requires k < |calls| && calls[k].op.Sendto? && AddedTo(edges, before, calls, k)
      ensures AddedTo(edges, before, calls, k + 1)
    {
      assert calls[..k + 1] == calls[..k] + [calls[k]];
    }

    lemma EdgesInto(edges: Edges<Call>, was: Edges<Call>, before: Edges<Call>, calls: seq<Call>, k: nat,
                    lastSend: map<string, Call>, seen: map<(string, string), Call>)
      requires k < |calls| && TimeOrdered(calls) && calls[k].op.Recvfrom? && Tables(calls, k, lastSend, seen)
      requires forall c :: c in calls <==> c in AllCalls(services) && (ClientSend(links, c) || ClientRecv(links, c))
      requires AddedTo(was, before, calls, k)
      requires Recorded(edges, was, calls[k], lastSend, seen, lastSend.Keys - {calls[k].service})
      ensures AddedTo(edges, before, calls, k + 1)
    {
      var call, all := calls[k], AllCalls(services);
      assert calls[..k + 1] == calls[..k] + [call];
      forall a ensures PrunedClientEdge(all, links, a, call) <==>
                       exists o :: o in lastSend.Keys - {call.service} && Records(call, lastSend, seen, o, a)
      {
        NewEdges(calls, k, lastSend, seen, a);
      }
    }

    /** The edges that the loop adds at one receive are the pruned client edges into it. */
    lemma NewEdges(calls: seq<Call>, k: nat, lastSend: map<string, Call>, seen: map<(string, string), Call>, a: Call)
      requires k < |calls| && TimeOrdered(calls) && calls[k].op.Recvfrom? && Tables(calls, k, lastSend, seen)
      requires forall c :: c in calls <==> c in AllCalls(services) && (ClientSend(links, c) || ClientRecv(links, c))
      ensures PrunedClientEdge(AllCalls(services), links, a, calls[k]) <==>
              exists o :: o != calls[k].service && Records(calls[k], lastSend, seen, o, a)
    {
      EarlierCalls(calls, k);
      if PrunedClientEdge(AllCalls(services), links, a, calls[k]) { EdgeIsRecorded(calls, k, lastSend, seen, a); }
      if o :| o != calls[k].service && Records(calls[k], lastSend, seen, o, a) {
        RecordIsEdge(calls, k, lastSend, seen, a, o);
      }
    }

    lemma EarlierCalls(calls: seq<Call>, k: nat)
      requires k < |calls| && TimeOrdered(calls)
      ensures forall c :: c in calls[..k] <==> c in calls && c.timestamp < calls[k].timestamp
    {
      forall c | c in calls ensures c in calls[..k] <==> c.timestamp < calls[k].timestamp {
        var i :| 0 <= i < |calls| && calls[i] == c;
        if i < k { assert calls[..k][i] == c; }
      }
    }

    lemma EdgeIsRecorded(calls: seq<Call>, k: nat, lastSend: map<string, Call>, seen: map<(string, string), Call>,
                         a: Call)
      requires k < |calls| && TimeOrdered(calls) && calls[k].op.Recvfrom? && Tables(calls, k, lastSend, seen)
      requires forall c :: c in calls <==> c in AllCalls(services) && (ClientSend(links, c) || ClientRecv(links, c))
      requires forall c :: c in calls[..k] <==> c in calls && c.timestamp < calls[k].timestamp
      requires PrunedClientEdge(AllCalls(services), links, a, calls[k])
      ensures a.service != calls[k].service && Records(calls[k], lastSend, seen, a.service, a)
    {
      var b, all := calls[k], AllCalls(services);
      assert b in calls && a in calls && a in calls[..k];
      var last := lastSend[a.service];
      assert last in calls && last in all && last.timestamp < b.timestamp;
      assert last == a by {
        var i :| 0 <= i < |calls| && calls[i] == a;
        var j :| 0 <= j < |calls| && calls[j] == last;
        assert a.timestamp <= last.timestamp;
      }
      assert SeenRight(calls[..k], lastSend, seen, b.service, a.service) && !ReceivedAfter(calls[..k], b.service, a);
    }

    lemma RecordIsEdge(calls: seq<Call>, k: nat, lastSend: map<string, Call>, seen: map<(string, string), Call>,
                       a: Call, o: string)
      requires k < |calls| && TimeOrdered(calls) && calls[k].op.Recvfrom? && Tables(calls, k, lastSend, seen)
      requires forall c :: c in calls <==> c in AllCalls(services) && (ClientSend(links, c) || ClientRecv(links, c))
      requires forall c :: c in calls[..k] <==> c in calls && c.timestamp < calls[k].timestamp
      requires o != calls[k].service && Records(calls[k], lastSend, seen, o, a)
      ensures PrunedClientEdge(AllCalls(services), links, a, calls[k])
    {
      var b, all := calls[k], AllCalls(services);
      assert b in calls && a in calls[..k] && a in calls && a.service == o;
      assert CausalClientEdge(all, links, a, b);
      assert SeenRight(calls[..k], lastSend, seen, b.service, a.service) && !ReceivedAfter(calls[..k], b.service, a);
      forall c | c in all && ClientSend(links, c) && c.service == a.service
        ensures !(a.timestamp < c.timestamp < b.timestamp)
      {
        assert c in calls;
      }
      forall c | c in all && ClientRecv(links, c) && c.service == b.service
        ensures !(a.timestamp < c.timestamp < b.timestamp)
      {
        assert c in calls;
      }
    }

    /** Builds the whole dependency graph of the trace. */
    method Dependencies()
      requires WellFormed(services) && LinksWellFormed(AllCalls(services), links)
      requires nodes == {} && edges == {}
      modifies this
      ensures nodes == AllCalls(services)
      ensures forall a, b :: (a, b) in edges <==> BuiltEdge(AllCalls(services), links, a, b)
      ensures forall a, b :: (a, b) in edges && a.service != b.service ==>
                a.op.Sendto? && if a in links then links[a] == b else b.op.Recvfrom? && b !in links
      ensures forall a, b ::
                && a in nodes && b in nodes && a.timestamp < b.timestamp && a.service != b.service
                && a.op.Sendto? && a !in links && b.op.Recvfrom? && b !in links
                ==> Reach(edges, a, b)
    {
      AddProgramOrder();
      AddPairs();
      AddClientEdges();
      AllEdgesSay();
    }

    lemma AllEdgesSay()
      requires WellFormed(services) && LinksWellFormed(AllCalls(services), links) && nodes == AllCalls(services)
      requires forall a, b :: (a, b) in edges <==> BuiltEdge(AllCalls(services), links, a, b)
      ensures forall a, b :: (a, b) in edges && a.service != b.service ==>
                a.op.Sendto? && if a in links then links[a] == b else b.op.Recvfrom? && b !in links
      ensures forall a, b ::
                && a in nodes && b in nodes && a.timestamp < b.timestamp && a.service != b.service
                && a.op.Sendto? && a !in links && b.op.Recvfrom? && b !in links
                ==> Reach(edges, a, b)
    {
      forall a, b | (a, b) in edges && a.service != b.service
        ensures a.op.Sendto? && if a in links then links[a] == b else b.op.Recvfrom? && b !in links
      {
        EdgesSay(AllCalls(services), links, edges, a, b);
      }
      forall a, b |
        && a in nodes && b in nodes && a.timestamp < b.timestamp && a.service != b.service
        && a.op.Sendto? && a !in links && b.op.Recvfrom? && b !in links
        ensures Reach(edges, a, b)
      {
        EdgesSay(AllCalls(services), links, edges, a, b);
      }
    }

    /** Removes a node and joins its predecessors to its successors. A self-loop brings the node back. */
    method NicelyRemoveNode(node: Call)
      requires Within(nodes, edges)
      modifies this`nodes, this`edges
      ensures Within(nodes, edges)
      ensures edges == Spliced(old(edges), node)
      ensures nodes == if (node, node) in old(edges) then old(nodes) else old(nodes) - {node}
      ensures forall a, b :: a != node && b != node ==> (Reach(edges, a, b) <==> Reach(old(edges), a, b))
      ensures Acyclic(edges) <==> Acyclic(old(edges))
    {
      ghost var e := edges;
      if node !in nodes {
        assert Spliced(e, node) == e by {
          forall a, b ensures (a, b) in Spliced(e, node) <==> (a, b) in e { SplicedMembers(e, node, a, b); }
        }
        return;
      }
      var preds := Preds(edges, node);
      var succs := Succs(edges, node);
      nodes := nodes - {node};
      edges := set d | d in edges && d.0 != node && d.1 != node;
      var joined := set a, b | a in preds && b in succs :: (a, b);
      edges := edges + joined;
      nodes := nodes + (set d | d in joined :: d.0) + (set d | d in joined :: d.1);
      JoinedNodes(old(nodes), e, node);
      assert edges == Spliced(e, node);
      forall a, b | a != node && b != node ensures Reach(edges, a, b) <==> Reach(e, a, b) {
        SplicedReach(e, node, a, b);
      }
      SplicedAcyclic(e, node);
    }

    /** Splices out every receive and then every send, and reduces what is left. Returns false where
        networkx refuses to reduce a cyclic graph. */
    method Reduction() returns (ok: bool)
      requires Within(nodes, edges)
      modifies this`nodes, this`edges
      ensures Within(nodes, edges)
      ensures ok <==> Acyclic(old(edges))
      ensures ok ==> Acyclic(edges)
      ensures ok ==> nodes == set c | c in old(nodes) && !IsNetwork(c)
      ensures ok ==> forall a, b :: a in nodes && b in nodes ==> (Reach(edges, a, b) <==> Reach(old(edges), a, b))
      ensures ok ==> forall a, b :: (a, b) in edges ==> a.service == b.service || !Redundant(edges, a, b)
      ensures ok ==> forall a, b :: a in nodes && b in nodes && a.service == b.service && (a, b) in old(edges)
                                    ==> (a, b) in edges
    {
      RemoveAll(set c | c in nodes && c.op.Recvfrom?);
      ghost var middle := edges;
      RemoveAll(set c | c in nodes && c.op.Sendto?);
      ok := forall v | v in nodes :: v !in Descendants(nodes, edges, v);
      ghost var spliced := edges;
      forall v ensures v in Descendants(nodes, edges, v) <==> Reach(edges, v, v) {
        DescendantsExact(nodes, edges, v, v);
      }
      assert ok <==> Acyclic(edges) by {
        if !Acyclic(edges) {
          var v :| Reach(edges, v, v);
          ReachWithin(nodes, edges, v, v);
        }
      }
      if ok {
        edges := AdaptedTransitiveReduction(nodes, edges);
        AdaptedKeepsReach(nodes, spliced);
      }
    }

    method RemoveAll(calls: set<Call>)
      requires Within(nodes, edges)
      modifies this`nodes, this`edges
      ensures Within(nodes, edges)
      ensures Acyclic(edges) <==> Acyclic(old(edges))
      ensures nodes <= old(nodes)
      ensures Acyclic(edges) ==> nodes == old(nodes) - calls
      ensures forall a, b :: a !in calls && b !in calls ==> (Reach(edges, a, b) <==> Reach(old(edges), a, b))
      ensures forall a, b :: a !in calls && b !in calls && (a, b) in old(edges) ==> (a, b) in edges
    {
      var todo := calls;
      while todo != {}
        invariant todo <= calls
        invariant Within(nodes, edges)
        invariant Acyclic(edges) <==> Acyclic(old(edges))
        invariant nodes <= old(nodes)
        invariant Acyclic(edges) ==> nodes == old(nodes) - (calls - todo)
        invariant forall a, b :: a !in calls && b !in calls ==> (Reach(edges, a, b) <==> Reach(old(edges), a, b))
        invariant forall a, b :: a !in calls && b !in calls && (a, b) in old(edges) ==> (a, b) in edges
        decreases todo
      {
        var call :| call in todo;
        ghost var e := edges;
        NicelyRemoveNode(call);
        todo := todo - {call};
        if Acyclic(edges) && (call, call) in e { EdgeReach(e, call, call); }
        forall a, b | a !in calls && b !in calls && (a, b) in e ensures (a, b) in edges {
          SplicedMembers(e, call, a, b);
        }
      }
    }
  }

  lemma JoinedNodes(nodes: set<Call>, e: Edges<Call>, node: Call)
    requires Within(nodes, e) && node in nodes
    ensures var joined := set a, b | a in Preds(e, node) && b in Succs(e, node) :: (a, b);
            nodes - {node} + (set d | d in joined :: d.0) + (set d | d in joined :: d.1)
            == if (node, node) in e then nodes else nodes - {node}
  {
    var joined := set a, b | a in Preds(e, node) && b in Succs(e, node) :: (a, b);
    forall d | d in joined ensures (d.0, node) in e && (node, d.1) in e {
      var x :| x in e && x.1 == node && x.0 == d.0;
      var y :| y in e && y.0 == node && y.1 == d.1;
      assert x == (d.0, node) && y == (node, d.1);
    }
    if (node, node) in e {
      assert (node, node).0 in Preds(e, node) && (node, node).1 in Succs(e, node);
      assert (node, node) in joined;
      assert (node, node).0 in (set d | d in joined :: d.0);
    }
  }

  /** Transitive reduction, except that edges within one server are kept. */
  function AdaptedTransitiveReduction(nodes: set<Call>, e: Edges<Call>): Edges<Call> {
    TransitiveReduction(nodes, e) + (set d | d in e && d.0.service == d.1.service)
  }

  lemma AdaptedKeepsReach(nodes: set<Call>, e: Edges<Call>)
    requires Within(nodes, e) && Acyclic(e)
    ensures var r := AdaptedTransitiveReduction(nodes, e);
            && r <= e && Acyclic(r)
            && (forall a, b :: Reach(r, a, b) <==> Reach(e, a, b))
            && (forall a, b :: (a, b) in r ==> a.service == b.service || !Redundant(r, a, b))
            && (forall a, b :: (a, b) in e && a.service == b.service ==> (a, b) in r)
  {
    var r := AdaptedTransitiveReduction(nodes, e);
    forall a, b ensures Reach(r, a, b) <==> Reach(e, a, b) {
      ReductionReach(nodes, e, a, b);
      SubsetImplied(TransitiveReduction(nodes, e), r);
      SubsetImplied(r, e);
      if Reach(TransitiveReduction(nodes, e), a, b) { ReachImplied(TransitiveReduction(nodes, e), r, a, b); }
      if Reach(r, a, b) { ReachImplied(r, e, a, b); }
    }
    forall a: Call, b: Call | (a, b) in r && a.service != b.service ensures !Redundant(r, a, b) {
      ReductionMembers(nodes, e, a, b);
      assert forall w :: (a, w) in r && w != b && Reach(r, w, b) ==> (a, w) in e && Reach(e, w, b);
    }
    forall a, b | (a, b) in e && a.service == b.service ensures (a, b) in r {
      assert (a, b).0.service == (a, b).1.service;
    }
  }

  /** From the trace to the reduced graph: happens-before between disk calls is that of the unpruned,
      unreduced dependency graph. */
  method BuildReduced(services: seq<Service>, links: Links) returns (g: ExecGraph)
    requires WellFormed(services) && LinksWellFormed(AllCalls(services), links)
    ensures fresh(g)
    ensures g.nodes == set c | c in AllCalls(services) && !IsNetwork(c)
    ensures forall c :: c in g.nodes <==>
              (exists s :: s in services && c in s.syscalls) && !c.op.Sendto? && !c.op.Recvfrom?
    ensures Within(g.nodes, g.edges) && Acyclic(g.edges)
    ensures forall a, b :: a in g.nodes && b in g.nodes ==>
              (Reach(g.edges, a, b) <==> Reach(CausalEdges(AllCalls(services), links), a, b))
    ensures forall a, b :: (a, b) in g.edges ==> a.service == b.service || !Redundant(g.edges, a, b)
  {
    var calls := AllCalls(services);
    g := new ExecGraph(services, links);
    g.Dependencies();
    forall a, b ensures Reach(g.edges, a, b) <==> Reach(CausalEdges(calls, links), a, b) {
      PrunedReachesAll(calls, links, g.edges, a, b);
    }
    CausalForward(calls, links);
    assert Within(g.nodes, g.edges) by {
      forall d | d in g.edges ensures d.0 in g.nodes && d.1 in g.nodes { assert d == (d.0, d.1); }
    }
    var ok := g.Reduction();
  }
}
