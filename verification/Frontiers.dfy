/** Consistent frontiers: one last call (or none) for every server, and the calls up to it. */
module Frontiers {
  import opened Options
  import opened Sequences
  import opened Digraphs
  import opened Traces
  import opened ExecGraphs

  /** A frontier tuple read through the mask dictionary: the last persisted call of every server. */
  type Frontier = map<string, Option<Call>>

  ghost predicate Choices(nodes: set<Call>, f: Frontier) {
    && f.Keys == (set c | c in nodes :: c.service)
    && forall s :: s in f && f[s].Some? ==> f[s].value in nodes && f[s].value.service == s
  }

  /** The filter's condition for throwing a frontier away: dest is behind it but src is not. */
  predicate Violates(f: Frontier, src: Call, dest: Call)
    requires src.service in f && dest.service in f
  {
    && (f[src.service].None? || f[src.service].value.timestamp < src.timestamp)
    && f[dest.service].Some? && f[dest.service].value.timestamp >= dest.timestamp
  }

  ghost predicate Consistent(nodes: set<Call>, e: Edges<Call>, f: Frontier)
    requires Within(nodes, e)
  {
    && Choices(nodes, f)
    && forall a, b :: (a, b) in e && a.service != b.service ==> !Violates(f, a, b)
  }

  /** The calls at or before the frontier. */
  function Cut(nodes: set<Call>, f: Frontier): set<Call> {
    set c | c in nodes && c.service in f && f[c.service].Some? && c.timestamp <= f[c.service].value.timestamp
  }

  ghost predicate Closed(nodes: set<Call>, e: Edges<Call>, s: set<Call>) {
    s <= nodes && forall a, b :: b in s && a in nodes && Reach(e, a, b) ==> a in s
  }

  /** What the reduced graph of a trace guarantees: edges go forward in time and servers are totally ordered. */
  ghost predicate Traced(nodes: set<Call>, e: Edges<Call>) {
    && Within(nodes, e) && Forward(e) && DistinctTimes(nodes)
    && forall a, b :: a in nodes && b in nodes && a.service == b.service && a.timestamp < b.timestamp ==> Reach(e, a, b)
  }

  // ---------------------------------------------------- frontiers and closed sets

  lemma {:induction false} CutClosedPath(nodes: set<Call>, e: Edges<Call>, f: Frontier, p: seq<Call>)
    requires Traced(nodes, e) && Consistent(nodes, e, f)
    requires IsPath(e, p) && p[|p| - 1] in Cut(nodes, f)
    ensures p[0] in Cut(nodes, f)
    decreases |p|
  {
    assert (p[0], p[1]) in e;
    if |p| > 2 { CutClosedPath(nodes, e, f, p[1..]); }
    var a, b := p[0], p[1];
    assert b in Cut(nodes, f) && (a, b).0.timestamp < (a, b).1.timestamp;
    assert a.service != b.service ==> !Violates(f, a, b);
  }

  /** Every surviving frontier cuts off a happens-before-closed set. */
  lemma CutIsClosed(nodes: set<Call>, e: Edges<Call>, f: Frontier)
    requires Traced(nodes, e) && Consistent(nodes, e, f)
    ensures Closed(nodes, e, Cut(nodes, f))
  {
    forall a, b | b in Cut(nodes, f) && a in nodes && Reach(e, a, b) ensures a in Cut(nodes, f) {
      var p :| PathFromTo(e, p, a, b);
      CutClosedPath(nodes, e, f, p);
    }
  }

  ghost predicate IsLast(s: set<Call>, name: string, c: Call) {
    c in s && c.service == name && forall d :: d in s && d.service == name ==> d.timestamp <= c.timestamp
  }

  ghost function LastOf(s: set<Call>, name: string): (r: Option<Call>)
    ensures r.None? ==> forall c :: c in s ==> c.service != name
    ensures r.Some? ==> IsLast(s, name, r.value)
  {
    var mine := set c | c in s && c.service == name;
    if mine == {} then
      assert forall c :: c in s && c.service == name ==> c in mine;
      None
    else
      assert exists c :: IsLast(s, name, c) by { var m := Latest(mine); assert IsLast(s, name, m); }
      var c :| IsLast(s, name, c);
      Some(c)
  }

  ghost function FrontierOf(nodes: set<Call>, s: set<Call>): Frontier {
    map name | name in (set c | c in nodes :: c.service) :: LastOf(s, name)
  }

  /** Every closed set is cut off by a surviving frontier. */
  lemma ClosedIsCut(nodes: set<Call>, e: Edges<Call>, s: set<Call>)
    requires Traced(nodes, e) && Closed(nodes, e, s)
    ensures Consistent(nodes, e, FrontierOf(nodes, s))
    ensures Cut(nodes, FrontierOf(nodes, s)) == s
  {
    var f := FrontierOf(nodes, s);
    forall c | c in nodes ensures c in Cut(nodes, f) <==> c in s {
      if c in Cut(nodes, f) {
        var last := f[c.service].value;
        assert last in s && last.service == c.service && c.timestamp <= last.timestamp;
        if c != last { assert Reach(e, c, last); }
      }
      if c in s { assert f[c.service].Some?; }
    }
    forall a, b | (a, b) in e && a.service != b.service ensures !Violates(f, a, b) {
      assert (a, b).0 in nodes && (a, b).1 in nodes;
      if f[b.service].Some? && f[b.service].value.timestamp >= b.timestamp {
        assert b in Cut(nodes, f);
        EdgeReach(e, a, b);
        assert a in Cut(nodes, f);
      }
    }
  }

  /** Different frontiers cut off different sets. */
  lemma CutInjective(nodes: set<Call>, f: Frontier, g: Frontier)
    requires DistinctTimes(nodes) && Choices(nodes, f) && Choices(nodes, g)
    requires Cut(nodes, f) == Cut(nodes, g)
    ensures f == g
  {
    forall s | s in f.Keys ensures f[s] == g[s] {
      assert s in f && s in g;
      if f[s].Some? { assert f[s].value in Cut(nodes, f); assert f[s].value in Cut(nodes, g); }
      if g[s].Some? { assert g[s].value in Cut(nodes, g); assert g[s].value in Cut(nodes, f); }
    }
  }

  // ------------------------------------------------------------- enumerating them

  function WithChoice(name: string, o: Option<Call>, rests: seq<Frontier>): seq<Frontier> {
    seq(|rests|, i requires 0 <= i < |rests| => rests[i][name := o])
  }

  function WithChoices(name: string, options: seq<Option<Call>>, rests: seq<Frontier>): seq<Frontier> {
    if options == [] then [] else WithChoice(name, options[0], rests) + WithChoices(name, options[1..], rests)
  }

  /** itertools.product over the candidate lists of the servers. */
  function Product(names: seq<string>, table: map<string, seq<Option<Call>>>): seq<Frontier>
    requires forall n :: n in names ==> n in table
  {
    if names == [] then [map[]] else WithChoices(names[0], table[names[0]], Product(names[1..], table))
  }

  ghost predicate Chooses(names: seq<string>, table: map<string, seq<Option<Call>>>, f: Frontier)
    requires forall n :: n in names ==> n in table
  {
    f.Keys == ToSet(names) && forall n :: n in names ==> f[n] in table[n]
  }

  lemma {:induction false} WithChoicesMembers(name: string, options: seq<Option<Call>>, rests: seq<Frontier>,
                                              f: Frontier)
    requires forall g :: g in rests ==> name !in g
    ensures f in WithChoices(name, options, rests) <==> name in f && f[name] in options && f - {name} in rests
  {
    if options != [] {
      WithChoicesMembers(name, options[1..], rests, f);
      var first := WithChoice(name, options[0], rests);
      if f in first {
        var i :| 0 <= i < |first| && first[i] == f;
        assert f == rests[i][name := options[0]];
        assert f - {name} == rests[i];
      }
      if name in f && f[name] == options[0] && f - {name} in rests {
        var i :| 0 <= i < |rests| && rests[i] == f - {name};
        assert first[i] == f;
      }
    }
  }

  lemma {:induction false} WithChoicesNoDup(name: string, options: seq<Option<Call>>, rests: seq<Frontier>)
    requires forall g :: g in rests ==> name !in g
    requires NoDup(options) && NoDup(rests)
    ensures NoDup(WithChoices(name, options, rests))
  {
    if options != [] {
      WithChoicesNoDup(name, options[1..], rests);
      var first, others := WithChoice(name, options[0], rests), WithChoices(name, options[1..], rests);
      forall i, j | 0 <= i < j < |first| ensures first[i] != first[j] {
        assert first[i] - {name} == rests[i] && first[j] - {name} == rests[j];
      }
      forall i, j | 0 <= i < |first| && 0 <= j < |others| ensures first[i] != others[j] {
        WithChoicesMembers(name, options[1..], rests, others[j]);
        assert first[i][name] == options[0];
        assert others[j] in others;
        var k :| 0 <= k < |options[1..]| && options[1..][k] == others[j][name];
        assert options[k + 1] == others[j][name];
      }
    }
  }

  lemma ChoosesStep(names: seq<string>, table: map<string, seq<Option<Call>>>, f: Frontier)
    requires names != [] && NoDup(names) && forall n :: n in names ==> n in table
    ensures Chooses(names, table, f) <==>
            names[0] in f && f[names[0]] in table[names[0]] && Chooses(names[1..], table, f - {names[0]})
  {
    var name, g := names[0], f - {names[0]};
    assert forall n :: n in names <==> n == name || n in names[1..];
    assert name !in names[1..] by {
      assert forall k :: 0 <= k < |names[1..]| ==> names[1..][k] == names[k + 1];
    }
    if Chooses(names, table, f) {
      assert g.Keys == (set n | n in names[1..]);
    }
    if name in f && f[name] in table[name] && Chooses(names[1..], table, g) {
      assert f.Keys == g.Keys + {name};
      forall n | n in names ensures f[n] in table[n] {
        if n != name { assert f[n] == g[n]; }
      }
    }
  }

  lemma {:induction false} ProductMembers(names: seq<string>, table: map<string, seq<Option<Call>>>)
    requires NoDup(names) && forall n :: n in names ==> n in table && NoDup(table[n])
    ensures forall f :: f in Product(names, table) <==> Chooses(names, table, f)
    ensures NoDup(Product(names, table))
  {
    if names == [] {
      forall f: Frontier | Chooses(names, table, f) ensures f == map[] {}
    } else {
      var name, rest := names[0], Product(names[1..], table);
      ProductMembers(names[1..], table);
      forall g | g in rest ensures name !in g {
        assert Chooses(names[1..], table, g);
        assert forall k :: 0 <= k < |names[1..]| ==> names[1..][k] == names[k + 1];
      }
      WithChoicesNoDup(name, table[name], rest);
      forall f ensures f in Product(names, table) <==> Chooses(names, table, f) {
        WithChoicesMembers(name, table[name], rest, f);
        ChoosesStep(names, table, f);
      }
    }
  }

  function Keep(fs: seq<Frontier>, src: Call, dest: Call): seq<Frontier>
    requires forall f :: f in fs ==> src.service in f && dest.service in f
  {
    if fs == [] then [] else (if Violates(fs[0], src, dest) then [] else [fs[0]]) + Keep(fs[1..], src, dest)
  }

  lemma {:induction false} KeepMembers(fs: seq<Frontier>, src: Call, dest: Call)
    requires forall f :: f in fs ==> src.service in f && dest.service in f
    ensures forall f :: f in Keep(fs, src, dest) <==> f in fs && !Violates(f, src, dest)
    ensures NoDup(fs) ==> NoDup(Keep(fs, src, dest))
  {
    if fs != [] {
      KeepMembers(fs[1..], src, dest);
      assert fs == [fs[0]] + fs[1..];
      var rest := Keep(fs[1..], src, dest);
      if NoDup(fs) {
        forall j | 0 <= j < |rest| ensures fs[0] != rest[j] {
          assert rest[j] in fs[1..];
          var k :| 0 <= k < |fs[1..]| && fs[1..][k] == rest[j];
          assert fs[k + 1] == rest[j];
        }
      }
    }
  }

  ghost predicate Candidates(calls: seq<Call>, name: string, list: seq<Option<Call>>) {
    && NoDup(list) && None in list
    && forall c :: Some(c) in list <==> c in calls && c.service == name
  }

  lemma CandidatesStep(calls: seq<Call>, call: Call, name: string, list: seq<Option<Call>>)
    requires call !in calls && Candidates(calls, name, list)
    ensures Candidates(calls + [call], name, if name == call.service then list + [Some(call)] else list)
  {
    if name == call.service {
      assert Some(call) !in list;
    }
  }

  ghost predicate Serves(calls: seq<Call>, name: string) { exists c :: c in calls && c.service == name }

  ghost predicate ListedAt(calls: seq<Call>, table: map<string, seq<Option<Call>>>, name: string) {
    && (name in table <==> Serves(calls, name))
    && (name in table ==> Candidates(calls, name, table[name]))
  }

  /** The table for the calls seen so far. */
  ghost predicate Tabled(calls: seq<Call>, table: map<string, seq<Option<Call>>>) {
    forall n :: ListedAt(calls, table, n)
  }

  lemma ListedNext(calls: seq<Call>, call: Call, table: map<string, seq<Option<Call>>>, list: seq<Option<Call>>,
                   name: string)
    requires call !in calls && Tabled(calls, table)
    requires list == if call.service in table then table[call.service] else [None]
    ensures ListedAt(calls + [call], table[call.service := list + [Some(call)]], name)
  {
    assert ListedAt(calls, table, name);
    assert call in calls + [call];
    if name == call.service || name in table {
      CandidatesStep(calls, call, name, if name == call.service then list else table[name]);
    }
  }

  lemma TabledStep(calls: seq<Call>, call: Call, table: map<string, seq<Option<Call>>>, list: seq<Option<Call>>)
    requires call !in calls && Tabled(calls, table)
    requires list == if call.service in table then table[call.service] else [None]
    ensures Tabled(calls + [call], table[call.service := list + [Some(call)]])
  {
    var more, table' := calls + [call], table[call.service := list + [Some(call)]];
    forall name ensures ListedAt(more, table', name) {
      ListedNext(calls, call, table, list, name);
    }
  }

  /** The candidate list of every server: None, then its calls in node order. */
  method CandidateLists(order: seq<Call>) returns (names: seq<string>, table: map<string, seq<Option<Call>>>)
    requires NoDup(order)
    ensures NoDup(names) && (forall n :: n in names <==> n in table)
    ensures Tabled(order, table) && forall n :: n in names ==> NoDup(table[n])
  {
    names, table := [], map[];
    for k := 0 to |order|
      invariant NoDup(names) && (forall n :: n in names <==> n in table)
      invariant Tabled(order[..k], table)
    {
      var call := order[k];
      assert order[..k + 1] == order[..k] + [call];
      var list := if call.service in table then table[call.service] else [None];
      TabledStep(order[..k], call, table, list);
      if call.service !in table { names := names + [call.service]; }
      table := table[call.service := list + [Some(call)]];
    }
    assert order[..|order|] == order;
    forall n | n in names ensures NoDup(table[n]) { assert ListedAt(order, table, n); }
  }

  /** All frontiers that no dependency between servers rules out, each once. */
  method Enumerate(order: seq<Call>, edges: Edges<Call>) returns (fs: seq<Frontier>)
    requires NoDup(order) && Within(ToSet(order), edges)
    ensures NoDup(fs)
    ensures forall f :: f in fs <==> Consistent(ToSet(order), edges, f)
  {
    var names, table := CandidateLists(order);
    ghost var nodes := ToSet(order);
    fs := Product(names, table);
    ProductMembers(names, table);
    forall f ensures Chooses(names, table, f) <==> Choices(nodes, f) {
      ChoosesIsChoices(order, names, table, f);
    }
    var todo := set d | d in edges && d.0.service != d.1.service;
    while todo != {}
      invariant todo <= edges && NoDup(fs)
      invariant forall f :: f in fs <==> Passes(nodes, edges, todo, f)
      decreases todo
    {
      var d :| d in todo;
      FilterStep(nodes, edges, todo, d, fs);
      fs := Keep(fs, d.0, d.1);
      todo := todo - {d};
    }
  }

  /** The frontier passes the filters of all edges between servers but those still to do. */
  ghost predicate Passes(nodes: set<Call>, edges: Edges<Call>, todo: Edges<Call>, f: Frontier)
    requires Within(nodes, edges)
  {
    && Choices(nodes, f)
    && forall a, b :: (a, b) in edges && (a, b) !in todo && a.service != b.service ==> !Violates(f, a, b)
  }

  lemma PassesNext(nodes: set<Call>, edges: Edges<Call>, todo: Edges<Call>, d: (Call, Call), f: Frontier)
    requires Within(nodes, edges) && d in todo && todo <= edges && d.0.service != d.1.service && Choices(nodes, f)
    ensures d.0.service in f && d.1.service in f
    ensures Passes(nodes, edges, todo - {d}, f) <==> Passes(nodes, edges, todo, f) && !Violates(f, d.0, d.1)
  {
    ServicesIn(nodes, f, d.0);
    ServicesIn(nodes, f, d.1);
    assert d == (d.0, d.1);
    forall a, b ensures (a, b) !in todo - {d} <==> (a, b) !in todo || (a, b) == d {}
  }

  lemma FilterStep(nodes: set<Call>, edges: Edges<Call>, todo: Edges<Call>, d: (Call, Call), fs: seq<Frontier>)
    requires Within(nodes, edges) && d in todo && todo <= edges && d.0.service != d.1.service
    requires NoDup(fs) && forall f :: f in fs <==> Passes(nodes, edges, todo, f)
    ensures forall f :: f in fs ==> d.0.service in f && d.1.service in f
    ensures NoDup(Keep(fs, d.0, d.1)) && forall f :: f in Keep(fs, d.0, d.1) <==> Passes(nodes, edges, todo - {d}, f)
  {
    forall f | f in fs ensures d.0.service in f && d.1.service in f { PassesNext(nodes, edges, todo, d, f); }
    KeepMembers(fs, d.0, d.1);
    forall f ensures f in Keep(fs, d.0, d.1) <==> Passes(nodes, edges, todo - {d}, f) {
      if Choices(nodes, f) { PassesNext(nodes, edges, todo, d, f); }
    }
  }

  lemma ServicesIn(nodes: set<Call>, f: Frontier, c: Call)
    requires Choices(nodes, f) && c in nodes
    ensures c.service in f
  {}

  lemma ChoosesIsChoices(order: seq<Call>, names: seq<string>, table: map<string, seq<Option<Call>>>, f: Frontier)
    requires forall n :: n in names <==> n in table
    requires Tabled(order, table)
    ensures Chooses(names, table, f) <==> Choices(ToSet(order), f)
  {
    var services := set c | c in ToSet(order) :: c.service;
    forall n ensures n in services <==> n in names {
      assert ListedAt(order, table, n);
      if n in names { var c :| c in order && c.service == n; assert c in ToSet(order); }
    }
    assert services == ToSet(names);
    forall n | n in names && n in f
      ensures f[n] in table[n] <==> f[n].None? || (f[n].value in ToSet(order) && f[n].value.service == n)
    {
      assert ListedAt(order, table, n);
      if f[n].Some? { assert Some(f[n].value) == f[n]; }
    }
    if Chooses(names, table, f) {
      forall n | n in f && f[n].Some?
        ensures f[n].value in ToSet(order) && f[n].value.service == n
      {
        assert n in names;
      }
    }
    if Choices(ToSet(order), f) {
      forall n | n in names ensures f[n] in table[n] { assert n in f; }
    }
  }

  // ----------------------------------------------------------------- the main claim

  ghost function OnDisk(calls: set<Call>): set<Call> { set c | c in calls && !IsNetwork(c) }

  ghost function DiskCalls(services: seq<Service>): set<Call> { OnDisk(AllCalls(services)) }

  lemma ReducedIsTraced(services: seq<Service>, links: Links, e: Edges<Call>)
    requires WellFormed(services) && LinksWellFormed(AllCalls(services), links)
    requires Within(DiskCalls(services), e)
    requires forall a, b :: a in DiskCalls(services) && b in DiskCalls(services) ==>
               (Reach(e, a, b) <==> Reach(CausalEdges(AllCalls(services), links), a, b))
    ensures Traced(DiskCalls(services), e)
  {
    var calls, nodes := AllCalls(services), DiskCalls(services);
    var full := CausalEdges(calls, links);
    CausalForward(calls, links);
    forall d | d in e ensures d.0.timestamp < d.1.timestamp {
      assert d == (d.0, d.1);
      EdgeReach(e, d.0, d.1);
      ForwardReach(full, d.0, d.1);
    }
    forall a, b | a in nodes && b in nodes && a.service == b.service && a.timestamp < b.timestamp
      ensures Reach(e, a, b)
    {
      ProgramReach(calls, full, a, b);
    }
  }

  /** From a trace to its crash cuts: the enumeration lists exactly the sets of disk calls that are closed
      under happens-before in the unpruned, unreduced dependency graph, every one of them once. */
  method CrashCuts(services: seq<Service>, links: Links, order: seq<Call>) returns (g: ExecGraph, fs: seq<Frontier>)
    requires WellFormed(services) && LinksWellFormed(AllCalls(services), links)
    requires NoDup(order) && ToSet(order) == DiskCalls(services)
    ensures fresh(g) && g.nodes == DiskCalls(services) && Traced(g.nodes, g.edges)
    ensures forall a, b :: a in g.nodes && b in g.nodes ==>
              (Reach(g.edges, a, b) <==> Reach(CausalEdges(AllCalls(services), links), a, b))
    ensures forall i :: 0 <= i < |fs| ==> Consistent(g.nodes, g.edges, fs[i])
    ensures forall s :: Closed(DiskCalls(services), CausalEdges(AllCalls(services), links), s) <==>
                        exists f :: f in fs && Cut(DiskCalls(services), f) == s
    ensures forall i, j :: 0 <= i < j < |fs| ==> Cut(DiskCalls(services), fs[i]) != Cut(DiskCalls(services), fs[j])
    ensures forall c :: c in g.nodes <==>
              (exists s :: s in services && c in s.syscalls) && !c.op.Sendto? && !c.op.Recvfrom?
  {
    g := BuildReduced(services, links);
    fs := Enumerate(order, g.edges);
    ghost var nodes, full := DiskCalls(services), CausalEdges(AllCalls(services), links);
    ReducedIsTraced(services, links, g.edges);
    forall i | 0 <= i < |fs| ensures Consistent(nodes, g.edges, fs[i]) { assert fs[i] in fs; }
    forall s ensures Closed(nodes, full, s) <==> exists f :: f in fs && Cut(nodes, f) == s {
      assert Closed(nodes, full, s) <==> Closed(nodes, g.edges, s) by { SameReachClosed(nodes, full, g.edges, s); }
      if Closed(nodes, g.edges, s) {
        ClosedIsCut(nodes, g.edges, s);
        assert FrontierOf(nodes, s) in fs;
      }
      if f :| f in fs && Cut(nodes, f) == s { CutIsClosed(nodes, g.edges, f); }
    }
    forall i, j | 0 <= i < j < |fs| ensures Cut(nodes, fs[i]) != Cut(nodes, fs[j]) {
      assert fs[i] in fs && fs[j] in fs;
      if Cut(nodes, fs[i]) == Cut(nodes, fs[j]) { CutInjective(nodes, fs[i], fs[j]); }
    }
  }

  /** What the list of frontiers says of the calls: what is at or before one of its frontiers is closed under what
      happens before. */
  lemma CutsSay(nodes: set<Call>, e: Edges<Call>, fs: seq<Frontier>, f: Frontier, a: Call, b: Call)
    requires forall s :: Closed(nodes, e, s) <==> exists f :: f in fs && Cut(nodes, f) == s
    requires f in fs && a in nodes && b in nodes && Reach(e, a, b)
    requires b.service in f && f[b.service].Some? && b.timestamp <= f[b.service].value.timestamp
    ensures a.service in f && f[a.service].Some? && a.timestamp <= f[a.service].value.timestamp
  {
    assert Closed(nodes, e, Cut(nodes, f)) && b in Cut(nodes, f);
    assert a in Cut(nodes, f);
  }

  /** Every closed set is what is at or before one of the frontiers. */
  lemma EveryCutListed(nodes: set<Call>, e: Edges<Call>, fs: seq<Frontier>, s: set<Call>) returns (f: Frontier)
    requires forall s :: Closed(nodes, e, s) <==> exists f :: f in fs && Cut(nodes, f) == s
    requires s <= nodes && forall a, b :: a in nodes && b in s && Reach(e, a, b) ==> a in s
    ensures f in fs
    ensures forall c :: c in nodes ==>
              (c in s <==> c.service in f && f[c.service].Some? && c.timestamp <= f[c.service].value.timestamp)
  {
    assert Closed(nodes, e, s);
    f :| f in fs && Cut(nodes, f) == s;
  }

  lemma SameReachClosed(nodes: set<Call>, e1: Edges<Call>, e2: Edges<Call>, s: set<Call>)
    requires forall a, b :: a in nodes && b in nodes ==> (Reach(e1, a, b) <==> Reach(e2, a, b))
    ensures Closed(nodes, e1, s) <==> Closed(nodes, e2, s)
  {}
}
