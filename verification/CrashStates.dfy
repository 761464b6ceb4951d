/** Generating the crash states of a reduced execution graph. */
module CrashStates {
  import opened Options
  import opened Sequences
  import opened Digraphs
  import opened Traces
  import opened ExecGraphs
  import opened Frontiers
  import opened Causality

  datatype Reorder = Reorder(dropped: seq<Call>, pivot: Call, layer: string)

  /** id numbers the state objects in creation order, as object identity does in the original. */
  datatype CrashState = CrashState(id: nat, syscalls: seq<Call>, reorder: Option<Reorder>, victims: seq<Call>)

  type Table = map<(Call, Call), bool>

  class CausalityTables {
    ghost const nodes: set<Call>
    ghost const edges: Edges<Call>
    var hbgraph: Table
    var pbgraph: Table

    ghost predicate Valid() reads this {
      forall a, b :: a in nodes && b in nodes ==>
        (a, b) in pbgraph && (pbgraph[(a, b)] <==> PersistsBefore(nodes, edges, a, b))
    }

    constructor (order: seq<Call>, edges: Edges<Call>)
      requires Within(ToSet(order), edges)
      ensures Valid() && nodes == ToSet(order) && this.edges == edges
      ensures forall a, b :: a in order && b in order ==> (a, b) in hbgraph && (hbgraph[(a, b)] <==> Reach(edges, a, b))
    {
      this.nodes := ToSet(order);
      this.edges := edges;
      var hb := HappensBefore(order, edges);
      hbgraph := hb;
      var pb := PersistsTable(order, edges, hb);
      pbgraph := pb;
    }

    static method HappensBefore(order: seq<Call>, edges: Edges<Call>) returns (hb: Table)
      requires Within(ToSet(order), edges)
      ensures forall a, b :: a in order && b in order ==> (a, b) in hb && (hb[(a, b)] <==> Reach(edges, a, b))
    {
      hb := map[];
      var nodes := ToSet(order);
      for i := 0 to |order|
        invariant forall a, b :: a in order[..i] && b in order ==> (a, b) in hb && (hb[(a, b)] <==> Reach(edges, a, b))
      {
        var descendants := Descendants(nodes, edges, order[i]);
        for j := 0 to |order|
          invariant forall a, b :: a in order[..i] && b in order ==>
                      (a, b) in hb && (hb[(a, b)] <==> Reach(edges, a, b))
          invariant forall b :: b in order[..j] ==>
                      (order[i], b) in hb && (hb[(order[i], b)] <==> Reach(edges, order[i], b))
        {
          DescendantsExact(nodes, edges, order[i], order[j]);
          hb := hb[(order[i], order[j]) := order[j] in descendants];
        }
        assert order[..i + 1] == order[..i] + [order[i]];
      }
    }

    static method PersistsTable(order: seq<Call>, edges: Edges<Call>, hb: Table) returns (pb: Table)
      requires Within(ToSet(order), edges)
      requires forall a, b :: a in order && b in order ==> (a, b) in hb && (hb[(a, b)] <==> Reach(edges, a, b))
      ensures forall a, b :: a in order && b in order ==>
                (a, b) in pb && (pb[(a, b)] <==> PersistsBefore(ToSet(order), edges, a, b))
    {
      pb := map[];
      for i := 0 to |order|
        invariant forall a, b :: a in order[..i] && b in order ==>
                    (a, b) in pb && (pb[(a, b)] <==> PersistsBefore(ToSet(order), edges, a, b))
      {
        for j := 0 to |order|
          invariant forall a, b :: a in order[..i] && b in order ==>
                      (a, b) in pb && (pb[(a, b)] <==> PersistsBefore(ToSet(order), edges, a, b))
          invariant forall b :: b in order[..j] ==>
                      (order[i], b) in pb && (pb[(order[i], b)] <==> PersistsBefore(ToSet(order), edges, order[i], b))
        {
          var value := Persists(order, edges, hb, order[i], order[j]);
          pb := pb[(order[i], order[j]) := value];
        }
        assert order[..i + 1] == order[..i] + [order[i]];
      }
    }

    static method Persists(order: seq<Call>, ghost edges: Edges<Call>, hb: Table, call1: Call, call2: Call)
      returns (value: bool)
      requires call1 in order && call2 in order
      requires forall a, b :: a in order && b in order ==> (a, b) in hb && (hb[(a, b)] <==> Reach(edges, a, b))
      ensures value <==> PersistsBefore(ToSet(order), edges, call1, call2)
    {
      if call1.service == call2.service {
        value := hb[(call1, call2)];
      } else {
        value := false;
        for k := 0 to |order|
          invariant value <==>
                    exists s :: s in order[..k] && Syncs(s, call1) && Reach(edges, call1, s) && Reach(edges, s, call2)
        {
          var sync := order[k];
          assert order[..k + 1] == order[..k] + [sync];
          if Syncs(sync, call1) && hb[(call1, sync)] && hb[(sync, call2)] {
            value := true;
          }
        }
        assert order[..|order|] == order;
        assert forall s :: s in order <==> s in ToSet(order);
      }
    }

    method PersistsBeforeQuery(call1: Call, call2: Call) returns (r: bool)
      requires Valid() && call1 in nodes && call2 in nodes
      ensures r <==> PersistsBefore(nodes, edges, call1, call2)
    {
      r := pbgraph[(call1, call2)];
    }

    /** What the entry for two calls says, by the kind of the first one. */
    lemma EntrySays(a: Call, b: Call)
      requires Valid() && a in nodes && b in nodes && !a.op.Sendto? && !a.op.Recvfrom?
      ensures (a, b) in pbgraph
      ensures a.service == b.service ==> (pbgraph[(a, b)] <==> Reach(edges, a, b))
      ensures a.service != b.service && (a.op.Link? || a.op.Rename?) ==>
                (pbgraph[(a, b)] <==>
                 exists s :: s in nodes && s.op.Fsync? && (s.op.path == a.op.src || s.op.path == a.op.dest)
                             && Reach(edges, a, s) && Reach(edges, s, b))
      ensures a.service != b.service && !a.op.Link? && !a.op.Rename? ==>
                (pbgraph[(a, b)] <==>
                 exists s :: s in nodes && s.op.Fsync? && s.op.path == a.op.path
                             && Reach(edges, a, s) && Reach(edges, s, b))
    {
      PersistsSays(nodes, edges, a, b);
    }

    /** None if the pivot, the last of the calls, cannot persist without the base call; otherwise the base call
        and every earlier call that persists only after it. */
    method PersistsBeforeAll(base: Call, calls: seq<Call>) returns (r: Option<seq<Call>>)
      requires Valid() && calls != [] && base in nodes && ToSet(calls) <= nodes
      ensures r.None? <==>
              PersistsBefore(nodes, edges, base, calls[|calls| - 1]) ||
              exists c :: c in calls[..|calls| - 1] && PersistsBefore(nodes, edges, base, c)
                          && PersistsBefore(nodes, edges, c, calls[|calls| - 1])
      ensures r.Some? ==> forall c :: c in r.value <==>
                c == base || (c in calls[..|calls| - 1] && PersistsBefore(nodes, edges, base, c))
    {
      assert forall c :: c in calls ==> c in ToSet(calls);
      var pivot := calls[|calls| - 1];
      var direct := PersistsBeforeQuery(base, pivot);
      if direct { return None; }
      var dependent := [base];
      for k := 0 to |calls| - 1
        invariant forall c :: c in calls[..k] ==>
                    !(PersistsBefore(nodes, edges, base, c) && PersistsBefore(nodes, edges, c, pivot))
        invariant forall c :: c in dependent <==>
                    c == base || (c in calls[..k] && PersistsBefore(nodes, edges, base, c))
      {
        var call := calls[k];
        assert calls[..k + 1] == calls[..k] + [call];
        var retval := PersistsBeforeQuery(base, call);
        if retval {
          var blocks := PersistsBeforeQuery(call, pivot);
          if !blocks {
            dependent := dependent + [call];
          } else {
            assert call in calls[..|calls| - 1];
            return None;
          }
        }
      }
      return Some(dependent);
    }
  }

  // -------------------------------------------------------------------- small lists

  function Select(s: seq<Call>, keep: Call -> bool): (r: seq<Call>)
    ensures forall c :: c in r <==> c in s && keep(c)
  {
    if s == [] then [] else (if keep(s[0]) then [s[0]] else []) + Select(s[1..], keep)
  }

  lemma {:induction false} SelectOrdered(s: seq<Call>, keep: Call -> bool)
    requires TimeOrdered(s)
    ensures TimeOrdered(Select(s, keep))
  {
    if s != [] {
      SelectOrdered(s[1..], keep);
      var rest := Select(s[1..], keep);
      forall j | 0 <= j < |rest| ensures s[0].timestamp < rest[j].timestamp {
        assert rest[j] in rest && rest[j] in s[1..];
      }
    }
  }

  lemma {:induction false} SelectNoDup(s: seq<Call>, keep: Call -> bool)
    requires NoDup(s)
    ensures NoDup(Select(s, keep))
  {
    if s != [] {
      SelectNoDup(s[1..], keep);
      var rest := Select(s[1..], keep);
      assert s[0] !in s[1..] by {
        assert forall k :: 0 <= k < |s[1..]| ==> s[1..][k] == s[k + 1];
      }
      assert s[0] !in rest;
    }
  }

  function IndexOf(s: seq<Call>, c: Call): (i: nat)
    requires c in s
    ensures i < |s| && s[i] == c
  {
    if s[0] == c then 0 else 1 + IndexOf(s[1..], c)
  }

  // ------------------------------------------------------------------- the generator

  /** One or two calls that may be victims at a frontier whose calls are listed in time order. */
  ghost predicate MayBeVictims(all: seq<Call>, victims: seq<Call>) {
    && all != [] && 1 <= |victims| <= 2 && (|victims| == 2 ==> victims[0].timestamp < victims[1].timestamp)
    && forall v :: v in victims ==> v in all && v != all[|all| - 1] && !v.op.Fsync?
  }

  /** The state left when the victims and all that persists only after them are missing. */
  ghost predicate Thinned(nodes: set<Call>, e: Edges<Call>, all: seq<Call>, victims: seq<Call>, st: CrashState) {
    && MayBeVictims(all, victims) && st.victims == victims
    && (forall v :: v in victims ==> !Refused(nodes, e, ToSet(all), v, all[|all| - 1]))
    && st.reorder.Some? && st.reorder.value.pivot == all[|all| - 1] && st.reorder.value.layer == "FS"
    && (forall c :: c in st.reorder.value.dropped <==> c in Dropped(nodes, e, ToSet(all), ToSet(victims)))
    && TimeOrdered(st.syscalls)
    && ToSet(st.syscalls) == ToSet(all) - Dropped(nodes, e, ToSet(all), ToSet(victims))
  }

  /** All that the generator appends for one frontier. */
  ghost predicate Explained(nodes: set<Call>, e: Edges<Call>, all: seq<Call>, st: CrashState) {
    || (st.reorder.None? && st.syscalls == all)
    || Thinned(nodes, e, all, st.victims, st)
  }

  ghost predicate Covered(nodes: set<Call>, e: Edges<Call>, all: seq<Call>, victims: seq<Call>,
                          states: seq<CrashState>) {
    MayBeVictims(all, victims) && (forall v :: v in victims ==> !Refused(nodes, e, ToSet(all), v, all[|all| - 1])) ==>
      exists st :: st in states && Thinned(nodes, e, all, victims, st)
  }

  ghost predicate Numbered(states: seq<CrashState>) {
    forall i :: 0 <= i < |states| ==> states[i].id == i
  }

  lemma DroppedMore(nodes: set<Call>, e: Edges<Call>, front: set<Call>, victims: set<Call>, v: Call)
    ensures Dropped(nodes, e, front, victims + {v}) == Dropped(nodes, e, front, victims) + Dropped(nodes, e, front, {v})
  {}

  /** The calls that go with one victim, or None when the pivot goes too. */
  method TryVictim(tables: CausalityTables, all: seq<Call>, victim: Call) returns (dependencies: Option<seq<Call>>)
    requires tables.Valid() && Forward(tables.edges) && TimeOrdered(all) && ToSet(all) <= tables.nodes
    requires victim in all && victim != all[|all| - 1]
    ensures dependencies.None? <==> Refused(tables.nodes, tables.edges, ToSet(all), victim, all[|all| - 1])
    ensures dependencies.Some? ==>
              forall c :: c in dependencies.value <==> c in Dropped(tables.nodes, tables.edges, ToSet(all), {victim})
  {
    var later := all[IndexOf(all, victim) + 1..];
    assert forall c :: c in later ==> c in ToSet(all);
    LaterCalls(tables.nodes, tables.edges, all, victim, later);
    dependencies := tables.PersistsBeforeAll(victim, later);
  }

  /** A choice is refused exactly when no persistable set keeps the pivot without all of its victims. */
  lemma RefusedChoice(nodes: set<Call>, e: Edges<Call>, all: seq<Call>, victims: seq<Call>)
    requires MayBeVictims(all, victims)
    ensures (exists v :: v in victims && Refused(nodes, e, ToSet(all), v, all[|all| - 1])) <==>
            forall s :: Persistable(nodes, e, ToSet(all), s) && all[|all| - 1] in s ==> !(s !! ToSet(victims))
  {
    ChoiceRefusedIffImpossible(nodes, e, ToSet(all), ToSet(victims), all[|all| - 1]);
    assert forall v :: v in victims <==> v in ToSet(victims);
  }

  /** Tries one choice of victims at a frontier. */
  method Try(tables: CausalityTables, all: seq<Call>, victims: seq<Call>, id: nat) returns (st: Option<CrashState>)
    requires tables.Valid() && Forward(tables.edges) && TimeOrdered(all) && ToSet(all) <= tables.nodes
    requires MayBeVictims(all, victims)
    ensures st.None? <==> exists v :: v in victims && Refused(tables.nodes, tables.edges, ToSet(all), v, all[|all| - 1])
    ensures st.Some? ==> st.value.id == id && Thinned(tables.nodes, tables.edges, all, victims, st.value)
  {
    var dependent := DependentCalls(tables, all, victims);
    st := None;
    if dependent.Some? {
      SelectOrdered(all, c => c !in dependent.value);
      st := Some(CrashState(id, Select(all, c => c !in dependent.value),
                            Some(Reorder(dependent.value, all[|all| - 1], "FS")), victims));
    }
  }

  /** All that goes with the victims; None when one of them is refused. */
  method DependentCalls(tables: CausalityTables, all: seq<Call>, victims: seq<Call>) returns (r: Option<seq<Call>>)
    requires tables.Valid() && Forward(tables.edges) && TimeOrdered(all) && ToSet(all) <= tables.nodes
    requires MayBeVictims(all, victims)
    ensures r.None? <==> exists v :: v in victims && Refused(tables.nodes, tables.edges, ToSet(all), v, all[|all| - 1])
    ensures r.Some? ==>
              forall c :: c in r.value <==> c in Dropped(tables.nodes, tables.edges, ToSet(all), ToSet(victims))
  {
    ghost var nodes, e, front := tables.nodes, tables.edges, ToSet(all);
    var pivot := all[|all| - 1];
    var dependent: seq<Call> := [];
    var append := true;
    for k := 0 to |victims|
      invariant append <==> forall v :: v in victims[..k] ==> !Refused(nodes, e, front, v, pivot)
      invariant append ==> forall c :: c in dependent <==> c in Dropped(nodes, e, front, ToSet(victims[..k]))
    {
      var victim := victims[k];
      NextVictim(nodes, e, front, pivot, victims, k);
      var dependencies := TryVictim(tables, all, victim);
      if dependencies.Some? {
        dependent := dependent + dependencies.value;
        DroppedMore(nodes, e, front, ToSet(victims[..k]), victim);
      } else {
        append := false;
      }
    }
    assert victims[..|victims|] == victims;
    r := if append then Some(dependent) else None;
  }

  lemma NextVictim(nodes: set<Call>, e: Edges<Call>, front: set<Call>, pivot: Call, victims: seq<Call>, k: nat)
    requires k < |victims|
    ensures (forall v :: v in victims[..k + 1] ==> !Refused(nodes, e, front, v, pivot)) <==>
            && (forall v :: v in victims[..k] ==> !Refused(nodes, e, front, v, pivot))
            && !Refused(nodes, e, front, victims[k], pivot)
    ensures ToSet(victims[..k + 1]) == ToSet(victims[..k]) + {victims[k]}
  {
    assert victims[..k + 1] == victims[..k] + [victims[k]];
  }

  lemma BetweenCalls(nodes: set<Call>, e: Edges<Call>, all: seq<Call>, victim: Call)
    requires Forward(e) && TimeOrdered(all) && victim in all && victim != all[|all| - 1]
    ensures var i := IndexOf(all, victim) + 1;
            && i < |all|
            && (forall c :: c in all[i..][..|all| - 1 - i] ==> c in all && c != all[|all| - 1])
            && (forall c :: c in all && c != all[|all| - 1] && PersistsBefore(nodes, e, victim, c)
                  ==> c in all[i..][..|all| - 1 - i])
  {
    var i := IndexOf(all, victim) + 1;
    var between := all[i..][..|all| - 1 - i];
    assert forall k :: 0 <= k < |between| ==> between[k] == all[i + k];
    forall c | c in all && c != all[|all| - 1] && PersistsBefore(nodes, e, victim, c) ensures c in between {
      PersistsIsHappens(nodes, e, victim, c);
      ForwardReach(e, victim, c);
      LaterInList(all, i - 1, c);
    }
  }

  lemma LaterInList(s: seq<Call>, i: nat, c: Call)
    requires TimeOrdered(s) && i < |s| && c in s && s[i].timestamp < c.timestamp && c != s[|s| - 1]
    ensures c in s[i + 1..][..|s| - 2 - i]
  {
    var j :| 0 <= j < |s| && s[j] == c;
    assert j > i && s[i + 1..][..|s| - 2 - i][j - i - 1] == c;
  }

  /** Scanning only the calls between victim and pivot misses nothing. */
  lemma LaterCalls(nodes: set<Call>, e: Edges<Call>, all: seq<Call>, victim: Call, later: seq<Call>)
    requires Forward(e) && TimeOrdered(all) && victim in all && victim != all[|all| - 1]
    requires later == all[IndexOf(all, victim) + 1..]
    ensures later != [] && later[|later| - 1] == all[|all| - 1]
    ensures Refused(nodes, e, ToSet(all), victim, all[|all| - 1]) <==>
            PersistsBefore(nodes, e, victim, all[|all| - 1]) ||
            exists c :: c in later[..|later| - 1] && PersistsBefore(nodes, e, victim, c)
                        && PersistsBefore(nodes, e, c, all[|all| - 1])
    ensures !PersistsBefore(nodes, e, victim, all[|all| - 1]) ==>
              forall c :: c in Dropped(nodes, e, ToSet(all), {victim}) <==>
                          c == victim || (c in later[..|later| - 1] && PersistsBefore(nodes, e, victim, c))
  {
    var pivot := all[|all| - 1];
    BetweenCalls(nodes, e, all, victim);
    assert !PersistsBefore(nodes, e, pivot, pivot) by {
      if PersistsBefore(nodes, e, pivot, pivot) {
        PersistsIsHappens(nodes, e, pivot, pivot);
        ForwardReach(e, pivot, pivot);
      }
    }
  }

  /** A list of states of one frontier, starting with its base state. */
  ghost predicate StatesOf(nodes: set<Call>, e: Edges<Call>, all: seq<Call>, first: nat, states: seq<CrashState>) {
    && |states| > 0 && states[0] == CrashState(first, all, None, [])
    && (forall i :: 0 <= i < |states| ==> states[i].id == first + i)
    && forall st :: st in states ==> Explained(nodes, e, all, st)
  }

  method Attempt(tables: CausalityTables, all: seq<Call>, victims: seq<Call>, first: nat, states: seq<CrashState>)
    returns (states': seq<CrashState>)
    requires tables.Valid() && Forward(tables.edges) && TimeOrdered(all) && ToSet(all) <= tables.nodes
    requires MayBeVictims(all, victims)
    requires StatesOf(tables.nodes, tables.edges, all, first, states)
    ensures StatesOf(tables.nodes, tables.edges, all, first, states')
    ensures Covered(tables.nodes, tables.edges, all, victims, states')
    ensures states <= states'
  {
    var st := Try(tables, all, victims, first + |states|);
    states' := if st.Some? then states + [st.value] else states;
    Extends(tables.nodes, tables.edges, all, states, states', victims, st);
  }

  /** All states of one frontier: the base state, then one for every possible choice of one or two victims. */
  method AtFrontier(tables: CausalityTables, all: seq<Call>, first: nat) returns (states: seq<CrashState>)
    requires tables.Valid() && Forward(tables.edges) && TimeOrdered(all) && ToSet(all) <= tables.nodes
    ensures StatesOf(tables.nodes, tables.edges, all, first, states)
    ensures forall victims :: Covered(tables.nodes, tables.edges, all, victims, states)
  {
    states := [CrashState(first, all, None, [])];
    if all == [] { return; }
    var notSync := (c: Call) => !c.op.Fsync?;
    var cands := Select(all[..|all| - 1], notSync);
    SelectOrdered(all[..|all| - 1], notSync);
    assert forall c :: c in cands ==> c in all && c != all[|all| - 1];
    var singles, pairs := Singles(cands), Pairs(cands);
    ChoicesAreVictims(all, cands);
    states := TryAll(tables, all, singles, first, states);
    ghost var before := states;
    states := TryAll(tables, all, pairs, first, states);
    CoveredMore(tables.nodes, tables.edges, all, ToSet(singles), before, states);
    EveryChoiceTried(tables.nodes, tables.edges, all, cands, states);
  }

  lemma ChoicesAreVictims(all: seq<Call>, cands: seq<Call>)
    requires all != [] && TimeOrdered(cands)
    requires forall c :: c in cands ==> c in all && c != all[|all| - 1] && !c.op.Fsync?
    ensures forall vs :: vs in Singles(cands) || vs in Pairs(cands) ==> MayBeVictims(all, vs)
  {
    forall vs | vs in Singles(cands) || vs in Pairs(cands) ensures MayBeVictims(all, vs) {
      PairsMembers(cands, vs);
      assert forall k :: 0 <= k < |cands| ==> cands[k] in cands;
    }
  }

  lemma EveryChoiceTried(nodes: set<Call>, e: Edges<Call>, all: seq<Call>, cands: seq<Call>, states: seq<CrashState>)
    requires all != [] && TimeOrdered(all) && TimeOrdered(cands)
    requires forall c :: c in cands <==> c in all[..|all| - 1] && !c.op.Fsync?
    requires AllCovered(nodes, e, all, ToSet(Singles(cands)), states)
    requires AllCovered(nodes, e, all, ToSet(Pairs(cands)), states)
    ensures forall victims :: Covered(nodes, e, all, victims, states)
  {
    forall victims | MayBeVictims(all, victims) ensures Covered(nodes, e, all, victims, states) {
      VictimsAreListed(all, cands, victims);
      PairsMembers(cands, victims);
      assert victims in ToSet(Singles(cands)) || victims in ToSet(Pairs(cands));
    }
  }

  ghost predicate AllCovered(nodes: set<Call>, e: Edges<Call>, all: seq<Call>, choices: set<seq<Call>>,
                             states: seq<CrashState>) {
    forall vs :: vs in choices ==> Covered(nodes, e, all, vs, states)
  }

  lemma CoveredMore(nodes: set<Call>, e: Edges<Call>, all: seq<Call>, choices: set<seq<Call>>,
                    before: seq<CrashState>, after: seq<CrashState>)
    requires before <= after && AllCovered(nodes, e, all, choices, before)
    ensures AllCovered(nodes, e, all, choices, after)
  {
    forall vs | vs in choices ensures Covered(nodes, e, all, vs, after) {
      assert Covered(nodes, e, all, vs, before);
      assert forall st :: st in before ==> st in after;
    }
  }

  method TryNext(tables: CausalityTables, all: seq<Call>, victims: seq<Call>, first: nat, states: seq<CrashState>,
                 ghost tried: set<seq<Call>>)
    returns (states': seq<CrashState>)
    requires tables.Valid() && Forward(tables.edges) && TimeOrdered(all) && ToSet(all) <= tables.nodes
    requires MayBeVictims(all, victims)
    requires StatesOf(tables.nodes, tables.edges, all, first, states)
    requires AllCovered(tables.nodes, tables.edges, all, tried, states)
    ensures StatesOf(tables.nodes, tables.edges, all, first, states') && states <= states'
    ensures AllCovered(tables.nodes, tables.edges, all, tried + {victims}, states')
  {
    states' := Attempt(tables, all, victims, first, states);
    CoveredMore(tables.nodes, tables.edges, all, tried, states, states');
  }

  lemma FromHere<T>(s: seq<T>, i: nat)
    requires i < |s|
    ensures ToSet(s[i..]) == ToSet(s[i + 1..]) + {s[i]}
  {
    assert s[i..] == [s[i]] + s[i + 1..];
  }

  /** Tries a list of choices one after the other. */
  method TryAll(tables: CausalityTables, all: seq<Call>, choices: seq<seq<Call>>, first: nat, states: seq<CrashState>)
    returns (states': seq<CrashState>)
    requires tables.Valid() && Forward(tables.edges) && TimeOrdered(all) && ToSet(all) <= tables.nodes
    requires forall vs :: vs in choices ==> MayBeVictims(all, vs)
    requires StatesOf(tables.nodes, tables.edges, all, first, states)
    ensures StatesOf(tables.nodes, tables.edges, all, first, states') && states <= states'
    ensures AllCovered(tables.nodes, tables.edges, all, ToSet(choices), states')
  {
    states' := states;
    for i := |choices| downto 0
      invariant StatesOf(tables.nodes, tables.edges, all, first, states') && states <= states'
      invariant AllCovered(tables.nodes, tables.edges, all, ToSet(choices[i..]), states')
    {
      FromHere(choices, i);
      states' := TryNext(tables, all, choices[i], first, states', ToSet(choices[i + 1..]));
    }
    assert choices[0..] == choices;
  }

  /** itertools.combinations of size one, and of size two. */
  function Singles(cands: seq<Call>): (r: seq<seq<Call>>)
    ensures forall vs :: vs in r <==> exists k :: 0 <= k < |cands| && vs == [cands[k]]
  {
    var r := seq(|cands|, i requires 0 <= i < |cands| => [cands[i]]);
    assert forall k :: 0 <= k < |cands| ==> r[k] == [cands[k]];
    r
  }

  function PairsWith(c: Call, rest: seq<Call>): (r: seq<seq<Call>>)
    ensures forall vs :: vs in r <==> exists k :: 0 <= k < |rest| && vs == [c, rest[k]]
  {
    var r := seq(|rest|, i requires 0 <= i < |rest| => [c, rest[i]]);
    assert forall k :: 0 <= k < |rest| ==> r[k] == [c, rest[k]];
    r
  }

  function Pairs(cands: seq<Call>): seq<seq<Call>> {
    if cands == [] then [] else PairsWith(cands[0], cands[1..]) + Pairs(cands[1..])
  }

  lemma {:induction false} PairsMembers(cands: seq<Call>, vs: seq<Call>)
    ensures vs in Pairs(cands) <==> exists k, l :: 0 <= k < l < |cands| && vs == [cands[k], cands[l]]
  {
    if cands != [] {
      var rest := cands[1..];
      PairsMembers(rest, vs);
      if k, l :| 0 <= k < l < |rest| && vs == [rest[k], rest[l]] {
        assert vs == [cands[k + 1], cands[l + 1]];
      }
      if k, l :| 0 <= k < l < |cands| && vs == [cands[k], cands[l]] {
        if k == 0 { assert vs == [cands[0], rest[l - 1]]; } else { assert vs == [rest[k - 1], rest[l - 1]]; }
      }
      if k :| 0 <= k < |rest| && vs == [cands[0], rest[k]] { assert vs == [cands[0], cands[k + 1]]; }
    }
  }

  lemma Extends(nodes: set<Call>, e: Edges<Call>, all: seq<Call>, before: seq<CrashState>, after: seq<CrashState>,
                victims: seq<Call>, st: Option<CrashState>)
    requires after == if st.Some? then before + [st.value] else before
    requires st.None? ==>
               && MayBeVictims(all, victims)
               && exists v :: v in victims && Refused(nodes, e, ToSet(all), v, all[|all| - 1])
    requires st.Some? ==> Thinned(nodes, e, all, victims, st.value)
    ensures Covered(nodes, e, all, victims, after)
    ensures forall vs :: Covered(nodes, e, all, vs, before) ==> Covered(nodes, e, all, vs, after)
    ensures forall s :: s in before ==> s in after
    ensures forall s :: s in after ==> s in before || Thinned(nodes, e, all, s.victims, s)
  {
    if st.Some? { assert st.value in after; }
  }

  lemma VictimsAreListed(all: seq<Call>, cands: seq<Call>, victims: seq<Call>)
    requires all != [] && TimeOrdered(all) && TimeOrdered(cands)
    requires forall c :: c in cands <==> c in all[..|all| - 1] && !c.op.Fsync?
    requires MayBeVictims(all, victims)
    ensures (exists k :: 0 <= k < |cands| && victims == [cands[k]]) ||
            (exists k, l :: 0 <= k < l < |cands| && victims == [cands[k], cands[l]])
  {
    forall v | v in victims ensures v in cands {
      var j :| 0 <= j < |all| && all[j] == v;
      assert all[..|all| - 1][j] == v;
    }
    assert victims[0] in victims;
    var k :| 0 <= k < |cands| && cands[k] == victims[0];
    if |victims| == 2 {
      assert victims[1] in victims;
      var l :| 0 <= l < |cands| && cands[l] == victims[1];
      assert k < l && victims == [cands[k], cands[l]];
    } else {
      assert victims == [cands[k]];
    }
  }

  /** The calls of a frontier in time order. */
  ghost predicate Lists(nodes: set<Call>, f: Frontier, all: seq<Call>) {
    TimeOrdered(all) && ToSet(all) == Cut(nodes, f)
  }

  /** The states hold the base state of the frontier and a thinned state for every admissible choice of victims. */
  ghost predicate FrontierDone(nodes: set<Call>, e: Edges<Call>, f: Frontier, states: seq<CrashState>) {
    exists all :: Lists(nodes, f, all) && BaseIn(all, states)
                  && forall victims :: Covered(nodes, e, all, victims, states)
  }

  ghost predicate BaseIn(all: seq<Call>, states: seq<CrashState>) {
    exists st :: st in states && st.reorder.None? && st.syscalls == all
  }

  /** Every state comes from some frontier. */
  ghost predicate FromFrontier(nodes: set<Call>, e: Edges<Call>, st: CrashState) {
    exists f, all :: Within(nodes, e) && Consistent(nodes, e, f) && Lists(nodes, f, all) && Explained(nodes, e, all, st)
  }

  /** What the states of a frontier are, said of the calls at or before it. */
  lemma StateSays(nodes: set<Call>, e: Edges<Call>, st: CrashState) returns (f: Frontier, all: seq<Call>)
    requires FromFrontier(nodes, e, st)
    ensures forall i, j :: 0 <= i < j < |all| ==> all[i].timestamp < all[j].timestamp
    ensures forall c :: c in all <==>
              c in nodes && c.service in f && f[c.service].Some? && c.timestamp <= f[c.service].value.timestamp
    ensures forall i, j :: 0 <= i < j < |st.syscalls| ==> st.syscalls[i].timestamp < st.syscalls[j].timestamp
    ensures st.reorder.None? ==> st.syscalls == all
    ensures st.reorder.Some? ==>
              && 1 <= |st.victims| <= 2 && all != []
              && st.reorder.value.pivot == all[|all| - 1] && st.reorder.value.layer == "FS"
              && (forall c :: c in st.reorder.value.dropped <==> c in all && c !in st.syscalls)
              && (forall v :: v in st.victims ==> v in all && v != all[|all| - 1] && !v.op.Fsync?)
              && (forall v, c :: v in st.victims && c in all && PersistsBefore(nodes, e, v, c) ==>
                    c != all[|all| - 1] && !PersistsBefore(nodes, e, c, all[|all| - 1]))
              && forall c :: c in st.syscalls <==>
                   c in all && c !in st.victims && forall v :: v in st.victims ==> !PersistsBefore(nodes, e, v, c)
  {
    f, all :| Within(nodes, e) && Consistent(nodes, e, f) && Lists(nodes, f, all) && Explained(nodes, e, all, st);
    assert forall c :: c in all <==> c in ToSet(all);
    assert forall c :: c in st.syscalls <==> c in ToSet(st.syscalls);
  }

  /** The calls at or before a frontier, in time order. */
  lemma AllListed(nodes: set<Call>, f: Frontier, all: seq<Call>, listed: seq<Call>)
    requires forall i, j :: 0 <= i < j < |all| ==> all[i].timestamp < all[j].timestamp
    requires forall c :: c in all <==>
               c in nodes && c.service in f && f[c.service].Some? && c.timestamp <= f[c.service].value.timestamp
    requires Lists(nodes, f, listed)
    ensures listed == all
  {
    assert forall c :: c in Cut(nodes, f) <==> c in ToSet(all);
    OrderedUnique(listed, all);
  }

  /** At every frontier the base state is made. */
  lemma BaseMade(nodes: set<Call>, e: Edges<Call>, f: Frontier, states: seq<CrashState>, all: seq<Call>)
    requires Within(nodes, e) && FrontierDone(nodes, e, f, states)
    requires forall i, j :: 0 <= i < j < |all| ==> all[i].timestamp < all[j].timestamp
    requires forall c :: c in all <==>
               c in nodes && c.service in f && f[c.service].Some? && c.timestamp <= f[c.service].value.timestamp
    ensures exists st :: st in states && st.reorder.None? && st.syscalls == all
  {
    var listed :| Lists(nodes, f, listed) && BaseIn(listed, states)
                  && forall victims :: Covered(nodes, e, listed, victims, states);
    AllListed(nodes, f, all, listed);
  }

  /** For each call before the last one that is no sync, and for each two of them, the state without them and
      without all that persists only after them is made, if the last call need not persist after them, directly
      or through one other call. */
  lemma StateMade(nodes: set<Call>, e: Edges<Call>, f: Frontier, states: seq<CrashState>, all: seq<Call>, v: Call,
                  w: Call)
    returns (st: CrashState)
    requires Within(nodes, e) && FrontierDone(nodes, e, f, states)
    requires forall i, j :: 0 <= i < j < |all| ==> all[i].timestamp < all[j].timestamp
    requires forall c :: c in all <==>
               c in nodes && c.service in f && f[c.service].Some? && c.timestamp <= f[c.service].value.timestamp
    requires v in all && w in all && v.timestamp <= w.timestamp < all[|all| - 1].timestamp
    requires !v.op.Fsync? && !w.op.Fsync?
    requires forall c :: c in all && (PersistsBefore(nodes, e, v, c) || PersistsBefore(nodes, e, w, c)) ==>
               c != all[|all| - 1] && !PersistsBefore(nodes, e, c, all[|all| - 1])
    ensures st in states
    ensures forall c :: c in st.syscalls <==>
              c in all && c != v && c != w && !PersistsBefore(nodes, e, v, c) && !PersistsBefore(nodes, e, w, c)
  {
    var listed :| Lists(nodes, f, listed) && BaseIn(listed, states)
                  && forall victims :: Covered(nodes, e, listed, victims, states);
    AllListed(nodes, f, all, listed);
    st := ChoiceMade(nodes, e, all, states, v, w);
  }

  lemma ChoiceMade(nodes: set<Call>, e: Edges<Call>, all: seq<Call>, states: seq<CrashState>, v: Call, w: Call)
    returns (st: CrashState)
    requires TimeOrdered(all) && forall victims :: Covered(nodes, e, all, victims, states)
    requires v in all && w in all && v.timestamp <= w.timestamp < all[|all| - 1].timestamp
    requires !v.op.Fsync? && !w.op.Fsync?
    requires forall c :: c in all && (PersistsBefore(nodes, e, v, c) || PersistsBefore(nodes, e, w, c)) ==>
               c != all[|all| - 1] && !PersistsBefore(nodes, e, c, all[|all| - 1])
    ensures st in states
    ensures forall c :: c in st.syscalls <==>
              c in all && c != v && c != w && !PersistsBefore(nodes, e, v, c) && !PersistsBefore(nodes, e, w, c)
  {
    var i :| 0 <= i < |all| && all[i] == v;
    var j :| 0 <= j < |all| && all[j] == w;
    var victims := if v == w then [v] else [v, w];
    assert v.timestamp < w.timestamp || v == w;
    assert forall x :: x in victims <==> x == v || x == w;
    var pivot := all[|all| - 1];
    forall x | x in victims ensures !Refused(nodes, e, ToSet(all), x, pivot) {
      assert pivot in all;
    }
    assert Covered(nodes, e, all, victims, states);
    st :| st in states && Thinned(nodes, e, all, victims, st);
    assert forall c :: c in st.syscalls <==> c in ToSet(st.syscalls);
    assert forall c :: c in all <==> c in ToSet(all);
    assert forall x :: x in ToSet(victims) <==> x == v || x == w;
  }

  lemma DoneMore(nodes: set<Call>, e: Edges<Call>, f: Frontier, before: seq<CrashState>, more: seq<CrashState>)
    requires FrontierDone(nodes, e, f, before)
    ensures FrontierDone(nodes, e, f, before + more)
  {
    var all :| Lists(nodes, f, all) && BaseIn(all, before) && forall victims :: Covered(nodes, e, all, victims, before);
    forall victims ensures Covered(nodes, e, all, victims, before + more) {
      assert Covered(nodes, e, all, victims, before);
    }
  }

  lemma DoneNow(nodes: set<Call>, e: Edges<Call>, f: Frontier, all: seq<Call>, before: seq<CrashState>,
                more: seq<CrashState>)
    requires Lists(nodes, f, all) && BaseIn(all, more) && forall victims :: Covered(nodes, e, all, victims, more)
    ensures FrontierDone(nodes, e, f, before + more)
  {
    forall victims ensures Covered(nodes, e, all, victims, before + more) {
      assert Covered(nodes, e, all, victims, more);
    }
  }

  method CallsOf(order: seq<Call>, frontier: Frontier) returns (all: seq<Call>)
    requires NoDup(order) && DistinctTimes(ToSet(order))
    ensures Lists(ToSet(order), frontier, all)
  {
    var persisted := (c: Call) => c.service in frontier && frontier[c.service].Some?
                                  && c.timestamp <= frontier[c.service].value.timestamp;
    var chosen := Select(order, persisted);
    SelectNoDup(order, persisted);
    assert forall c :: c in chosen <==> c in Cut(ToSet(order), frontier);
    SortDistinct(chosen);
    all := SortByTime(chosen);
  }

  ghost predicate Progress(nodes: set<Call>, e: Edges<Call>, frontiers: seq<Frontier>, i: nat, states: seq<CrashState>)
    requires i <= |frontiers|
  {
    && Numbered(states)
    && (forall st :: st in states ==> FromFrontier(nodes, e, st))
    && forall k :: 0 <= k < i ==> FrontierDone(nodes, e, frontiers[k], states)
  }

  lemma ProgressStep(nodes: set<Call>, e: Edges<Call>, frontiers: seq<Frontier>, i: nat, states: seq<CrashState>,
                     all: seq<Call>, more: seq<CrashState>)
    requires i < |frontiers| && Progress(nodes, e, frontiers, i, states)
    requires Within(nodes, e) && Consistent(nodes, e, frontiers[i]) && Lists(nodes, frontiers[i], all)
    requires StatesOf(nodes, e, all, |states|, more)
    requires forall victims :: Covered(nodes, e, all, victims, more)
    ensures Progress(nodes, e, frontiers, i + 1, states + more)
  {
    forall k | 0 <= k < i ensures FrontierDone(nodes, e, frontiers[k], states + more) {
      DoneMore(nodes, e, frontiers[k], states, more);
    }
    assert more[0] in more && BaseIn(all, more);
    DoneNow(nodes, e, frontiers[i], all, states, more);
    forall st | st in more ensures FromFrontier(nodes, e, st) {
      assert Explained(nodes, e, all, st);
    }
  }

  /** The crash states of all frontiers. */
  method Crash(order: seq<Call>, edges: Edges<Call>) returns (states: seq<CrashState>)
    requires NoDup(order) && Traced(ToSet(order), edges)
    ensures Numbered(states)
    ensures forall st :: st in states ==> FromFrontier(ToSet(order), edges, st)
    ensures forall f :: Consistent(ToSet(order), edges, f) ==> FrontierDone(ToSet(order), edges, f, states)
  {
    var frontiers := Enumerate(order, edges);
    var tables := new CausalityTables(order, edges);
    forall f | f in frontiers ensures Consistent(ToSet(order), edges, f) {}
    states := AtFrontiers(tables, order, edges, frontiers);
    forall f | Consistent(ToSet(order), edges, f) ensures FrontierDone(ToSet(order), edges, f, states) {
      var k :| 0 <= k < |frontiers| && frontiers[k] == f;
    }
  }

  method AtFrontiers(tables: CausalityTables, order: seq<Call>, ghost edges: Edges<Call>, frontiers: seq<Frontier>)
    returns (states: seq<CrashState>)
    requires NoDup(order) && Traced(ToSet(order), edges)
    requires tables.Valid() && tables.nodes == ToSet(order) && tables.edges == edges
    requires forall f :: f in frontiers ==> Consistent(ToSet(order), edges, f)
    ensures Progress(ToSet(order), edges, frontiers, |frontiers|, states)
  {
    states := [];
    for i := 0 to |frontiers|
      invariant Progress(ToSet(order), edges, frontiers, i, states)
    {
      assert frontiers[i] in frontiers;
      var all := CallsOf(order, frontiers[i]);
      assert ToSet(all) <= ToSet(order);
      var more := AtFrontier(tables, all, |states|);
      ProgressStep(ToSet(order), edges, frontiers, i, states, all, more);
      states := states + more;
    }
  }
}
