/** Static pruning: which of the generated states are still represented when states that end in a sync, and
    duplicates, have been removed. */
module Pruning {
  import opened Sequences
  import opened Digraphs
  import opened Traces
  import opened ExecGraphs
  import opened Frontiers
  import opened Causality
  import opened CrashStates
  import opened Dedup
  import opened Replays

  // --------------------------------------------------------------- syncs leave disks alone

  /** The calls other than syncs. */
  function Writes(calls: seq<Call>): seq<Call> { Select(calls, (c: Call) => !c.op.Fsync?) }

  /** Performing either list leaves every disk the same. */
  ghost predicate SameEffect<D(!new)>(perform: (Call, D) -> D, a: seq<Call>, b: seq<Call>) {
    forall s, d :: Run(perform, a, s, d) == Run(perform, b, s, d)
  }

  lemma WritesStep(calls: seq<Call>, c: Call)
    ensures Writes(calls + [c]) == Writes(calls) + if c.op.Fsync? then [] else [c]
  {
    SelectConcat(calls, [c], (x: Call) => !x.op.Fsync?);
  }

  lemma {:induction false} RunOfWrites<D(!new)>(perform: (Call, D) -> D, calls: seq<Call>, server: string, disk: D)
    requires forall c: Call, d: D :: c.op.Fsync? ==> perform(c, d) == d
    ensures Run(perform, calls, server, disk) == Run(perform, Writes(calls), server, disk)
  {
    if calls != [] {
      var front, call := calls[..|calls| - 1], calls[|calls| - 1];
      RunOfWrites(perform, front, server, disk);
      RunOfOneMore(perform, calls, front, call, server, disk);
    }
  }

  lemma RunOfOneMore<D(!new)>(perform: (Call, D) -> D, calls: seq<Call>, front: seq<Call>, call: Call, server: string,
                              disk: D)
    requires calls == front + [call] && (call.op.Fsync? ==> forall d :: perform(call, d) == d)
    requires Run(perform, front, server, disk) == Run(perform, Writes(front), server, disk)
    ensures Run(perform, calls, server, disk) == Run(perform, Writes(calls), server, disk)
  {
    WritesStep(front, call);
    RunStep(perform, front, call, server, disk);
    if call.op.Fsync? {
      assert Writes(front) + [] == Writes(front);
    } else {
      RunStep(perform, Writes(front), call, server, disk);
    }
  }

  lemma RunStep<D>(perform: (Call, D) -> D, calls: seq<Call>, c: Call, server: string, disk: D)
    ensures Run(perform, [], server, disk) == disk
    ensures Run(perform, calls + [c], server, disk) ==
            var before := Run(perform, calls, server, disk); if c.service == server then perform(c, before) else before
  {
    assert (calls + [c])[..|calls|] == calls;
  }

  /** If syncs leave the disks alone, lists with the same other calls have the same effect. */
  lemma SameWrites<D(!new)>(perform: (Call, D) -> D, a: seq<Call>, b: seq<Call>)
    requires forall c: Call, d: D :: c.op.Fsync? ==> perform(c, d) == d
    requires Writes(a) == Writes(b)
    ensures SameEffect(perform, a, b)
  {
    forall s, d ensures Run(perform, a, s, d) == Run(perform, b, s, d) {
      RunOfWrites(perform, a, s, d);
      RunOfWrites(perform, b, s, d);
    }
  }

  function WithoutLastSyncs(calls: seq<Call>): seq<Call> {
    if calls != [] && calls[|calls| - 1].op.Fsync? then WithoutLastSyncs(calls[..|calls| - 1]) else calls
  }

  lemma {:induction false} LastSyncs(calls: seq<Call>)
    ensures var short := WithoutLastSyncs(calls);
            && short <= calls && Writes(short) == Writes(calls)
            && (forall i :: |short| <= i < |calls| ==> calls[i].op.Fsync?)
            && (short != [] ==> !short[|short| - 1].op.Fsync?)
  {
    if calls != [] && calls[|calls| - 1].op.Fsync? {
      var front := calls[..|calls| - 1];
      assert calls == front + [calls[|calls| - 1]];
      LastSyncs(front);
      WritesStep(front, calls[|calls| - 1]);
    }
  }

  /** The last call other than a sync, seen from the list of these calls. */
  lemma LastWrite(calls: seq<Call>)
    requires calls != [] && !calls[|calls| - 1].op.Fsync?
    ensures Writes(calls) != [] && Writes(calls)[|Writes(calls)| - 1] == calls[|calls| - 1]
  {
    assert calls == calls[..|calls| - 1] + [calls[|calls| - 1]];
    WritesStep(calls[..|calls| - 1], calls[|calls| - 1]);
  }

  // ------------------------------------------------------------ the states generated

  /** The calls left at a frontier by no victims, or by a choice of victims that is not refused. */
  ghost predicate Survivors(nodes: set<Call>, e: Edges<Call>, all: seq<Call>, victims: seq<Call>, calls: seq<Call>) {
    && TimeOrdered(all) && Closed(nodes, e, ToSet(all)) && TimeOrdered(calls)
    && ToSet(calls) == ToSet(all) - Dropped(nodes, e, ToSet(all), ToSet(victims))
    && (victims == [] || MayBeVictims(all, victims))
    && forall v :: v in victims ==> !Refused(nodes, e, ToSet(all), v, all[|all| - 1])
  }

  /** No victim is refused for the last surviving call that is not a sync. */
  ghost predicate Anchored(nodes: set<Call>, e: Edges<Call>, all: seq<Call>, victims: seq<Call>, calls: seq<Call>) {
    var short := WithoutLastSyncs(calls);
    short != [] ==> forall v :: v in victims ==> !Refused(nodes, e, ToSet(all), v, short[|short| - 1])
  }

  lemma NothingDropped(nodes: set<Call>, e: Edges<Call>, front: set<Call>)
    ensures Dropped(nodes, e, front, {}) == {}
  {}

  /** Every generated state holds the survivors of some choice. */
  lemma GeneratedSurvive(nodes: set<Call>, e: Edges<Call>, st: CrashState) returns (all: seq<Call>, victims: seq<Call>)
    requires Traced(nodes, e) && FromFrontier(nodes, e, st)
    ensures Survivors(nodes, e, all, victims, st.syscalls)
    ensures st.reorder.Some? && st.syscalls != all ==> victims == st.victims && st.reorder.value.pivot == all[|all| - 1]
  {
    var f;
    f, all :| Consistent(nodes, e, f) && Lists(nodes, f, all) && Explained(nodes, e, all, st);
    CutIsClosed(nodes, e, f);
    victims := if st.reorder.None? && st.syscalls == all then [] else st.victims;
    NothingDropped(nodes, e, ToSet(all));
  }

  /** What the calls of a state mean: its pivot is among them, and they could all have persisted exactly when nothing
      escapes; they are then all that could have without the victims. */
  lemma SurvivorsMean(nodes: set<Call>, e: Edges<Call>, all: seq<Call>, victims: seq<Call>, calls: seq<Call>)
    requires Survivors(nodes, e, all, victims, calls)
    ensures all != [] ==> calls != [] && calls[|calls| - 1] == all[|all| - 1]
    ensures Persistable(nodes, e, ToSet(all), ToSet(calls)) <==> NoEscape(nodes, e, ToSet(all), ToSet(victims))
    ensures Persistable(nodes, e, ToSet(all), ToSet(calls)) ==>
              forall s :: Persistable(nodes, e, ToSet(all), s) && s !! ToSet(victims) ==> s <= ToSet(calls)
  {
    if all != [] { PivotLast(nodes, e, all, victims, calls); }
    SurvivorsPersistable(nodes, e, ToSet(all), ToSet(victims));
  }

  /** The states of the frontier that cuts off a closed set. */
  lemma FrontierCovered(nodes: set<Call>, e: Edges<Call>, states: seq<CrashState>, all: seq<Call>)
    requires Traced(nodes, e) && TimeOrdered(all) && Closed(nodes, e, ToSet(all))
    requires forall f :: Consistent(nodes, e, f) ==> FrontierDone(nodes, e, f, states)
    ensures BaseIn(all, states) && forall victims :: Covered(nodes, e, all, victims, states)
  {
    var f := FrontierOf(nodes, ToSet(all));
    ClosedIsCut(nodes, e, ToSet(all));
    assert FrontierDone(nodes, e, f, states);
    var listed :| Lists(nodes, f, listed) && BaseIn(listed, states)
                  && forall victims :: Covered(nodes, e, listed, victims, states);
    OrderedUnique(listed, all);
  }

  /** The survivors of every choice are generated. */
  lemma SurvivorsGenerated(nodes: set<Call>, e: Edges<Call>, states: seq<CrashState>, all: seq<Call>,
                           victims: seq<Call>, calls: seq<Call>) returns (st: CrashState)
    requires Traced(nodes, e) && Survivors(nodes, e, all, victims, calls)
    requires forall f :: Consistent(nodes, e, f) ==> FrontierDone(nodes, e, f, states)
    ensures st in states && st.syscalls == calls
  {
    FrontierCovered(nodes, e, states, all);
    if victims == [] {
      st :| st in states && st.reorder.None? && st.syscalls == all;
      NothingDropped(nodes, e, ToSet(all));
    } else {
      assert Covered(nodes, e, all, victims, states);
      st :| st in states && Thinned(nodes, e, all, victims, st);
    }
    OrderedUnique(st.syscalls, calls);
  }

  // ------------------------------------------------------ cutting a frontier shorter

  lemma PrefixClosed(nodes: set<Call>, e: Edges<Call>, all: seq<Call>, prefix: seq<Call>)
    requires Forward(e) && TimeOrdered(all) && Closed(nodes, e, ToSet(all)) && prefix <= all
    ensures Closed(nodes, e, ToSet(prefix))
  {
    forall a, b | b in ToSet(prefix) && a in nodes && Reach(e, a, b) ensures a in ToSet(prefix) {
      var j :| 0 <= j < |prefix| && prefix[j] == b;
      assert all[j] == b && b in ToSet(all);
      ForwardReach(e, a, b);
      var i :| 0 <= i < |all| && all[i] == a;
      assert i < j && prefix[i] == a;
    }
    forall c | c in ToSet(prefix) ensures c in nodes {
      var j :| 0 <= j < |prefix| && prefix[j] == c;
      assert all[j] == c && c in ToSet(all);
    }
  }

  /** The victims before a call. */
  function Earlier(victims: seq<Call>, u: Call): (r: seq<Call>)
    ensures forall v :: v in r <==> v in victims && v.timestamp < u.timestamp
    ensures |r| <= |victims|
  {
    if victims == [] then []
    else (if victims[0].timestamp < u.timestamp then [victims[0]] else []) + Earlier(victims[1..], u)
  }

  lemma EarlierOrdered(all: seq<Call>, victims: seq<Call>, front: seq<Call>, u: Call)
    requires MayBeVictims(all, victims) && front != [] && front[|front| - 1] == u
    requires forall c :: c in all && c.timestamp < u.timestamp ==> c in front
    ensures Earlier(victims, u) == [] || MayBeVictims(front, Earlier(victims, u))
  {
    if |victims| == 1 {
      assert victims == [victims[0]] && victims[1..] == [];
    } else {
      assert victims[1..][1..] == [];
    }
  }

  /** The calls of a frontier up to one of them. */
  lemma UpTo(all: seq<Call>, u: Call) returns (front: seq<Call>)
    requires TimeOrdered(all) && u in all
    ensures front <= all && front != [] && front[|front| - 1] == u && TimeOrdered(front)
    ensures forall c :: c in front <==> c in all && c.timestamp <= u.timestamp
  {
    var i :| 0 <= i < |all| && all[i] == u;
    front := all[..i + 1];
    forall c ensures c in front <==> c in all && c.timestamp <= u.timestamp {
      if c in all {
        var j :| 0 <= j < |all| && all[j] == c;
        assert j <= i ==> front[j] == c;
      }
    }
  }

  lemma SameTime(all: seq<Call>, a: Call, b: Call)
    requires TimeOrdered(all) && a in all && b in all && a.timestamp == b.timestamp
    ensures a == b
  {
    var i :| 0 <= i < |all| && all[i] == a;
    var j :| 0 <= j < |all| && all[j] == b;
    assert !(i < j) && !(j < i);
  }

  /** Up to a surviving call, what survives of the shorter frontier is what survives of the longer one. */
  lemma DroppedUpTo(nodes: set<Call>, e: Edges<Call>, all: seq<Call>, front: seq<Call>, victims: seq<Call>, u: Call)
    requires Forward(e) && TimeOrdered(all) && u in all && u !in victims
    requires forall c :: c in front <==> c in all && c.timestamp <= u.timestamp
    ensures forall c :: c in front ==>
              (c in Dropped(nodes, e, ToSet(front), ToSet(Earlier(victims, u))) <==>
               c in Dropped(nodes, e, ToSet(all), ToSet(victims)))
  {
    forall c, v | c in front && v in victims && PersistsBefore(nodes, e, v, c) ensures v in Earlier(victims, u) {
      PersistsIsHappens(nodes, e, v, c);
      ForwardReach(e, v, c);
    }
    forall c | c in front && c in victims ensures c in Earlier(victims, u) {
      if c.timestamp == u.timestamp { SameTime(all, c, u); }
    }
  }

  /** Up to that call, a victim is refused in the shorter frontier exactly when it is in the longer one. */
  lemma RefusedUpTo(nodes: set<Call>, e: Edges<Call>, all: seq<Call>, front: seq<Call>, v: Call, u: Call)
    requires Forward(e)
    requires forall c :: c in front <==> c in all && c.timestamp <= u.timestamp
    ensures Refused(nodes, e, ToSet(front), v, u) <==> Refused(nodes, e, ToSet(all), v, u)
  {
    forall c | c in all && PersistsBefore(nodes, e, c, u) ensures c in front {
      PersistsIsHappens(nodes, e, c, u);
      ForwardReach(e, c, u);
    }
  }

  /** The first part of a time-ordered list. */
  lemma PrefixIs(calls: seq<Call>, short: seq<Call>)
    requires TimeOrdered(calls) && short <= calls && short != []
    ensures TimeOrdered(short)
    ensures forall c :: c in short <==> c in calls && c.timestamp <= short[|short| - 1].timestamp
  {
    forall i | 0 <= i < |short| ensures short[i] == calls[i] {}
    forall c | c in calls && c.timestamp <= short[|short| - 1].timestamp ensures c in short {
      var j :| 0 <= j < |calls| && calls[j] == c;
      assert j < |short| && short[j] == c;
    }
  }

  /** Without the last syncs, what survives an anchored choice survives a choice at a shorter frontier. */
  lemma ShorterChoice(nodes: set<Call>, e: Edges<Call>, all: seq<Call>, victims: seq<Call>, calls: seq<Call>)
    returns (front: seq<Call>, fewer: seq<Call>)
    requires Traced(nodes, e) && Survivors(nodes, e, all, victims, calls) && Anchored(nodes, e, all, victims, calls)
    ensures Survivors(nodes, e, front, fewer, WithoutLastSyncs(calls))
  {
    var short := WithoutLastSyncs(calls);
    LastSyncs(calls);
    if short == [] {
      front, fewer := [], [];
      NothingDropped(nodes, e, ToSet(front));
    } else {
      var u := short[|short| - 1];
      assert u in calls && u in ToSet(calls) && u in all;
      front := UpTo(all, u);
      fewer := Earlier(victims, u);
      ChoiceUpTo(nodes, e, all, victims, front, u);
      PrefixIs(calls, short);
      LeftUpTo(nodes, e, all, victims, calls, short, front, u);
    }
  }

  /** The victims before a call are a choice at the frontier that ends with it. */
  lemma ChoiceUpTo(nodes: set<Call>, e: Edges<Call>, all: seq<Call>, victims: seq<Call>, front: seq<Call>, u: Call)
    requires Forward(e) && TimeOrdered(all) && Closed(nodes, e, ToSet(all))
    requires front <= all && front != [] && front[|front| - 1] == u
    requires forall c :: c in front <==> c in all && c.timestamp <= u.timestamp
    requires victims == [] || MayBeVictims(all, victims)
    requires forall v :: v in victims ==> !Refused(nodes, e, ToSet(all), v, u)
    ensures Closed(nodes, e, ToSet(front))
    ensures Earlier(victims, u) == [] || MayBeVictims(front, Earlier(victims, u))
    ensures forall v :: v in Earlier(victims, u) ==> !Refused(nodes, e, ToSet(front), v, u)
  {
    PrefixClosed(nodes, e, all, front);
    if victims != [] { EarlierOrdered(all, victims, front, u); }
    forall v | v in Earlier(victims, u) ensures !Refused(nodes, e, ToSet(front), v, u) {
      RefusedUpTo(nodes, e, all, front, v, u);
    }
  }

  lemma LeftUpTo(nodes: set<Call>, e: Edges<Call>, all: seq<Call>, victims: seq<Call>, calls: seq<Call>,
                 short: seq<Call>, front: seq<Call>, u: Call)
    requires Forward(e) && TimeOrdered(all) && u in calls
    requires ToSet(calls) == ToSet(all) - Dropped(nodes, e, ToSet(all), ToSet(victims))
    requires forall c :: c in short <==> c in calls && c.timestamp <= u.timestamp
    requires forall c :: c in front <==> c in all && c.timestamp <= u.timestamp
    ensures ToSet(short) == ToSet(front) - Dropped(nodes, e, ToSet(front), ToSet(Earlier(victims, u)))
  {
    assert u in ToSet(calls);
    DroppedUpTo(nodes, e, all, front, victims, u);
    assert forall c :: c in calls <==> c in ToSet(calls);
  }

  // ----------------------------------------------------------------- what cannot be kept

  /** The pivot survives, as the last call. */
  lemma PivotLast(nodes: set<Call>, e: Edges<Call>, all: seq<Call>, victims: seq<Call>, calls: seq<Call>)
    requires Survivors(nodes, e, all, victims, calls) && all != []
    ensures calls != [] && calls[|calls| - 1] == all[|all| - 1]
  {
    var pivot := all[|all| - 1];
    assert pivot in ToSet(all) && pivot !in Dropped(nodes, e, ToSet(all), ToSet(victims));
    assert pivot in ToSet(calls);
    var i :| 0 <= i < |calls| && calls[i] == pivot;
    var last := calls[|calls| - 1];
    assert last in ToSet(calls) && last in all;
    var j :| 0 <= j < |all| && all[j] == last;
    assert j <= |all| - 1 && i <= |calls| - 1;
  }

  /** Two persisting steps before its pivot, a choice that is not refused drops nothing. */
  lemma StaysBeforePivot(nodes: set<Call>, e: Edges<Call>, all: seq<Call>, victims: seq<Call>, calls: seq<Call>,
                         v: Call, c: Call)
    requires Traced(nodes, e) && Survivors(nodes, e, all, victims, calls) && all != []
    requires v in nodes && c in nodes
    ensures PersistsBefore(nodes, e, v, c) && PersistsBefore(nodes, e, c, all[|all| - 1]) ==> v in ToSet(calls)
  {
    var u, front := all[|all| - 1], ToSet(all);
    if PersistsBefore(nodes, e, v, c) && PersistsBefore(nodes, e, c, u) {
      PersistsIsHappens(nodes, e, c, u);
      assert u in front && c in front;
      PersistsIsHappens(nodes, e, v, c);
      assert v in front && TwoSteps(nodes, e, front, v, u);
      forall w | w in victims ensures !PersistsBefore(nodes, e, w, v) {
        if PersistsBefore(nodes, e, w, v) { ThreeStepsCollapse(nodes, e, front, w, v, c, u); }
      }
    }
  }

  /** Where a victim is refused for the last surviving write, no state that ends in a write has the same writes. */
  lemma NotKept(nodes: set<Call>, e: Edges<Call>, all: seq<Call>, victims: seq<Call>, calls: seq<Call>,
                all': seq<Call>, victims': seq<Call>, calls': seq<Call>)
    requires Traced(nodes, e) && Survivors(nodes, e, all, victims, calls)
    requires Survivors(nodes, e, all', victims', calls') && (calls' == [] || !calls'[|calls'| - 1].op.Fsync?)
    requires Writes(calls') == Writes(calls)
    ensures Anchored(nodes, e, all, victims, calls)
  {
    var short := WithoutLastSyncs(calls);
    LastSyncs(calls);
    if short != [] {
      var u := short[|short| - 1];
      LastWrite(short);
      assert calls' != [];
      LastWrite(calls');
      assert calls'[0] in ToSet(calls') && all' != [];
      PivotLast(nodes, e, all', victims', calls');
      assert u == all'[|all'| - 1] && u in calls && u in ToSet(calls);
      forall v | v in victims ensures !Refused(nodes, e, ToSet(all), v, u) {
        NotRefused(nodes, e, all, victims, calls, all', victims', calls', v);
      }
    }
  }

  /** A victim of the one choice is not refused for the pivot of the other. */
  lemma NotRefused(nodes: set<Call>, e: Edges<Call>, all: seq<Call>, victims: seq<Call>, calls: seq<Call>,
                   all': seq<Call>, victims': seq<Call>, calls': seq<Call>, v: Call)
    requires Traced(nodes, e) && Survivors(nodes, e, all, victims, calls) && v in victims
    requires Survivors(nodes, e, all', victims', calls') && Writes(calls') == Writes(calls) && all' != []
    ensures !Refused(nodes, e, ToSet(all), v, all'[|all'| - 1])
  {
    assert v in ToSet(all) && v in Dropped(nodes, e, ToSet(all), ToSet(victims)) && v !in ToSet(calls);
    assert v !in Writes(calls) && v !in ToSet(calls');
    forall c | c in ToSet(all)
      ensures !(PersistsBefore(nodes, e, v, c) && PersistsBefore(nodes, e, c, all'[|all'| - 1]))
    {
      StaysBeforePivot(nodes, e, all', victims', calls', v, c);
    }
  }

  /** If all that is left could have persisted, no victim is refused for any call that is left. */
  lemma PersistableAnchored(nodes: set<Call>, e: Edges<Call>, all: seq<Call>, victims: seq<Call>, calls: seq<Call>)
    requires Survivors(nodes, e, all, victims, calls) && Persistable(nodes, e, ToSet(all), ToSet(calls))
    ensures Anchored(nodes, e, all, victims, calls)
  {
    var short := WithoutLastSyncs(calls);
    LastSyncs(calls);
    if short != [] {
      var u := short[|short| - 1];
      assert u in calls && u in ToSet(calls);
      forall v | v in victims ensures !Refused(nodes, e, ToSet(all), v, u) {
        assert forall c :: c in ToSet(all) && PersistsBefore(nodes, e, v, c) ==> c !in ToSet(calls);
      }
    }
  }

  // ------------------------------------------------------------------ the main result

  /** Some state that stays has the same calls, syncs aside. */
  ghost predicate KeptAs(kept: seq<CrashState>, calls: seq<Call>) {
    exists st :: st in kept && Writes(st.syscalls) == Writes(calls)
  }

  /** What pruning keeps of the states of all frontiers. */
  ghost predicate Pruned(nodes: set<Call>, e: Edges<Call>, states: seq<CrashState>, kept: seq<CrashState>)
    requires Within(nodes, e)
  {
    && (forall st :: st in kept ==> FromFrontier(nodes, e, st) && !EndsInFsync(st))
    && (forall st :: st in states && !EndsInFsync(st) ==> exists k :: k in kept && SameAs(k, st))
    && (forall f :: Consistent(nodes, e, f) ==> FrontierDone(nodes, e, f, states))
  }

  lemma FromFrontierOrdered(nodes: set<Call>, e: Edges<Call>, st: CrashState)
    requires FromFrontier(nodes, e, st)
    ensures TimeOrdered(st.syscalls)
  {}

  lemma AnchoredKept(nodes: set<Call>, e: Edges<Call>, states: seq<CrashState>, kept: seq<CrashState>,
                     all: seq<Call>, victims: seq<Call>, calls: seq<Call>)
    requires Traced(nodes, e) && Pruned(nodes, e, states, kept) && Survivors(nodes, e, all, victims, calls)
    requires Anchored(nodes, e, all, victims, calls)
    ensures KeptAs(kept, calls)
  {
    var front, fewer := ShorterChoice(nodes, e, all, victims, calls);
    var st := SurvivorsGenerated(nodes, e, states, front, fewer, WithoutLastSyncs(calls));
    LastSyncs(calls);
    assert !EndsInFsync(st);
    var k :| k in kept && SameAs(k, st);
    FromFrontierOrdered(nodes, e, k);
    OrderedUnique(k.syscalls, st.syscalls);
  }

  /** The survivors of a choice of victims are still represented, up to syncs, exactly when no victim is refused for
      the last of them that is not a sync. */
  lemma KeptIffAnchored(nodes: set<Call>, e: Edges<Call>, states: seq<CrashState>, kept: seq<CrashState>,
                        all: seq<Call>, victims: seq<Call>, calls: seq<Call>)
    requires Traced(nodes, e) && Pruned(nodes, e, states, kept) && Survivors(nodes, e, all, victims, calls)
    ensures KeptAs(kept, calls) <==> Anchored(nodes, e, all, victims, calls)
  {
    if Anchored(nodes, e, all, victims, calls) { AnchoredKept(nodes, e, states, kept, all, victims, calls); }
    if st :| st in kept && Writes(st.syscalls) == Writes(calls) {
      var all', victims' := GeneratedSurvive(nodes, e, st);
      NotKept(nodes, e, all, victims, calls, all', victims', st.syscalls);
    }
  }

  /** A closed set of calls could have persisted as it is. */
  lemma ClosedSurvive(nodes: set<Call>, e: Edges<Call>, calls: seq<Call>)
    requires TimeOrdered(calls) && Closed(nodes, e, ToSet(calls))
    ensures Survivors(nodes, e, calls, [], calls) && Persistable(nodes, e, ToSet(calls), ToSet(calls))
  {
    NothingDropped(nodes, e, ToSet(calls));
  }

  /** The crash states after static pruning: all states of all frontiers, but for those whose survivors are not
      anchored. None of these could have persisted, so whatever could has a state with the same effect on every
      disk. */
  method PrunedStates<D(!new)>(order: seq<Call>, edges: Edges<Call>, ghost perform: (Call, D) -> D)
    returns (kept: seq<CrashState>)
    requires NoDup(order) && Traced(ToSet(order), edges)
    requires forall c: Call, d: D :: c.op.Fsync? ==> perform(c, d) == d
    ensures forall st :: st in kept ==> FromFrontier(ToSet(order), edges, st) && !EndsInFsync(st)
    ensures forall i, j :: 0 <= i < j < |kept| ==> !SameAs(kept[i], kept[j])
    ensures forall all, victims, calls :: Survivors(ToSet(order), edges, all, victims, calls) ==>
              (KeptAs(kept, calls) <==> Anchored(ToSet(order), edges, all, victims, calls))
    ensures forall all, victims, calls :: Survivors(ToSet(order), edges, all, victims, calls) ==>
              (Persistable(ToSet(order), edges, ToSet(all), ToSet(calls)) ==> EffectIn(perform, kept, calls))
    ensures forall calls :: TimeOrdered(calls) && Closed(ToSet(order), edges, ToSet(calls)) ==>
              exists st :: st in kept && forall s, d :: Run(perform, st.syscalls, s, d) == Run(perform, calls, s, d)
  {
    ghost var states;
    states, kept := StaticPruning(order, edges);
    AllKept(ToSet(order), edges, states, kept);
    AllEffects(ToSet(order), edges, kept, perform);
    forall calls | TimeOrdered(calls) && Closed(ToSet(order), edges, ToSet(calls))
      ensures exists st :: st in kept && forall s, d :: Run(perform, st.syscalls, s, d) == Run(perform, calls, s, d)
    {
      ClosedSurvive(ToSet(order), edges, calls);
      assert EffectIn(perform, kept, calls);
    }
  }

  /** Removes the states that end in a sync, then the duplicates. */
  method StaticPruning(order: seq<Call>, edges: Edges<Call>)
    returns (ghost states: seq<CrashState>, kept: seq<CrashState>)
    requires NoDup(order) && Traced(ToSet(order), edges)
    ensures Pruned(ToSet(order), edges, states, kept)
    ensures forall i, j :: 0 <= i < j < |kept| ==> !SameAs(kept[i], kept[j])
  {
    var generated := Crash(order, edges);
    forall i, j | 0 <= i < j < |generated| ensures generated[i] != generated[j] {
      assert generated[i].id != generated[j].id;
    }
    states := generated;
    kept := DropStates(generated);
  }

  method DropStates(states: seq<CrashState>) returns (kept: seq<CrashState>)
    requires NoDup(states)
    ensures forall st :: st in kept ==> st in states && !EndsInFsync(st)
    ensures forall st :: st in states && !EndsInFsync(st) ==> exists k :: k in kept && SameAs(k, st)
    ensures forall i, j :: 0 <= i < j < |kept| ==> !SameAs(kept[i], kept[j])
  {
    var pruned := PruneFsync(states);
    kept := RemoveDuplicates(pruned);
    NoneTwice(pruned, kept);
  }

  /** On the sample trace, where the last call is a sync, the state that lacks x, y and its sync is generated but does
      not stay: no other state has just the write of z. */
  lemma StateLost(e: Edges<Call>)
    requires SampleGraph(e)
    ensures Survivors(SAMPLE_NODES, e, [WRITE_X, WRITE_Y, SYNC_Y, WRITE_Z, PIVOT], [WRITE_X], [WRITE_Z, PIVOT])
    ensures !Anchored(SAMPLE_NODES, e, [WRITE_X, WRITE_Y, SYNC_Y, WRITE_Z, PIVOT], [WRITE_X], [WRITE_Z, PIVOT])
  {
    NotTransitive(e);
    LostSurvivors(SAMPLE_NODES, e, WRITE_X, WRITE_Y, SYNC_Y, WRITE_Z, PIVOT);
    NotAnchored(SAMPLE_NODES, e, [WRITE_X, WRITE_Y, SYNC_Y, WRITE_Z, PIVOT], WRITE_X, WRITE_Z, PIVOT);
  }

  lemma LostSurvivors(nodes: set<Call>, e: Edges<Call>, x: Call, y: Call, sync: Call, z: Call, pivot: Call)
    requires nodes == {x, y, sync, z, pivot} && Closed(nodes, e, nodes)
    requires x.timestamp < y.timestamp < sync.timestamp < z.timestamp < pivot.timestamp && !x.op.Fsync?
    requires Dropped(nodes, e, nodes, {x}) == {x, y, sync} && !Refused(nodes, e, nodes, x, pivot)
    ensures ToSet([x, y, sync, z, pivot]) == nodes
    ensures Survivors(nodes, e, [x, y, sync, z, pivot], [x], [z, pivot])
  {
    FiveCalls(nodes, x, y, sync, z, pivot);
    assert ToSet([x]) == {x};
  }

  lemma FiveCalls(nodes: set<Call>, x: Call, y: Call, sync: Call, z: Call, pivot: Call)
    requires nodes == {x, y, sync, z, pivot}
    requires x.timestamp < y.timestamp < sync.timestamp < z.timestamp < pivot.timestamp
    ensures ToSet([x, y, sync, z, pivot]) == nodes && ToSet([z, pivot]) == nodes - {x, y, sync}
  {
    assert ToSet([z, pivot]) == {z, pivot};
  }

  lemma NotAnchored(nodes: set<Call>, e: Edges<Call>, all: seq<Call>, victim: Call, z: Call, sync: Call)
    requires !z.op.Fsync? && sync.op.Fsync? && Refused(nodes, e, ToSet(all), victim, z)
    ensures !Anchored(nodes, e, all, [victim], [z, sync])
  {
    assert [z, sync][..1] == [z] && WithoutLastSyncs([z]) == [z];
    assert WithoutLastSyncs([z, sync]) == [z];
    assert victim in [victim] && Refused(nodes, e, ToSet(all), victim, [z][0]);
  }

  /** Some state that stays has the same effect. */
  ghost predicate EffectIn<D(!new)>(perform: (Call, D) -> D, kept: seq<CrashState>, calls: seq<Call>) {
    exists st :: st in kept && SameEffect(perform, st.syscalls, calls)
  }

  lemma EffectKept<D(!new)>(perform: (Call, D) -> D, kept: seq<CrashState>, calls: seq<Call>)
    requires forall c: Call, d: D :: c.op.Fsync? ==> perform(c, d) == d
    requires KeptAs(kept, calls)
    ensures EffectIn(perform, kept, calls)
  {
    var st :| st in kept && Writes(st.syscalls) == Writes(calls);
    SameWrites(perform, st.syscalls, calls);
  }

  lemma AllKept(nodes: set<Call>, e: Edges<Call>, states: seq<CrashState>, kept: seq<CrashState>)
    requires Traced(nodes, e) && Pruned(nodes, e, states, kept)
    ensures forall all, victims, calls :: Survivors(nodes, e, all, victims, calls) ==>
              (KeptAs(kept, calls) <==> Anchored(nodes, e, all, victims, calls))
  {
    forall all, victims, calls | Survivors(nodes, e, all, victims, calls)
      ensures KeptAs(kept, calls) <==> Anchored(nodes, e, all, victims, calls)
    {
      KeptIffAnchored(nodes, e, states, kept, all, victims, calls);
    }
  }

  lemma AllEffects<D(!new)>(nodes: set<Call>, e: Edges<Call>, kept: seq<CrashState>, perform: (Call, D) -> D)
    requires forall c: Call, d: D :: c.op.Fsync? ==> perform(c, d) == d
    requires forall all, victims, calls :: Survivors(nodes, e, all, victims, calls) ==>
               (KeptAs(kept, calls) <==> Anchored(nodes, e, all, victims, calls))
    ensures forall all, victims, calls :: Survivors(nodes, e, all, victims, calls) ==>
              (Persistable(nodes, e, ToSet(all), ToSet(calls)) ==> EffectIn(perform, kept, calls))
  {
    forall all, victims, calls | Survivors(nodes, e, all, victims, calls)
      ensures Persistable(nodes, e, ToSet(all), ToSet(calls)) ==> EffectIn(perform, kept, calls)
    {
      if Persistable(nodes, e, ToSet(all), ToSet(calls)) {
        PersistableAnchored(nodes, e, all, victims, calls);
        EffectKept(perform, kept, calls);
      }
    }
  }

  lemma NoneTwice(states: seq<CrashState>, kept: seq<CrashState>)
    requires NoDup(kept)
    requires forall st :: st in kept ==> st in states
    requires forall x :: 0 <= x < |states| ==> (states[x] in kept <==> Represents(states, x))
    ensures forall i, j :: 0 <= i < j < |kept| ==> !SameAs(kept[i], kept[j])
  {
    forall i, j | 0 <= i < j < |kept| ensures !SameAs(kept[i], kept[j]) {
      KeptDiffer(states, kept, i, j);
    }
  }

  lemma KeptDiffer(states: seq<CrashState>, kept: seq<CrashState>, i: int, j: int)
    requires NoDup(kept) && 0 <= i < j < |kept|
    requires forall st :: st in kept ==> st in states
    requires forall x :: 0 <= x < |states| ==> (states[x] in kept <==> Represents(states, x))
    ensures !SameAs(kept[i], kept[j])
  {
    assert kept[i] in kept && kept[j] in kept;
    var x :| 0 <= x < |states| && states[x] == kept[i];
    var y :| 0 <= y < |states| && states[y] == kept[j];
    if SameAs(kept[i], kept[j]) {
      if x < y { LaterIsDecided(states, x, y); } else { LaterIsDecided(states, y, x); }
    }
  }
}
