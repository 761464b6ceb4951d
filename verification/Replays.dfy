/** Replaying crash states on the servers' disks, in full and incrementally. */
module Replays {
  import opened Options
  import opened Sequences
  import opened Traces
  import opened CrashStates

  /** The content of one server's disk after performing its calls of the list, in order. */
  function Run<D>(perform: (Call, D) -> D, calls: seq<Call>, server: string, disk: D): D {
    if calls == [] then disk
    else
      var before := Run(perform, calls[..|calls| - 1], server, disk);
      var call := calls[|calls| - 1];
      if call.service == server then perform(call, before) else before
  }

  lemma {:induction false} RunConcat<D>(perform: (Call, D) -> D, a: seq<Call>, b: seq<Call>, server: string, disk: D)
    ensures Run(perform, a + b, server, disk) == Run(perform, b, server, Run(perform, a, server, disk))
  {
    if b == [] {
      assert a + b == a;
    } else {
      assert (a + b)[..|a + b| - 1] == a + b[..|b| - 1];
      RunConcat(perform, a, b[..|b| - 1], server, disk);
    }
  }

  /** A server's disk depends on its own calls only. */
  lemma {:induction false} RunNothing<D>(perform: (Call, D) -> D, calls: seq<Call>, server: string, disk: D)
    requires forall c :: c in calls ==> c.service != server
    ensures Run(perform, calls, server, disk) == disk
  {
    if calls != [] {
      assert calls[|calls| - 1] in calls;
      RunNothing(perform, calls[..|calls| - 1], server, disk);
    }
  }

  function OfServer(calls: seq<Call>, server: string): seq<Call> {
    Select(calls, (c: Call) => c.service == server)
  }

  lemma {:induction false} SelectConcat(a: seq<Call>, b: seq<Call>, keep: Call -> bool)
    ensures Select(a + b, keep) == Select(a, keep) + Select(b, keep)
  {
    if a == [] {
      assert a + b == b;
    } else {
      assert (a + b)[1..] == a[1..] + b;
      SelectConcat(a[1..], b, keep);
    }
  }

  lemma {:induction false} RunOfServer<D>(perform: (Call, D) -> D, calls: seq<Call>, server: string, disk: D)
    ensures Run(perform, calls, server, disk) == Run(perform, OfServer(calls, server), server, disk)
  {
    if calls != [] {
      var front, call := calls[..|calls| - 1], calls[|calls| - 1];
      assert calls == front + [call];
      RunOfServer(perform, front, server, disk);
      SelectConcat(front, [call], (c: Call) => c.service == server);
      var mine := OfServer(front, server);
      if call.service == server {
        assert OfServer(calls, server) == mine + [call];
        assert (mine + [call])[..|mine + [call]| - 1] == mine;
      } else {
        assert OfServer(calls, server) == mine;
      }
    }
  }

  function Difference(a: seq<Call>, b: seq<Call>): set<Call> {
    (ToSet(a) - ToSet(b)) + (ToSet(b) - ToSet(a))
  }

  /** The servers on which two states differ. */
  function DiffServers(a: CrashState, b: CrashState): set<string> {
    set c | c in Difference(a.syscalls, b.syscalls) :: c.service
  }

  /** The number of calls of last if they are what this state starts with. */
  function Contains(state: CrashState, last: CrashState): Option<nat> {
    var concat := |last.syscalls|;
    var prefix := if concat <= |state.syscalls| then state.syscalls[..concat] else state.syscalls;
    if Difference(prefix, last.syscalls) == {} then Some(concat) else None
  }

  /** What a list has behind a prefix that it has no repetition of. */
  lemma BehindPrefix<T>(last: seq<T>, rest: seq<T>, x: T)
    requires NoDup(last + rest)
    ensures x in rest <==> x !in last && x in last + rest
  {
    if x in rest {
      var i :| 0 <= i < |rest| && rest[i] == x;
      assert (last + rest)[|last| + i] == x;
      assert forall k :: 0 <= k < |last| ==> (last + rest)[k] == last[k];
    }
  }

  /** For generated states, being contained means being a prefix, and the rest runs on the differing servers. */
  lemma ContainsIsPrefix(state: CrashState, last: CrashState)
    requires TimeOrdered(state.syscalls) && TimeOrdered(last.syscalls)
    ensures Contains(state, last).Some? <==> last.syscalls <= state.syscalls
    ensures Contains(state, last).Some? ==>
              (set c | c in state.syscalls[|last.syscalls|..] :: c.service) == DiffServers(last, state)
  {
    var concat := |last.syscalls|;
    var prefix := if concat <= |state.syscalls| then state.syscalls[..concat] else state.syscalls;
    if Contains(state, last).Some? {
      assert ToSet(prefix) == ToSet(last.syscalls) by {
        assert forall c :: c !in Difference(prefix, last.syscalls);
      }
      OrderedUnique(prefix, last.syscalls);
    }
    if last.syscalls <= state.syscalls {
      var rest := state.syscalls[concat..];
      assert prefix == last.syscalls;
      assert state.syscalls == last.syscalls + rest;
      forall c ensures c in rest <==> c in Difference(last.syscalls, state.syscalls) {
        BehindPrefix(last.syscalls, rest, c);
      }
    }
  }

  /** Servers without differing calls end with the same disk. */
  lemma SameOnOthers<D>(perform: (Call, D) -> D, a: CrashState, b: CrashState, server: string, disk: D)
    requires TimeOrdered(a.syscalls) && TimeOrdered(b.syscalls) && server !in DiffServers(a, b)
    ensures Run(perform, a.syscalls, server, disk) == Run(perform, b.syscalls, server, disk)
  {
    var mine := (c: Call) => c.service == server;
    SelectOrdered(a.syscalls, mine);
    SelectOrdered(b.syscalls, mine);
    RunOfServer(perform, a.syscalls, server, disk);
    RunOfServer(perform, b.syscalls, server, disk);
    forall c ensures c in OfServer(a.syscalls, server) <==> c in OfServer(b.syscalls, server) {
      assert c in Difference(a.syscalls, b.syscalls) ==> c.service in DiffServers(a, b);
    }
    OrderedUnique(OfServer(a.syscalls, server), OfServer(b.syscalls, server));
  }

  datatype Outcome = Passed | Failed | Unavailable

  /** The servers' disks and the driver that checks one crash state after another. */
  class Cluster<D> {
    const snapshot: map<string, D>
    const perform: (Call, D) -> D
    var disks: map<string, D>
    var lastState: Option<CrashState>

    /** The disks are those reached from the snapshot by performing the calls. */
    ghost predicate Holds(calls: seq<Call>) reads this {
      && disks.Keys == snapshot.Keys
      && forall s :: s in snapshot ==> disks[s] == Run(perform, calls, s, snapshot[s])
    }

    ghost predicate Valid() reads this {
      && disks.Keys == snapshot.Keys
      && (lastState.Some? ==> TimeOrdered(lastState.value.syscalls) && Holds(lastState.value.syscalls))
    }

    ghost predicate Fits(state: CrashState) {
      TimeOrdered(state.syscalls) && forall c :: c in state.syscalls ==> c.service in snapshot
    }

    constructor (snapshot: map<string, D>, perform: (Call, D) -> D)
      ensures Valid() && lastState.None?
      ensures this.snapshot == snapshot && this.perform == perform && disks == snapshot
    {
      this.snapshot, this.perform := snapshot, perform;
      disks, lastState := snapshot, None;
    }

    /** Restores the listed servers, or all of them when there is no list. An empty list restores none. */
    method Restore(blocklist: Option<set<string>>)
      requires disks.Keys == snapshot.Keys
      modifies this`disks
      ensures disks.Keys == snapshot.Keys
      ensures forall s :: s in snapshot ==>
                disks[s] == if blocklist.None? || s in blocklist.value then snapshot[s] else old(disks)[s]
    {
      var todo := if blocklist.Some? then snapshot.Keys * blocklist.value else snapshot.Keys;
      ghost var all := todo;
      while todo != {}
        invariant todo <= all && disks.Keys == snapshot.Keys
        invariant forall s :: s in snapshot ==> disks[s] == if s in all - todo then snapshot[s] else old(disks)[s]
        decreases todo
      {
        var s :| s in todo;
        disks := disks[s := snapshot[s]];
        todo := todo - {s};
      }
    }

    /** Performs the calls from start on, on the listed servers only. Unlike Restore, an empty list means all. */
    method Emulate(state: CrashState, start: nat, blocklist: Option<set<string>>)
      requires start <= |state.syscalls|
      requires disks.Keys == snapshot.Keys && forall c :: c in state.syscalls ==> c.service in snapshot
      modifies this`disks
      ensures disks.Keys == snapshot.Keys
      ensures forall s :: s in snapshot ==>
                disks[s] == if blocklist.Some? && blocklist.value != {} && s !in blocklist.value then old(disks)[s]
                            else Run(perform, state.syscalls[start..], s, old(disks)[s])
    {
      var servers := set c | c in state.syscalls :: c.service;
      var toRestart := if blocklist.Some? && blocklist.value != {} then servers * blocklist.value else servers;
      var calls := state.syscalls[start..];
      for k := 0 to |calls|
        invariant disks.Keys == snapshot.Keys
        invariant forall s :: s in snapshot ==>
                    disks[s] == if s in toRestart then Run(perform, calls[..k], s, old(disks)[s]) else old(disks)[s]
      {
        var call := calls[k];
        assert calls[..k + 1][..k] == calls[..k];
        assert call in state.syscalls && call.service in servers;
        if call.service in toRestart {
          disks := disks[call.service := perform(call, disks[call.service])];
        }
      }
      assert calls[..|calls|] == calls;
      forall s | s in snapshot && s !in servers
        ensures Run(perform, calls, s, old(disks)[s]) == old(disks)[s]
      {
        RunNothing(perform, calls, s, old(disks)[s]);
      }
    }

    /** Performs what the state adds to the last one. */
    method Continue(state: CrashState, last: CrashState, blocklist: Option<set<string>>)
      requires Fits(state) && TimeOrdered(last.syscalls) && last.syscalls <= state.syscalls && Holds(last.syscalls)
      requires blocklist.Some? ==> blocklist.value == DiffServers(last, state)
      modifies `disks
      ensures Holds(state.syscalls)
    {
      Emulate(state, |last.syscalls|, blocklist);
      SuffixReaches(state, last, blocklist, old(disks));
    }

    /** Restores servers and performs the whole state on them. */
    method StartOver(state: CrashState, last: Option<CrashState>, blocklist: Option<set<string>>)
      requires Fits(state) && disks.Keys == snapshot.Keys
      requires blocklist.Some? ==>
                 && last.Some? && TimeOrdered(last.value.syscalls) && Holds(last.value.syscalls)
                 && Contains(state, last.value).None? && blocklist.value == DiffServers(last.value, state)
      modifies `disks
      ensures Holds(state.syscalls)
    {
      Restore(blocklist);
      Emulate(state, 0, blocklist);
      assert state.syscalls[0..] == state.syscalls;
      if blocklist.Some? {
        DifferNonEmpty(last.value, state);
        forall s | s in snapshot && s !in blocklist.value
          ensures disks[s] == Run(perform, state.syscalls, s, snapshot[s])
        {
          SameOnOthers(perform, last.value, state, s, snapshot[s]);
        }
      }
    }

    /** Brings the disks to a crash state, reusing the previous one where it can. */
    method Reach(state: CrashState, incremental: bool, glusterfs: bool)
      requires Valid() && Fits(state)
      modifies `disks
      ensures Holds(state.syscalls)
    {
      var blocklist: Option<set<string>> := None;
      if incremental && lastState.Some? {
        blocklist := Some(DiffServers(lastState.value, state));
      }
      if glusterfs {
        if exists c | c in state.syscalls :: c.op.Truncate? {
          blocklist := None;
        }
      }
      var i: Option<nat> := None;
      if lastState.Some? {
        i := Contains(state, lastState.value);
        ContainsIsPrefix(state, lastState.value);
      }
      if incremental && i.Some? {
        Continue(state, lastState.value, blocklist);
      } else {
        StartOver(state, lastState, blocklist);
      }
    }

    /** Brings the disks to a crash state and records what the check found. An unavailable file system is wiped, to
        whatever content. */
    method PerformCrash(state: CrashState, incremental: bool, glusterfs: bool, outcome: Outcome, wiped: map<string, D>)
      returns (ghost reached: map<string, D>)
      requires Valid() && wiped.Keys == snapshot.Keys
      requires forall i, j :: 0 <= i < j < |state.syscalls| ==>
                 state.syscalls[i].timestamp < state.syscalls[j].timestamp
      requires forall c :: c in state.syscalls ==> c.service in snapshot
      modifies this
      ensures Valid()
      ensures reached.Keys == snapshot.Keys
      ensures forall s :: s in snapshot ==> reached[s] == Run(perform, state.syscalls, s, snapshot[s])
      ensures disks == if outcome == Unavailable then wiped else reached
      ensures lastState == if outcome == Passed then Some(state) else None
    {
      Reach(state, incremental, glusterfs);
      reached := disks;
      lastState := None;
      match outcome {
        case Passed => lastState := Some(state);
        case Failed =>
        case Unavailable => disks := wiped;
      }
    }

    lemma SuffixReaches(state: CrashState, last: CrashState, blocklist: Option<set<string>>, before: map<string, D>)
      requires TimeOrdered(state.syscalls) && TimeOrdered(last.syscalls) && last.syscalls <= state.syscalls
      requires blocklist.Some? ==> blocklist.value == DiffServers(last, state)
      requires before.Keys == snapshot.Keys
      requires forall s :: s in snapshot ==> before[s] == Run(perform, last.syscalls, s, snapshot[s])
      ensures forall s :: s in snapshot ==>
                Run(perform, state.syscalls, s, snapshot[s]) ==
                if blocklist.Some? && blocklist.value != {} && s !in blocklist.value then before[s]
                else Run(perform, state.syscalls[|last.syscalls|..], s, before[s])
    {
      var rest := state.syscalls[|last.syscalls|..];
      assert state.syscalls == last.syscalls + rest;
      ContainsIsPrefix(state, last);
      forall s | s in snapshot
        ensures Run(perform, state.syscalls, s, snapshot[s]) == Run(perform, rest, s, before[s])
        ensures blocklist.Some? && s !in blocklist.value ==> Run(perform, rest, s, before[s]) == before[s]
      {
        RunConcat(perform, last.syscalls, rest, s, snapshot[s]);
        if blocklist.Some? && s !in blocklist.value {
          forall c | c in rest ensures c.service != s {
            assert c.service in (set d | d in rest :: d.service);
          }
          RunNothing(perform, rest, s, before[s]);
        }
      }
    }
  }

  /** When the driver restores a list of differing servers, the list is not empty. */
  lemma DifferNonEmpty(last: CrashState, state: CrashState)
    requires TimeOrdered(last.syscalls) && TimeOrdered(state.syscalls) && Contains(state, last).None?
    ensures DiffServers(last, state) != {}
  {
    ContainsIsPrefix(state, last);
    if Difference(last.syscalls, state.syscalls) == {} {
      assert forall c :: c !in Difference(last.syscalls, state.syscalls);
      assert ToSet(last.syscalls) == ToSet(state.syscalls);
      OrderedUnique(last.syscalls, state.syscalls);
    } else {
      var c :| c in Difference(last.syscalls, state.syscalls);
      assert c.service in DiffServers(last, state);
    }
  }
}
