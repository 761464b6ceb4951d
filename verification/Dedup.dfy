/** Static pruning of crash states: dropping those that end in an fsync, then all but one of every group that
    replays the same calls. */
module Dedup {
  import opened Sequences
  import opened CrashStates

  predicate SameAs(a: CrashState, b: CrashState) {
    |a.syscalls| == |b.syscalls| && ToSet(a.syscalls) == ToSet(b.syscalls)
  }

  /** list.remove of an element that is there. */
  function Without(s: seq<CrashState>, x: CrashState): (r: seq<CrashState>)
    requires x in s
    ensures |r| == |s| - 1
  {
    if s[0] == x then s[1..] else [s[0]] + Without(s[1..], x)
  }

  function KeepStates(s: seq<CrashState>, gone: set<CrashState>): (r: seq<CrashState>)
    ensures forall x :: x in r <==> x in s && x !in gone
  {
    if s == [] then [] else (if s[0] in gone then [] else [s[0]]) + KeepStates(s[1..], gone)
  }

  lemma {:induction false} KeepNothingGone(s: seq<CrashState>, gone: set<CrashState>)
    requires forall x :: x in s ==> x !in gone
    ensures KeepStates(s, gone) == s
  {
    if s != [] { KeepNothingGone(s[1..], gone); }
  }

  lemma {:induction false} KeepNoDup(s: seq<CrashState>, gone: set<CrashState>)
    requires NoDup(s)
    ensures NoDup(KeepStates(s, gone))
  {
    if s != [] {
      KeepNoDup(s[1..], gone);
      assert forall k :: 0 <= k < |s[1..]| ==> s[1..][k] == s[k + 1];
      assert s[0] !in KeepStates(s[1..], gone);
    }
  }

  lemma {:induction false} WithoutKept(s: seq<CrashState>, gone: set<CrashState>, x: CrashState)
    requires NoDup(s) && x in s && x !in gone
    ensures Without(KeepStates(s, gone), x) == KeepStates(s, gone + {x})
  {
    var rest := s[1..];
    assert s == [s[0]] + rest;
    assert s[0] !in rest by {
      assert forall k :: 0 <= k < |rest| ==> rest[k] == s[k + 1];
    }
    var kept := KeepStates(rest, gone);
    if s[0] == x {
      SameKept(rest, gone, gone + {x});
      assert KeepStates(s, gone)[1..] == kept;
    } else {
      WithoutKept(rest, gone, x);
      if s[0] !in gone {
        assert KeepStates(s, gone)[1..] == kept;
      } else {
        assert KeepStates(s, gone) == kept;
      }
    }
  }

  lemma {:induction false} SameKept(s: seq<CrashState>, g1: set<CrashState>, g2: set<CrashState>)
    requires forall x :: x in s ==> (x in g1 <==> x in g2)
    ensures KeepStates(s, g1) == KeepStates(s, g2)
  {
    if s != [] { SameKept(s[1..], g1, g2); }
  }

  /** Removing scheduled states one by one; with distinct scheduled states no removal can fail. */
  method RemoveEach(states: seq<CrashState>, toRemove: seq<CrashState>) returns (kept: seq<CrashState>)
    requires NoDup(states) && NoDup(toRemove) && forall x :: x in toRemove ==> x in states
    ensures kept == KeepStates(states, ToSet(toRemove))
  {
    kept := states;
    KeepNothingGone(states, {});
    assert ToSet(toRemove[..0]) == {};
    for k := 0 to |toRemove|
      invariant kept == KeepStates(states, ToSet(toRemove[..k]))
    {
      assert toRemove[..k + 1] == toRemove[..k] + [toRemove[k]];
      assert ToSet(toRemove[..k + 1]) == ToSet(toRemove[..k]) + {toRemove[k]};
      assert toRemove[k] in toRemove && toRemove[k] !in toRemove[..k];
      WithoutKept(states, ToSet(toRemove[..k]), toRemove[k]);
      kept := Without(kept, toRemove[k]);
    }
    assert toRemove[..|toRemove|] == toRemove;
  }

  predicate EndsInFsync(st: CrashState) {
    |st.syscalls| >= 1 && st.syscalls[|st.syscalls| - 1].op.Fsync?
  }

  method PruneFsync(states: seq<CrashState>) returns (kept: seq<CrashState>)
    requires NoDup(states)
    ensures NoDup(kept)
    ensures forall st :: st in kept <==> st in states && !EndsInFsync(st)
    ensures forall st :: st in kept <==>
              st in states && (st.syscalls == [] || !st.syscalls[|st.syscalls| - 1].op.Fsync?)
  {
    var toRemove := [];
    for i := 0 to |states|
      invariant NoDup(toRemove) && forall x :: x in toRemove <==> x in states[..i] && EndsInFsync(x)
    {
      assert states[..i + 1] == states[..i] + [states[i]];
      if EndsInFsync(states[i]) { toRemove := toRemove + [states[i]]; }
    }
    assert states[..|states|] == states;
    kept := RemoveEach(states, toRemove);
    KeepNoDup(states, ToSet(toRemove));
  }

  // --------------------------------------------------------------- duplicate states

  ghost predicate NextSame(states: seq<CrashState>, i: int, j: int) {
    0 <= i < j < |states| && SameAs(states[i], states[j])
    && forall k :: i < k < j ==> !SameAs(states[i], states[k])
  }

  predicate Mpi(st: CrashState) { st.reorder.Some? && st.reorder.value.layer == "MPI" }

  /** a is preferred to the next state of its group. */
  predicate Beats(a: CrashState, b: CrashState) {
    Mpi(a) || (a.reorder.Some? && b.reorder.Some? && |a.reorder.value.dropped| < |b.reorder.value.dropped|)
  }

  ghost predicate Wins(states: seq<CrashState>, i: int)
    requires 0 <= i < |states|
  {
    forall j :: NextSame(states, i, j) ==> Beats(states[i], states[j])
  }

  ghost predicate Decided(states: seq<CrashState>, i: int)
    requires 0 <= i < |states|
  {
    exists y :: 0 <= y < i && SameAs(states[y], states[i]) && Wins(states, y)
  }

  /** The representative of its group: the first state preferred to its successor, or else the last one. */
  ghost predicate Represents(states: seq<CrashState>, i: int)
    requires 0 <= i < |states|
  {
    Wins(states, i) && !Decided(states, i)
  }

  lemma NextUnique(states: seq<CrashState>, i: int, j: int, k: int)
    requires NextSame(states, i, j) && NextSame(states, i, k)
    ensures j == k
  {}

  lemma {:induction false} PreviousSame(states: seq<CrashState>, y: int, i: int) returns (p: int)
    requires 0 <= y < i < |states| && SameAs(states[y], states[i])
    ensures y <= p < i && NextSame(states, p, i)
    decreases i - y
  {
    if k :| y < k < i && SameAs(states[y], states[k]) {
      p := PreviousSame(states, k, i);
    } else {
      p := y;
    }
  }

  /** What is scheduled after the first i states have been handled. */
  ghost predicate Scheduled(states: seq<CrashState>, i: int, x: int)
    requires 0 <= x < |states|
  {
    if x < i then !Represents(states, x) else Decided(states, x) && exists p :: 0 <= p < i && NextSame(states, p, x)
  }

  ghost predicate Pass(states: seq<CrashState>, i: int, toRemove: seq<CrashState>) {
    && NoDup(toRemove) && (forall r :: r in toRemove ==> r in states)
    && forall x :: 0 <= x < |states| ==> (states[x] in toRemove <==> Scheduled(states, i, x))
  }

  lemma PassLast(states: seq<CrashState>, i: int, toRemove: seq<CrashState>)
    requires NoDup(states) && 0 <= i < |states| && Pass(states, i, toRemove)
    requires forall j :: !NextSame(states, i, j)
    ensures Pass(states, i + 1, toRemove)
  {
    forall x | 0 <= x < |states| ensures Scheduled(states, i, x) <==> Scheduled(states, i + 1, x) {
      ScheduledLast(states, i, x);
    }
  }

  lemma ScheduledLast(states: seq<CrashState>, i: int, x: int)
    requires 0 <= i < |states| && 0 <= x < |states| && forall j :: !NextSame(states, i, j)
    ensures Scheduled(states, i, x) <==> Scheduled(states, i + 1, x)
  {
    if x == i { ScheduledIsDecided(states, i); }
  }

  lemma DecidedNext(states: seq<CrashState>, i: int, j: int)
    requires NextSame(states, i, j)
    ensures Decided(states, j) <==> Decided(states, i) || Wins(states, i)
  {
    if Decided(states, j) {
      var y := Decider(states, j);
      assert SameAs(states[y], states[i]);
    }
    if Decided(states, i) {
      var y := Decider(states, i);
      assert SameAs(states[y], states[j]);
    }
  }

  lemma Decider(states: seq<CrashState>, i: int) returns (y: int)
    requires 0 <= i < |states|
    ensures Decided(states, i) ==> 0 <= y < i && SameAs(states[y], states[i]) && Wins(states, y)
  {
    y := 0;
    if Decided(states, i) { y :| 0 <= y < i && SameAs(states[y], states[i]) && Wins(states, y); }
  }

  /** Whether the current state was scheduled by an earlier step is whether its group is decided. */
  lemma ScheduledIsDecided(states: seq<CrashState>, i: int)
    requires 0 <= i < |states|
    ensures Scheduled(states, i, i) <==> Decided(states, i)
  {
    if Decided(states, i) {
      var y := Decider(states, i);
      var p := PreviousSame(states, y, i);
    }
  }

  lemma PreviousUnique(states: seq<CrashState>, p: int, i: int, j: int)
    requires NextSame(states, i, j) && NextSame(states, p, j)
    ensures p == i
  {
    assert SameAs(states[p], states[i]);
    if p < i {} else if i < p {}
  }

  lemma ScheduleStep(states: seq<CrashState>, i: int, j: int, x: int)
    requires NextSame(states, i, j) && 0 <= x < |states| && x != i && x != j
    ensures Scheduled(states, i, x) <==> Scheduled(states, i + 1, x)
  {
    if x > i && NextSame(states, i, x) { NextUnique(states, i, j, x); }
  }

  lemma ScheduleNow(states: seq<CrashState>, i: int, j: int)
    requires NextSame(states, i, j)
    ensures !Scheduled(states, i, j)
    ensures Scheduled(states, i + 1, j) <==> Decided(states, i) || Beats(states[i], states[j])
    ensures Scheduled(states, i + 1, i) <==> Decided(states, i) || !Beats(states[i], states[j])
  {
    DecidedNext(states, i, j);
    forall k | NextSame(states, i, k) ensures k == j { NextUnique(states, i, j, k); }
    forall p | NextSame(states, p, j) ensures p == i { PreviousUnique(states, p, i, j); }
  }

  lemma PassNext(states: seq<CrashState>, i: int, j: int, before: seq<CrashState>, after: seq<CrashState>)
    requires NoDup(states) && Pass(states, i, before) && NextSame(states, i, j)
    requires after == before + [if Mpi(states[i]) || states[i] in before || Beats(states[i], states[j]) then states[j]
                                else states[i]]
    ensures Pass(states, i + 1, after)
  {
    ScheduledIsDecided(states, i);
    ScheduleNow(states, i, j);
    forall x | 0 <= x < |states| ensures states[x] in after <==> Scheduled(states, i + 1, x) {
      if x != i && x != j { ScheduleStep(states, i, j, x); }
    }
  }

  /** The state of a pair that is to be removed. */
  method Mark(states: seq<CrashState>, i: nat, j: nat, before: seq<CrashState>) returns (toRemove: seq<CrashState>)
    requires NoDup(states) && Pass(states, i, before) && NextSame(states, i, j)
    ensures Pass(states, i + 1, toRemove)
  {
    var stateI, stateJ := states[i], states[j];
    toRemove := before;
    if Mpi(stateI) || stateI in toRemove {
      toRemove := toRemove + [stateJ];
    } else if stateI.reorder.Some? && stateJ.reorder.Some? {
      if |stateI.reorder.value.dropped| < |stateJ.reorder.value.dropped| {
        toRemove := toRemove + [stateJ];
      } else {
        toRemove := toRemove + [stateI];
      }
    } else {
      toRemove := toRemove + [stateI];
    }
    PassNext(states, i, j, before, toRemove);
  }

  method MarkDuplicates(states: seq<CrashState>) returns (toRemove: seq<CrashState>)
    requires NoDup(states)
    ensures Pass(states, |states|, toRemove)
  {
    toRemove := [];
    for i := 0 to |states|
      invariant Pass(states, i, toRemove)
    {
      ghost var before := toRemove;
      var j := i + 1;
      var found := false;
      while j < |states| && !found
        invariant i < j <= |states|
        invariant !found ==> toRemove == before && forall k :: i < k < j ==> !SameAs(states[i], states[k])
        invariant found ==> Pass(states, i + 1, toRemove)
        decreases |states| - j, !found
      {
        if SameAs(states[i], states[j]) {
          toRemove := Mark(states, i, j, toRemove);
          found := true;
        } else {
          j := j + 1;
        }
      }
      if !found { PassLast(states, i, toRemove); }
    }
  }

  method RemoveDuplicates(states: seq<CrashState>) returns (kept: seq<CrashState>)
    requires NoDup(states)
    ensures NoDup(kept)
    ensures forall x :: 0 <= x < |states| ==> (states[x] in kept <==> Represents(states, x))
    ensures forall st :: st in kept ==> st in states
    ensures forall st :: st in states ==> exists k :: k in kept && SameAs(k, st)
  {
    var toRemove := MarkDuplicates(states);
    kept := RemoveEach(states, toRemove);
    KeepNoDup(states, ToSet(toRemove));
    AllRepresented(states, kept);
  }

  lemma AllRepresented(states: seq<CrashState>, kept: seq<CrashState>)
    requires forall x :: 0 <= x < |states| ==> (states[x] in kept <==> Represents(states, x))
    ensures forall st :: st in states ==> exists k :: k in kept && SameAs(k, st)
  {
    forall st | st in states ensures exists k :: k in kept && SameAs(k, st) { Represented(states, kept, st); }
  }

  lemma Represented(states: seq<CrashState>, kept: seq<CrashState>, st: CrashState)
    requires st in states
    requires forall x :: 0 <= x < |states| ==> (states[x] in kept <==> Represents(states, x))
    ensures exists k :: k in kept && SameAs(k, st)
  {
    var i :| 0 <= i < |states| && states[i] == st;
    var r := OneRepresentative(states, i);
    assert states[r] in kept;
  }

  /** States count as the same when they hold the same calls. */
  lemma SameSays(a: CrashState, b: CrashState)
    requires NoDup(a.syscalls) && NoDup(b.syscalls)
    ensures SameAs(a, b) <==> forall c :: c in a.syscalls <==> c in b.syscalls
  {
    assert forall c :: c in a.syscalls <==> c in ToSet(a.syscalls);
    assert forall c :: c in b.syscalls <==> c in ToSet(b.syscalls);
    if forall c :: c in a.syscalls <==> c in b.syscalls {
      assert ToSet(a.syscalls) == ToSet(b.syscalls);
      NoDupSize(a.syscalls);
      NoDupSize(b.syscalls);
    }
  }

  /** Of two states with the same calls the second stays, unless the first stems from MPI or both are reordered
      and the first has dropped fewer calls. */
  lemma WhichStays(a: CrashState, b: CrashState)
    requires a != b && NoDup(a.syscalls) && NoDup(b.syscalls) && forall c :: c in a.syscalls <==> c in b.syscalls
    ensures var firstStays := || (a.reorder.Some? && a.reorder.value.layer == "MPI")
                              || (a.reorder.Some? && b.reorder.Some?
                                  && |a.reorder.value.dropped| < |b.reorder.value.dropped|);
            (Represents([a, b], 0) <==> firstStays) && (Represents([a, b], 1) <==> !firstStays)
  {
    var states := [a, b];
    SameSays(a, b);
    assert SameAs(states[0], states[1]) && NextSame(states, 0, 1);
    assert Wins(states, 1);
    assert Wins(states, 0) <==> Beats(a, b);
    assert Decided(states, 1) <==> Wins(states, 0);
  }

  /** Each group keeps exactly one state. */
  lemma OneRepresentative(states: seq<CrashState>, i: int) returns (r: int)
    requires 0 <= i < |states|
    ensures 0 <= r < |states| && SameAs(states[r], states[i]) && Represents(states, r)
    ensures forall x :: 0 <= x < |states| && SameAs(states[x], states[i]) && Represents(states, x) ==> x == r
  {
    var w := SomeWinner(states, i);
    r := FirstWinner(states, w);
    forall x | 0 <= x < |states| && SameAs(states[x], states[i]) && Represents(states, x) ensures x == r {
      if x < r { LaterIsDecided(states, x, r); }
      if r < x { LaterIsDecided(states, r, x); }
    }
  }

  lemma LaterIsDecided(states: seq<CrashState>, x: int, y: int)
    requires 0 <= x < y < |states| && SameAs(states[x], states[y]) && Represents(states, x)
    ensures !Represents(states, y)
  {
    assert Decided(states, y);
  }

  lemma {:induction false} SomeWinner(states: seq<CrashState>, i: int) returns (w: int)
    requires 0 <= i < |states|
    ensures i <= w < |states| && SameAs(states[w], states[i]) && Wins(states, w)
    decreases |states| - i
  {
    if j :| NextSame(states, i, j) {
      w := SomeWinner(states, j);
    } else {
      w := i;
    }
  }

  lemma {:induction false} FirstWinner(states: seq<CrashState>, w: int) returns (r: int)
    requires 0 <= w < |states| && Wins(states, w)
    ensures 0 <= r <= w && SameAs(states[r], states[w]) && Represents(states, r)
    decreases w
  {
    if Decided(states, w) {
      var y :| 0 <= y < w && SameAs(states[y], states[w]) && Wins(states, y);
      r := FirstWinner(states, y);
    } else {
      r := w;
    }
  }
}
