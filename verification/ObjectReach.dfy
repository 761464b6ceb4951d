/** What the walk over an HDF5 file reaches, and what its verdict is worth. */
module ObjectReach {
  import opened Options
  import opened Sequences
  import opened Digraphs
  import opened ObjectWalks

  // -------------------------------------------------------------------- what is reached

  /** One call makes the other. */
  ghost predicate Leads(f: File, p: Place, q: Place) { exists name :: Go(q, name) in Program(f, p) }

  ghost function Leading(f: File): (Place, Place) -> bool { (p, q) => Leads(f, p, q) }

  ghost predicate IsRun<T>(step: (T, T) -> bool, run: seq<T>) {
    |run| > 0 && forall i {:trigger run[i]} :: 0 <= i < |run| - 1 ==> step(run[i], run[i + 1])
  }

  /** A call of q can come about from a call of p, in any number of steps. */
  ghost predicate Reaches(f: File, p: Place, q: Place) {
    exists run :: IsRun(Leading(f), run) && run[0] == p && run[|run| - 1] == q
  }

  lemma ReachesSelf(f: File, p: Place)
    ensures Reaches(f, p, p)
  {
    assert IsRun(Leading(f), [p]);
  }

  lemma ReachesStep(f: File, p: Place, m: Place, q: Place)
    requires Leads(f, p, m) && Reaches(f, m, q)
    ensures Reaches(f, p, q)
  {
    var run :| IsRun(Leading(f), run) && run[0] == m && run[|run| - 1] == q;
    Prepend(Leading(f), p, run);
  }

  lemma Prepend<T>(step: (T, T) -> bool, p: T, run: seq<T>)
    requires IsRun(step, run) && step(p, run[0])
    ensures IsRun(step, [p] + run)
  {
    var longer := [p] + run;
    forall i | 0 <= i < |longer| - 1 ensures step(longer[i], longer[i + 1]) {
      if i > 0 { assert longer[i] == run[i - 1] && longer[i + 1] == run[i - 1 + 1]; }
    }
  }

  /** What passes on from step to step. */
  lemma {:induction false} PassesOn<T(!new)>(step: (T, T) -> bool, inv: T -> bool, run: seq<T>)
    requires forall a, b :: inv(a) && step(a, b) ==> inv(b)
    requires IsRun(step, run) && inv(run[0])
    ensures inv(run[|run| - 1])
  {
    if |run| > 1 {
      assert step(run[0], run[0 + 1]);
      forall i | 0 <= i < |run[1..]| - 1 ensures step(run[1..][i], run[1..][i + 1]) {
        assert run[1..][i] == run[i + 1];
      }
      PassesOn(step, inv, run[1..]);
    }
  }

  /** What a call does that does not come back at once. */
  lemma Entered(f: File, d: nat, seen: seq<Addr>, p: Place)
    requires Walk(f, d, seen, p).Some? && !(p.HeaderAt? && p.addr in seen)
    ensures d > 0 && Exec(f, d - 1, Start(f, seen, p), Program(f, p)).Some?
    ensures Walk(f, d, seen, p).value == Ended(f, p, Exec(f, d - 1, Start(f, seen, p), Program(f, p)).value)
  {}

  lemma {:induction false} WalkGrows(f: File, d: nat, seen: seq<Addr>, p: Place)
    requires Walk(f, d, seen, p).Some?
    ensures var r := Walk(f, d, seen, p).value;
            seen <= r.seen && (NoDup(seen) ==> NoDup(r.seen)) && (p.HeaderAt? ==> p.addr in r.seen)
    decreases d, 0
  {
    if !(p.HeaderAt? && p.addr in seen) {
      var start := Start(f, seen, p);
      ExecGrows(f, d - 1, start, Program(f, p));
      if p.HeaderAt? { assert start.seen[|seen|] == p.addr; }
    }
  }

  lemma {:induction false} ExecGrows(f: File, d: nat, st: State, jobs: seq<Job>)
    requires Exec(f, d, st, jobs).Some?
    ensures var s := Exec(f, d, st, jobs).value; st.seen <= s.seen && (NoDup(st.seen) ==> NoDup(s.seen))
    decreases d, 1 + |jobs|
  {
    if jobs != [] {
      var front, last := jobs[..|jobs| - 1], jobs[|jobs| - 1];
      ExecGrows(f, d, st, front);
      var b := Exec(f, d, st, front).value;
      if !b.halted && last.Go? { WalkGrows(f, d, b.seen, last.place); }
    }
  }

  /** Only what can be reached is expanded. */
  lemma {:induction false} WalkSound(f: File, d: nat, seen: seq<Addr>, p: Place, b: Addr)
    requires Walk(f, d, seen, p).Some? && b in Walk(f, d, seen, p).value.seen && b !in seen
    ensures Reaches(f, p, HeaderAt(b))
    decreases d, 0
  {
    if p.HeaderAt? && p.addr == b {
      ReachesSelf(f, p);
    } else {
      var q := ExecSound(f, d - 1, Start(f, seen, p), Program(f, p), b);
      ReachesStep(f, p, q, HeaderAt(b));
    }
  }

  lemma {:induction false} ExecSound(f: File, d: nat, st: State, jobs: seq<Job>, b: Addr) returns (q: Place)
    requires Exec(f, d, st, jobs).Some? && b in Exec(f, d, st, jobs).value.seen && b !in st.seen
    ensures (exists name :: Go(q, name) in jobs) && Reaches(f, q, HeaderAt(b))
    decreases d, 1 + |jobs|
  {
    var front, last := jobs[..|jobs| - 1], jobs[|jobs| - 1];
    var before := Exec(f, d, st, front).value;
    if b in before.seen {
      q := ExecSound(f, d, st, front, b);
      var name :| Go(q, name) in front;
      assert Go(q, name) in jobs;
    } else {
      q := last.place;
      WalkSound(f, d, before.seen, q, b);
      assert Go(q, last.name) in jobs;
    }
  }

  // -------------------------------------------------------------------- B-trees with cycles

  /** The steps from one version 1 B-tree node to another. */
  function TreeEdges(f: File): Edges<Addr> {
    set a, c | a in f.trees.Keys && f.trees[a].level > 0 && c in f.trees[a].kids :: (a, c)
  }

  /** No cycle of B-tree nodes can be reached from a node over such steps. */
  ghost predicate Stops(f: File, t: Addr) {
    forall u :: u == t || Reach(TreeEdges(f), t, u) ==> !Reach(TreeEdges(f), u, u)
  }

  lemma TreeLeads(f: File, a: Addr, c: Addr)
    ensures Leads(f, TreeAt(a), TreeAt(c)) <==> (a, c) in TreeEdges(f)
  {
    if (a, c) in TreeEdges(f) {
      var k :| 0 <= k < |f.trees[a].kids| && f.trees[a].kids[k] == c;
      assert Program(f, TreeAt(a))[k] == Go(TreeAt(c), None);
    }
    if name :| Go(TreeAt(c), name) in Program(f, TreeAt(a)) {
      var k :| 0 <= k < |Program(f, TreeAt(a))| && Program(f, TreeAt(a))[k] == Go(TreeAt(c), name);
      assert f.trees[a].kids[k] == c;
    }
  }

  /** Every call of a list without early exits is made. */
  lemma {:induction false} EachCalled(f: File, d: nat, st: State, jobs: seq<Job>, q: Place, name: Option<string>)
    returns (s: State)
    requires Exec(f, d, st, jobs).Some? && !st.halted && StopOnFailure !in jobs && Go(q, name) in jobs
    ensures !s.halted && Walk(f, d, s.seen, q).Some?
    decreases |jobs|
  {
    var front, last := jobs[..|jobs| - 1], jobs[|jobs| - 1];
    NeverHalted(f, d, st, front);
    if last == Go(q, name) {
      s := Exec(f, d, st, front).value;
    } else {
      s := EachCalled(f, d, st, front, q, name);
    }
  }

  lemma {:induction false} NeverHalted(f: File, d: nat, st: State, jobs: seq<Job>)
    requires Exec(f, d, st, jobs).Some? && !st.halted && StopOnFailure !in jobs
    ensures !Exec(f, d, st, jobs).value.halted
    decreases |jobs|
  {
    if jobs != [] { NeverHalted(f, d, st, jobs[..|jobs| - 1]); }
  }

  /** The first step of a path. */
  lemma ReachStarts(e: Edges<Addr>, a: Addr, b: Addr) returns (c: Addr)
    requires Reach(e, a, b)
    ensures (a, c) in e && (c == b || Reach(e, c, b))
  {
    var p :| PathFromTo(e, p, a, b);
    c := p[1];
    assert (p[0], p[1]) in e;
    if |p| > 2 {
      forall i | 0 <= i < |p[1..]| - 1 ensures (p[1..][i], p[1..][i + 1]) in e { assert p[1..][i] == p[i + 1]; }
      assert PathFromTo(e, p[1..], c, b);
    }
  }

  /** Some walk of the B-tree node, nested at most d calls deep, comes to an end. */
  ghost predicate Ends(f: File, d: nat, t: Addr) { exists seen :: Walk(f, d, seen, TreeAt(t)).Some? }

  lemma KidEnds(f: File, d: nat, t: Addr, c: Addr)
    requires Ends(f, d, t) && (t, c) in TreeEdges(f)
    ensures d > 0 && Ends(f, d - 1, c)
  {
    var seen :| Walk(f, d, seen, TreeAt(t)).Some?;
    TreeLeads(f, t, c);
    var name :| Go(TreeAt(c), name) in Program(f, TreeAt(t));
    var s := EachCalled(f, d - 1, Start(f, seen, TreeAt(t)), Program(f, TreeAt(t)), TreeAt(c), name);
  }

  /** A walk of a B-tree that comes to an end met no cycle. */
  lemma {:induction false} EndedStops(f: File, d: nat, t: Addr, u: Addr)
    requires Ends(f, d, t) && (u == t || Reach(TreeEdges(f), t, u))
    ensures !Reach(TreeEdges(f), u, u)
    decreases d
  {
    if Reach(TreeEdges(f), u, u) {
      var c := ReachStarts(TreeEdges(f), t, u);
      KidEnds(f, d, t, c);
      EndedStops(f, d - 1, c, u);
    }
  }

  // ------------------------------------------------------------------------- defects

  predicate Quiet(job: Job) { (job.Count? ==> job.failures == 0) && (job.Restart? ==> job.count == 0) }

  ghost predicate AllQuiet(jobs: seq<Job>) { forall job :: job in jobs ==> Quiet(job) }

  /** Nothing is wrong with what is read at a place itself. */
  ghost predicate Fine(f: File, p: Place) { !OwnFails(f, p) && AllQuiet(Program(f, p)) }

  /** Something is wrong with what can be reached. */
  ghost predicate Faulty(f: File, p: Place) { exists q :: Reaches(f, p, q) && !Fine(f, q) }

  lemma FaultyNext(f: File, p: Place, m: Place)
    requires Leads(f, p, m) && Faulty(f, m)
    ensures Faulty(f, p)
  {
    var q :| Reaches(f, m, q) && !Fine(f, q);
    ReachesStep(f, p, m, q);
  }

  /** No failure is reported without a defect. */
  lemma {:induction false} FailureHasCause(f: File, d: nat, seen: seq<Addr>, p: Place)
    requires Walk(f, d, seen, p).Some? && Walk(f, d, seen, p).value.failed
    ensures Faulty(f, p)
    decreases d, 0
  {
    if !Fine(f, p) {
      ReachesSelf(f, p);
    } else {
      Entered(f, d, seen, p);
      var m := CountHasCause(f, d - 1, Start(f, seen, p), Program(f, p));
      FaultyNext(f, p, m);
    }
  }

  lemma {:induction false} CountHasCause(f: File, d: nat, st: State, jobs: seq<Job>) returns (m: Place)
    requires Exec(f, d, st, jobs).Some? && st.count == 0 && Exec(f, d, st, jobs).value.count != 0
    requires AllQuiet(jobs)
    ensures (exists name :: Go(m, name) in jobs) && Faulty(f, m)
    decreases d, 1 + |jobs|
  {
    var front, last := jobs[..|jobs| - 1], jobs[|jobs| - 1];
    var before := Exec(f, d, st, front).value;
    if before.count != 0 {
      m := CountHasCause(f, d, st, front);
      var name :| Go(m, name) in front;
      assert Go(m, name) in jobs;
    } else {
      assert Quiet(last);
      m := last.place;
      assert Go(m, last.name) in jobs;
      FailureHasCause(f, d, before.seen, m);
    }
  }

  // ------------------------------------------------------------------ what is not left out

  /** No failure that was counted gets lost: the count is only set while nothing can have been counted. */
  ghost predicate Harmless(jobs: seq<Job>) {
    forall i {:trigger jobs[i]} :: 0 <= i < |jobs| && jobs[i].Restart? ==>
      jobs[i].count == 0 && forall k :: 0 <= k < i ==> !jobs[k].Go? && Quiet(jobs[k])
  }

  ghost predicate Mild(f: File, p: Place) { forall q :: Reaches(f, p, q) ==> Harmless(Program(f, q)) }

  lemma MildNext(f: File, p: Place, m: Place)
    requires Mild(f, p) && Leads(f, p, m)
    ensures Mild(f, m)
  {
    forall q | Reaches(f, m, q) ensures Harmless(Program(f, q)) { ReachesStep(f, p, m, q); }
  }

  /** q is p, or comes below it without an object header in between. */
  ghost predicate Below(f: File, n: nat, p: Place, q: Place) {
    p == q || (n > 0 && exists m :: Leads(f, p, m) && !m.HeaderAt? && Below(f, n - 1, m, q))
  }

  /** Headers called from q are in the table, its B-tree has no cycle and, if asked for, nothing is wrong with q. */
  ghost predicate Settled(f: File, seen: seq<Addr>, q: Place, clean: bool) {
    && (forall c {:trigger HeaderAt(c)} :: Leads(f, q, HeaderAt(c)) ==> c in seen)
    && (q.TreeAt? ==> Stops(f, q.addr))
    && (clean ==> Fine(f, q))
  }

  ghost predicate AllSettled(f: File, seen: seq<Addr>, p: Place, clean: bool) {
    forall n: nat, q :: Below(f, n, p, q) ==> Settled(f, seen, q, clean)
  }

  ghost predicate Holds(f: File, seen: seq<Addr>, p: Place, clean: bool) {
    if p.HeaderAt? then p.addr in seen else AllSettled(f, seen, p, clean)
  }

  /** All is settled below the addresses after the first n. */
  ghost predicate ClosedFrom(f: File, seen: seq<Addr>, n: nat, clean: bool) {
    forall i {:trigger seen[i]} :: n <= i < |seen| ==> AllSettled(f, seen, HeaderAt(seen[i]), clean)
  }

  lemma SettledMore(f: File, s: seq<Addr>, t: seq<Addr>, p: Place, clean: bool)
    requires s <= t
    ensures AllSettled(f, s, p, clean) ==> AllSettled(f, t, p, clean)
    ensures Holds(f, s, p, clean) ==> Holds(f, t, p, clean)
  {
    assert forall c :: c in s ==> c in t;
    if AllSettled(f, s, p, clean) {
      forall n: nat, q | Below(f, n, p, q) ensures Settled(f, t, q, clean) { assert Settled(f, s, q, clean); }
    }
  }

  lemma ClosedJoin(f: File, s: seq<Addr>, t: seq<Addr>, n: nat, clean: bool)
    requires s <= t && ClosedFrom(f, s, n, clean) && ClosedFrom(f, t, |s|, clean)
    ensures ClosedFrom(f, t, n, clean)
  {
    forall i | n <= i < |t| ensures AllSettled(f, t, HeaderAt(t[i]), clean) {
      if i < |s| {
        assert s[i] == t[i];
        SettledMore(f, s, t, HeaderAt(s[i]), clean);
      }
    }
  }

  lemma SettledFrom(f: File, seen: seq<Addr>, p: Place, clean: bool)
    requires forall m :: Leads(f, p, m) ==> Holds(f, seen, m, clean)
    requires (clean ==> Fine(f, p)) && (p.TreeAt? ==> Stops(f, p.addr))
    ensures AllSettled(f, seen, p, clean)
  {
    forall n: nat, q | Below(f, n, p, q) ensures Settled(f, seen, q, clean) {
      if p == q {
        forall c | Leads(f, p, HeaderAt(c)) ensures c in seen { assert Holds(f, seen, HeaderAt(c), clean); }
      } else {
        var m :| Leads(f, p, m) && !m.HeaderAt? && Below(f, n - 1, m, q);
        assert Holds(f, seen, m, clean);
      }
    }
  }

  lemma {:induction false} NothingCounted(f: File, d: nat, st: State, jobs: seq<Job>)
    requires !st.halted && st.count == 0 && forall k :: 0 <= k < |jobs| ==> !jobs[k].Go? && Quiet(jobs[k])
    ensures Exec(f, d, st, jobs) == Some(st)
    decreases |jobs|
  {
    if jobs != [] {
      NothingCounted(f, d, st, jobs[..|jobs| - 1]);
      assert Quiet(jobs[|jobs| - 1]);
    }
  }

  lemma HarmlessFront(jobs: seq<Job>)
    requires Harmless(jobs) && jobs != []
    ensures Harmless(jobs[..|jobs| - 1])
  {
    var front := jobs[..|jobs| - 1];
    forall i | 0 <= i < |front| && front[i].Restart?
      ensures front[i].count == 0 && forall k :: 0 <= k < i ==> !front[k].Go? && Quiet(front[k])
    {
      assert front[i] == jobs[i];
      forall k | 0 <= k < i ensures !front[k].Go? && Quiet(front[k]) { assert front[k] == jobs[k]; }
    }
  }

  /** The count does not go below zero, and a call is left only with failures counted. */
  lemma {:induction false} CountsUp(f: File, d: nat, st: State, jobs: seq<Job>)
    requires Exec(f, d, st, jobs).Some? && st.count == 0 && !st.halted && Harmless(jobs)
    ensures var s := Exec(f, d, st, jobs).value; s.count >= 0 && (s.halted ==> s.count > 0)
    decreases |jobs|
  {
    if jobs != [] {
      HarmlessFront(jobs);
      CountsUp(f, d, st, jobs[..|jobs| - 1]);
      if jobs[|jobs| - 1].Restart? { NothingCounted(f, d, st, jobs[..|jobs| - 1]); }
    }
  }

  ghost predicate AllMild(f: File, jobs: seq<Job>) { forall name, q :: Go(q, name) in jobs ==> Mild(f, q) }

  ghost predicate AllHold(f: File, seen: seq<Addr>, jobs: seq<Job>, clean: bool) {
    forall name, q :: Go(q, name) in jobs ==> Holds(f, seen, q, clean)
  }

  lemma MildJobs(f: File, p: Place)
    requires Mild(f, p)
    ensures AllMild(f, Program(f, p)) && Harmless(Program(f, p))
  {
    ReachesSelf(f, p);
    forall name, q | Go(q, name) in Program(f, p) ensures Mild(f, q) { MildNext(f, p, q); }
  }

  lemma TreeStops(f: File, d: nat, seen: seq<Addr>, p: Place)
    requires Walk(f, d, seen, p).Some? && p.TreeAt?
    ensures Stops(f, p.addr)
  {
    assert Ends(f, d, p.addr);
    forall u | u == p.addr || Reach(TreeEdges(f), p.addr, u) ensures !Reach(TreeEdges(f), u, u) {
      EndedStops(f, d, p.addr, u);
    }
  }

  /** Where nothing was left out, or nothing failed and no failure can get lost, all is settled below the call. */
  lemma {:induction false} WalkCloses(f: File, d: nat, seen: seq<Addr>, p: Place, clean: bool)
    requires Walk(f, d, seen, p).Some?
    requires var r := Walk(f, d, seen, p).value; if clean then !r.failed && Mild(f, p) else !r.cut
    ensures var r := Walk(f, d, seen, p).value;
            !r.cut && Holds(f, r.seen, p, clean) && ClosedFrom(f, r.seen, |seen|, clean)
    decreases d, 0
  {
    if !(p.HeaderAt? && p.addr in seen) {
      var start, jobs := Start(f, seen, p), Program(f, p);
      if clean { MildJobs(f, p); }
      ExecCloses(f, d - 1, start, jobs, clean);
      ExecGrows(f, d - 1, start, jobs);
      if p.TreeAt? { TreeStops(f, d, seen, p); }
      CallSettled(f, seen, p, Exec(f, d - 1, start, jobs).value.seen, clean);
    }
  }

  /** What is settled for all jobs of a call is settled for the call. */
  lemma CallSettled(f: File, seen: seq<Addr>, p: Place, after: seq<Addr>, clean: bool)
    requires (p.TreeAt? ==> Stops(f, p.addr)) && AllHold(f, after, Program(f, p), clean)
    requires clean ==> !OwnFails(f, p) && AllQuiet(Program(f, p))
    requires Start(f, seen, p).seen <= after && ClosedFrom(f, after, |Start(f, seen, p).seen|, clean)
    ensures Holds(f, after, p, clean) && ClosedFrom(f, after, |seen|, clean)
  {
    SettledFrom(f, after, p, clean);
    if p.HeaderAt? { assert after[|seen|] == (seen + [p.addr])[|seen|] == p.addr; }
  }

  lemma {:induction false} ExecCloses(f: File, d: nat, st: State, jobs: seq<Job>, clean: bool)
    requires Exec(f, d, st, jobs).Some? && !st.halted && !st.cut && st.count == 0
    requires var s := Exec(f, d, st, jobs).value;
             if clean then s.count == 0 && Harmless(jobs) && AllMild(f, jobs) else !s.cut
    ensures var s := Exec(f, d, st, jobs).value;
            && !s.cut && ClosedFrom(f, s.seen, |st.seen|, clean) && AllHold(f, s.seen, jobs, clean)
            && (clean ==> AllQuiet(jobs))
    decreases d, 1 + |jobs|
  {
    if jobs != [] {
      var front, last := jobs[..|jobs| - 1], jobs[|jobs| - 1];
      var b := Exec(f, d, st, front).value;
      assert jobs == front + [last];
      if clean { FrontUncounted(f, d, st, jobs); }
      ExecCloses(f, d, st, front, clean);
      if last.Go? {
        assert last == Go(last.place, last.name);
        WalkGrows(f, d, b.seen, last.place);
        WalkCloses(f, d, b.seen, last.place, clean);
        ExecGrows(f, d, st, front);
        JobsSettled(f, |st.seen|, b.seen, Walk(f, d, b.seen, last.place).value.seen, front, last, clean);
      }
    }
  }

  /** One more call that is settled. */
  lemma JobsSettled(f: File, n: nat, s: seq<Addr>, t: seq<Addr>, front: seq<Job>, last: Job, clean: bool)
    requires n <= |s| && s <= t && ClosedFrom(f, s, n, clean) && ClosedFrom(f, t, |s|, clean)
    requires AllHold(f, s, front, clean) && last.Go? && Holds(f, t, last.place, clean)
    ensures ClosedFrom(f, t, n, clean) && AllHold(f, t, front + [last], clean)
  {
    ClosedJoin(f, s, t, n, clean);
    forall name, q | Go(q, name) in front + [last] ensures Holds(f, t, q, clean) {
      if Go(q, name) in front { SettledMore(f, s, t, q, clean); }
    }
  }

  /** If nothing is counted at the end of harmless jobs, nothing was counted before the last of them. */
  lemma FrontUncounted(f: File, d: nat, st: State, jobs: seq<Job>)
    requires Exec(f, d, st, jobs).Some? && st.count == 0 && !st.halted && Harmless(jobs) && jobs != []
    requires Exec(f, d, st, jobs).value.count == 0
    ensures var b := Exec(f, d, st, jobs[..|jobs| - 1]).value; b.count == 0 && !b.halted
    ensures Harmless(jobs[..|jobs| - 1]) && Quiet(jobs[|jobs| - 1])
  {
    HarmlessFront(jobs);
    CountsUp(f, d, st, jobs[..|jobs| - 1]);
    if jobs[|jobs| - 1].Restart? { NothingCounted(f, d, st, jobs[..|jobs| - 1]); }
  }

  lemma HeldIsSettled(f: File, seen: seq<Addr>, p: Place, clean: bool)
    requires ClosedFrom(f, seen, 0, clean) && Holds(f, seen, p, clean)
    ensures AllSettled(f, seen, p, clean) && Settled(f, seen, p, clean)
  {
    if p.HeaderAt? { var i :| 0 <= i < |seen| && seen[i] == p.addr; }
    assert AllSettled(f, seen, p, clean);
    assert Below(f, 0, p, p);
  }

  lemma HoldsNext(f: File, seen: seq<Addr>, p: Place, m: Place, clean: bool)
    requires ClosedFrom(f, seen, 0, clean) && Holds(f, seen, p, clean) && Leads(f, p, m)
    ensures Holds(f, seen, m, clean)
  {
    HeldIsSettled(f, seen, p, clean);
    if !m.HeaderAt? {
      forall n: nat, q | Below(f, n, m, q) ensures Settled(f, seen, q, clean) { assert Below(f, n + 1, p, q); }
    }
  }

  lemma HoldsReached(f: File, seen: seq<Addr>, p: Place, q: Place, clean: bool)
    requires ClosedFrom(f, seen, 0, clean) && Holds(f, seen, p, clean) && Reaches(f, p, q)
    ensures Holds(f, seen, q, clean)
  {
    var inv := (x: Place) => Holds(f, seen, x, clean);
    forall a, b | inv(a) && Leads(f, a, b) ensures inv(b) { HoldsNext(f, seen, a, b, clean); }
    var run :| IsRun(Leading(f), run) && run[0] == p && run[|run| - 1] == q;
    PassesOn(Leading(f), inv, run);
  }

  // -------------------------------------------------------------------- the main results

  /** A walk from the root expands no address twice and only reachable ones: all, unless something was left out. */
  lemma WalkIsReachability(f: File, d: nat, root: Addr)
    requires Walk(f, d, [], HeaderAt(root)).Some?
    ensures var r := Walk(f, d, [], HeaderAt(root)).value;
            && NoDup(r.seen) && (forall b :: b in r.seen ==> Reaches(f, HeaderAt(root), HeaderAt(b)))
            && (!r.cut ==> forall b :: Reaches(f, HeaderAt(root), HeaderAt(b)) ==> b in r.seen)
  {
    var r := Walk(f, d, [], HeaderAt(root)).value;
    WalkGrows(f, d, [], HeaderAt(root));
    forall b | b in r.seen ensures Reaches(f, HeaderAt(root), HeaderAt(b)) { WalkSound(f, d, [], HeaderAt(root), b); }
    if !r.cut {
      WalkCloses(f, d, [], HeaderAt(root), false);
      forall b | Reaches(f, HeaderAt(root), HeaderAt(b)) ensures b in r.seen {
        HoldsReached(f, r.seen, HeaderAt(root), HeaderAt(b), false);
      }
    }
  }

  /** No dense storage can be reached. */
  ghost predicate Sparse(f: File, p: Place) { forall q :: Reaches(f, p, q) ==> !q.DenseNode? }

  ghost predicate AllSparse(f: File, jobs: seq<Job>) { forall name, q :: Go(q, name) in jobs ==> Sparse(f, q) }

  lemma SparseCalls(f: File, p: Place)
    requires Sparse(f, p)
    ensures AllSparse(f, Program(f, p)) && StopOnFailure !in Program(f, p)
  {
    ReachesSelf(f, p);
    NoEarlyExit(f, p);
    forall name, q | Go(q, name) in Program(f, p) ensures Sparse(f, q) {
      forall x | Reaches(f, q, x) ensures !x.DenseNode? { ReachesStep(f, p, q, x); }
    }
  }

  /** Nothing is left out where there is no dense storage. */
  lemma {:induction false} SparseUncut(f: File, d: nat, seen: seq<Addr>, p: Place)
    requires Walk(f, d, seen, p).Some? && Sparse(f, p)
    ensures !Walk(f, d, seen, p).value.cut
    decreases d, 0
  {
    if !(p.HeaderAt? && p.addr in seen) {
      SparseCalls(f, p);
      SparseJobs(f, d - 1, Start(f, seen, p), Program(f, p));
    }
  }

  lemma {:induction false} SparseJobs(f: File, d: nat, st: State, jobs: seq<Job>)
    requires Exec(f, d, st, jobs).Some? && !st.halted && !st.cut && StopOnFailure !in jobs && AllSparse(f, jobs)
    ensures !Exec(f, d, st, jobs).value.cut
    decreases d, 1 + |jobs|
  {
    if jobs != [] {
      var front, last := jobs[..|jobs| - 1], jobs[|jobs| - 1];
      NeverHalted(f, d, st, front);
      SparseJobs(f, d, st, front);
      if last.Go? {
        assert Go(last.place, last.name) in jobs;
        SparseUncut(f, d, Exec(f, d, st, front).value.seen, last.place);
      }
    }
  }

  lemma NoEarlyExit(f: File, p: Place)
    requires !p.DenseNode?
    ensures StopOnFailure !in Program(f, p)
  {
    match p
    case HeaderAt(a) => if a in f.headers { NoExitInMessages(f.headers[a].messages); }
    case TreeAt(a) =>
    case SymbolsAt(a) => if a in f.symbols { NoExitInLinks(f.symbols[a].entries, true); }
  }

  lemma {:induction false} NoExitInLinks(links: seq<Link>, named: bool)
    ensures forall job :: job in LinkJobs(links, named) ==> job.Go? && job.place.HeaderAt?
  {
    if links != [] { NoExitInLinks(links[..|links| - 1], named); }
  }

  lemma {:induction false} NoExitInMessages(ms: seq<Message>)
    ensures StopOnFailure !in Jobs(ms)
  {
    if ms != [] {
      NoExitInMessages(ms[..|ms| - 1]);
      NoExitInMessage(ms[|ms| - 1]);
    }
  }

  lemma NoExitInMessage(m: Message)
    ensures StopOnFailure !in MessageJobs(m)
  {}

  /** A failure is never reported without a cause. Where no failure can get lost, every cause is reported, and a walk
      that does not fail has left nothing out. */
  lemma Verdict(f: File, d: nat, root: Addr)
    requires Walk(f, d, [], HeaderAt(root)).Some?
    ensures var r := Walk(f, d, [], HeaderAt(root)).value;
            && (r.failed ==> Faulty(f, HeaderAt(root)))
            && (Mild(f, HeaderAt(root)) ==> (r.failed <==> Faulty(f, HeaderAt(root))) && (!r.failed ==> !r.cut))
  {
    var r := Walk(f, d, [], HeaderAt(root)).value;
    if r.failed {
      FailureHasCause(f, d, [], HeaderAt(root));
    } else if Mild(f, HeaderAt(root)) {
      WalkCloses(f, d, [], HeaderAt(root), true);
      forall q | Reaches(f, HeaderAt(root), q) ensures Fine(f, q) {
        HoldsReached(f, r.seen, HeaderAt(root), q, true);
        HeldIsSettled(f, r.seen, q, true);
      }
    }
  }

  // ------------------------------------------------------------ when failures do get lost

  /** How many failures there are among the jobs, each on its turn. */
  function Failures(f: File, d: nat, st: State, jobs: seq<Job>): nat {
    if jobs == [] then 0
    else
      var front, last := jobs[..|jobs| - 1], jobs[|jobs| - 1];
      var b := Exec(f, d, st, front);
      Failures(f, d, st, front) +
      match last
      case Go(p, name) =>
        if b.Some? && Walk(f, d, b.value.seen, p).Some? && Walk(f, d, b.value.seen, p).value.failed then 1 else 0
      case Count(n) => n
      case _ => 0
  }

  lemma {:induction false} CountIsFailures(f: File, d: nat, st: State, jobs: seq<Job>)
    requires Exec(f, d, st, jobs).Some? && !st.halted
    requires forall job :: job in jobs ==> !job.Restart? && !job.StopOnFailure?
    ensures Exec(f, d, st, jobs).value.count == st.count + Failures(f, d, st, jobs)
    decreases |jobs|
  {
    if jobs != [] {
      var front, last := jobs[..|jobs| - 1], jobs[|jobs| - 1];
      assert forall job :: job in front ==> job in jobs;
      NeverHalted(f, d, st, front);
      CountIsFailures(f, d, st, front);
      assert last in jobs;
    }
  }

  lemma {:induction false} ExecConcat(f: File, d: nat, st: State, a: seq<Job>, b: seq<Job>)
    ensures Exec(f, d, st, a + b) ==
            var s := Exec(f, d, st, a); if s.None? then None else Exec(f, d, s.value, b)
    decreases |b|
  {
    if b == [] {
      assert a + b == a;
    } else {
      ExecConcat(f, d, st, a, b[..|b| - 1]);
      assert (a + b)[..|a + b| - 1] == a + b[..|b| - 1];
    }
  }

  lemma OneJob(f: File, d: nat, st: State, jobs: seq<Job>)
    requires |jobs| <= 1
    ensures Exec(f, d, st, jobs) == if jobs == [] then Some(st) else Step(f, d, st, jobs[0])
  {
    if jobs != [] { assert jobs[..0] == []; }
  }

  /** The first job, then the others. */
  lemma ExecFirst(f: File, d: nat, st: State, job: Job, rest: seq<Job>)
    ensures Exec(f, d, st, [job] + rest) ==
            var s := Step(f, d, st, job); if s.None? then None else Exec(f, d, s.value, rest)
  {
    ExecConcat(f, d, st, [job], rest);
    OneJob(f, d, st, [job]);
  }

  /** Nothing happens once a call is to be left. */
  lemma {:induction false} Halted(f: File, d: nat, st: State, jobs: seq<Job>)
    requires st.halted
    ensures Exec(f, d, st, jobs) == Some(if jobs == [] then st else st.(cut := true))
    decreases |jobs|
  {
    if jobs != [] { Halted(f, d, st, jobs[..|jobs| - 1]); }
  }

  lemma {:induction false} JobsConcat(a: seq<Message>, b: seq<Message>)
    ensures Jobs(a + b) == Jobs(a) + Jobs(b)
    decreases |b|
  {
    if b == [] {
      assert a + b == a;
    } else {
      var front, last := b[..|b| - 1], b[|b| - 1];
      JobsConcat(a, front);
      LastPut(a, b);
      JobsLast(b, front, last);
      JobsLast(a + b, a + front, last);
      Associate(Jobs(a), Jobs(front), MessageJobs(last));
    }
  }

  lemma LastPut<T>(a: seq<T>, b: seq<T>)
    requires b != []
    ensures b == b[..|b| - 1] + [b[|b| - 1]] && a + b == (a + b[..|b| - 1]) + [b[|b| - 1]]
  {}

  lemma JobsLast(ms: seq<Message>, front: seq<Message>, m: Message)
    requires ms == front + [m]
    ensures Jobs(ms) == Jobs(front) + MessageJobs(m)
  {
    assert ms[..|ms| - 1] == front;
  }

  ghost predicate NoExternal(ms: seq<Message>) { forall m :: m in ms ==> !m.ExternalFilesMessage? }

  lemma {:induction false} NoExternalNoRestart(ms: seq<Message>)
    requires NoExternal(ms)
    ensures forall job :: job in Jobs(ms) ==> !job.Restart? && !job.StopOnFailure?
  {
    if ms != [] {
      var front, last := ms[..|ms| - 1], ms[|ms| - 1];
      assert forall m :: m in front ==> m in ms;
      NoExternalNoRestart(front);
      assert last in ms;
    }
  }

  /** Without external-file messages a header passes exactly when its own checks do and no message fails. */
  lemma PlainHeader(f: File, d: nat, seen: seq<Addr>, a: Addr, r: Outcome)
    requires a in f.headers && a !in seen && NoExternal(f.headers[a].messages)
    requires Walk(f, d, seen, HeaderAt(a)) == Some(r)
    ensures d > 0
    ensures !r.failed <==>
            !OwnFails(f, HeaderAt(a))
            && Failures(f, d - 1, Start(f, seen, HeaderAt(a)), Jobs(f.headers[a].messages)) == 0
  {
    Entered(f, d, seen, HeaderAt(a));
    NoExternalNoRestart(f.headers[a].messages);
    CountIsFailures(f, d - 1, Start(f, seen, HeaderAt(a)), Jobs(f.headers[a].messages));
  }

  /** With some, it passes exactly when its own checks do and, behind the last of them, there are no failures if the
      heap of that message is good, and one failure if it is bad: what came before is forgotten. */
  lemma HeaderWithExternal(f: File, d: nat, seen: seq<Addr>, a: Addr, before: seq<Message>, good: bool,
                           after: seq<Message>, r: Outcome)
    returns (s: State)
    requires a in f.headers && a !in seen && f.headers[a].messages == before + [ExternalFilesMessage(good)] + after
    requires NoExternal(after) && Walk(f, d, seen, HeaderAt(a)) == Some(r)
    ensures d > 0 && Exec(f, d - 1, Start(f, seen, HeaderAt(a)), Jobs(before)) == Some(s)
    ensures !r.failed <==>
            !OwnFails(f, HeaderAt(a)) && Failures(f, d - 1, s, Jobs(after)) == if good then 0 else 1
  {
    Entered(f, d, seen, HeaderAt(a));
    s := MessagesWithExternal(f, d - 1, Start(f, seen, HeaderAt(a)), before, good, after, Program(f, HeaderAt(a)));
  }

  lemma MessagesWithExternal(f: File, d: nat, st: State, before: seq<Message>, good: bool, after: seq<Message>,
                             jobs: seq<Job>)
    returns (s: State)
    requires jobs == Jobs(before + [ExternalFilesMessage(good)] + after) && NoExternal(after)
    requires Exec(f, d, st, jobs).Some? && !st.halted
    ensures Exec(f, d, st, Jobs(before)) == Some(s)
    ensures Exec(f, d, st, jobs).value.count == Failures(f, d, s, Jobs(after)) - if good then 0 else 1
  {
    var v := if good then 0 else -1;
    JobsAround(before, good, after, v);
    NoExitInMessages(before);
    NoExternalNoRestart(after);
    RestartBetween(f, d, st, Jobs(before), v, Jobs(after));
    s := Exec(f, d, st, Jobs(before)).value;
  }

  lemma JobsAround(before: seq<Message>, good: bool, after: seq<Message>, v: int)
    requires v == if good then 0 else -1
    ensures Jobs(before + [ExternalFilesMessage(good)] + after) == Jobs(before) + [Restart(v)] + Jobs(after)
  {
    JobsConcat(before + [ExternalFilesMessage(good)], after);
    JobsLast(before + [ExternalFilesMessage(good)], before, ExternalFilesMessage(good));
  }

  lemma RestartBetween(f: File, d: nat, st: State, a: seq<Job>, v: int, b: seq<Job>)
    requires Exec(f, d, st, a + [Restart(v)] + b).Some? && !st.halted && StopOnFailure !in a
    requires forall job :: job in b ==> !job.Restart? && !job.StopOnFailure?
    ensures Exec(f, d, st, a).Some?
    ensures Exec(f, d, st, a + [Restart(v)] + b).value.count == v + Failures(f, d, Exec(f, d, st, a).value, b)
  {
    ExecConcat(f, d, st, a + [Restart(v)], b);
    ExecMore(f, d, st, a, Restart(v));
    NeverHalted(f, d, st, a);
    var s := Exec(f, d, st, a).value;
    CountIsFailures(f, d, s.(count := v), b);
    FailuresSame(f, d, s, v, b);
  }

  lemma ExecMore(f: File, d: nat, st: State, jobs: seq<Job>, job: Job)
    ensures Exec(f, d, st, jobs + [job]) ==
            var b := Exec(f, d, st, jobs); if b.None? then None else Step(f, d, b.value, job)
  {
    assert (jobs + [job])[..|jobs|] == jobs;
  }

  /** What was counted before changes neither the calls nor their failures. */
  lemma {:induction false} FailuresSame(f: File, d: nat, st: State, v: int, jobs: seq<Job>)
    requires !st.halted && forall job :: job in jobs ==> !job.Restart? && !job.StopOnFailure?
    ensures Failures(f, d, st.(count := v), jobs) == Failures(f, d, st, jobs)
    ensures var s, t := Exec(f, d, st, jobs), Exec(f, d, st.(count := v), jobs);
            (s.None? <==> t.None?) && (s.Some? ==> !s.value.halted && t.value == s.value.(count := t.value.count))
    decreases |jobs|
  {
    if jobs != [] {
      var front, last := jobs[..|jobs| - 1], jobs[|jobs| - 1];
      assert forall job :: job in front ==> job in jobs;
      FailuresSame(f, d, st, v, front);
      assert last in jobs;
    }
  }
}
