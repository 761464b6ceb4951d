/** Files for which the check of the object headers does not do what it is meant to. */
module ObjectFlaws {
  import opened Options
  import opened Digraphs
  import opened ObjectWalks
  import opened ObjectReach
  import opened ObjectEnds

  const TO_X: Message := LinkMessage(Link("x", HardLink, 1))
  const BAD: Header := Header(true, true, [])
  const GOOD: Header := Header(false, true, [])

  lemma TwoMessages(a: Message, b: Message)
    ensures Jobs([a]) == MessageJobs(a) && Jobs([a, b]) == MessageJobs(a) + MessageJobs(b)
  {
    JobsLast([a], [], a);
    JobsLast([a, b], [a], b);
  }

  lemma CalledIsReached(f: File, p: Place, q: Place, name: Option<string>)
    requires Go(q, name) in Program(f, p)
    ensures Reaches(f, p, q)
  {
    assert Leads(f, p, q);
    ReachesSelf(f, q);
    ReachesStep(f, p, q, q);
  }

  lemma TreelessEnds(f: File, root: Addr)
    requires f.trees == map[]
    ensures Terminates(f, root)
  {
    forall a: Addr | Reaches(f, HeaderAt(root), TreeAt(a)) ensures !Reach(TreeEdges(f), a, a) {
      if Reach(TreeEdges(f), a, a) { var c := ReachStarts(TreeEdges(f), a, a); }
    }
    EndsIffNoLoop(f, root);
  }

  // ---------------------------------------------------------------- failures that get lost

  /** A root with the given messages, and a bad header that they may link to. */
  function TwoHeaders(ms: seq<Message>): File { File(map[0 := Header(false, true, ms), 1 := BAD], map[], map[]) }

  /** A link to a bad header, then an external-file message with a good heap: the check succeeds. */
  lemma FailureForgotten(d: nat, r: Outcome)
    ensures var f := TwoHeaders([TO_X, ExternalFilesMessage(true)]);
            && Terminates(f, 0) && Reaches(f, HeaderAt(0), HeaderAt(1)) && !Fine(f, HeaderAt(1))
            && (Walk(f, d, [], HeaderAt(0)) == Some(r) ==> !r.failed)
  {
    var f := TwoHeaders([TO_X, ExternalFilesMessage(true)]);
    TreelessEnds(f, 0);
    TwoMessages(TO_X, ExternalFilesMessage(true));
    CalledIsReached(f, HeaderAt(0), HeaderAt(1), Some("x"));
    if Walk(f, d, [], HeaderAt(0)) == Some(r) { Forgotten(f, d, 0, TO_X, r); }
  }

  /** A header with a good external-file message at the end passes if its own checks do. */
  lemma Forgotten(f: File, d: nat, a: Addr, m: Message, r: Outcome)
    requires a in f.headers && f.headers[a].messages == [m, ExternalFilesMessage(true)] && !OwnFails(f, HeaderAt(a))
    requires Walk(f, d, [], HeaderAt(a)) == Some(r)
    ensures !r.failed
  {
    assert [m] + [ExternalFilesMessage(true)] + [] == [m, ExternalFilesMessage(true)];
    var s := HeaderWithExternal(f, d, [], a, [m], true, [], r);
  }

  /** An external-file message with a bad heap, then a link to a bad header: the two failures cancel out. */
  lemma FailuresCancel(d: nat, r: Outcome)
    ensures var f := TwoHeaders([ExternalFilesMessage(false), TO_X]);
            && Terminates(f, 0) && Reaches(f, HeaderAt(0), HeaderAt(1))
            && !Fine(f, HeaderAt(1)) && !Fine(f, HeaderAt(0))
            && (Walk(f, d, [], HeaderAt(0)) == Some(r) ==> !r.failed)
  {
    var f := TwoHeaders([ExternalFilesMessage(false), TO_X]);
    TreelessEnds(f, 0);
    TwoMessages(ExternalFilesMessage(false), TO_X);
    CalledIsReached(f, HeaderAt(0), HeaderAt(1), Some("x"));
    assert Restart(-1) in Program(f, HeaderAt(0)) && !Quiet(Restart(-1));
    if Walk(f, d, [], HeaderAt(0)) == Some(r) { Cancelled(f, d, r); }
  }

  lemma Cancelled(f: File, d: nat, r: Outcome)
    requires Program(f, HeaderAt(0)) == [Restart(-1)] + [Go(HeaderAt(1), Some("x"))]
    requires !OwnFails(f, HeaderAt(0)) && OwnFails(f, HeaderAt(1)) && Walk(f, d, [], HeaderAt(0)) == Some(r)
    ensures !r.failed
  {
    Entered(f, d, [], HeaderAt(0));
    RootStarts(f);
    CancelledJobs(f, d - 1, Start(f, [], HeaderAt(0)));
  }

  lemma CancelledJobs(f: File, d: nat, st: State)
    requires OwnFails(f, HeaderAt(1)) && 1 !in st.seen && !st.halted
    requires Exec(f, d, st, [Restart(-1)] + [Go(HeaderAt(1), Some("x"))]).Some?
    ensures Exec(f, d, st, [Restart(-1)] + [Go(HeaderAt(1), Some("x"))]).value.count == 0
  {
    ExecFirst(f, d, st, Restart(-1), [Go(HeaderAt(1), Some("x"))]);
    OneJob(f, d, st.(count := -1), [Go(HeaderAt(1), Some("x"))]);
    Entered(f, d, st.seen, HeaderAt(1));
  }

  lemma RootStarts(f: File)
    ensures Start(f, [], HeaderAt(0)).seen == [0]
  {}

  // ------------------------------------------------------------------- dense storage

  /** Among places without dense storage, only calls with a logger object of their own lead to headers. */
  ghost predicate Named(jobs: seq<Job>) {
    forall q :: Go(q, None) in jobs ==> q.TreeAt? || q.SymbolsAt?
  }

  lemma SparseNamed(f: File, p: Place)
    requires Sparse(f, p)
    ensures Named(Program(f, p))
  {
    ReachesSelf(f, p);
    match p
    case HeaderAt(a) =>
      forall q | Go(q, None) in Program(f, p) ensures q.TreeAt? {
        PlainMessages(f.headers[a].messages, q);
        CalledIsReached(f, p, q, None);
      }
    case TreeAt(a) =>
    case SymbolsAt(a) => if a in f.symbols { NamedLinks(f.symbols[a].entries); }
  }

  lemma {:induction false} NamedLinks(links: seq<Link>)
    ensures forall job :: job in LinkJobs(links, true) ==> job.Go? && job.name.Some?
  {
    if links != [] { NamedLinks(links[..|links| - 1]); }
  }

  /** Messages without dense storage. */
  lemma {:induction false} PlainMessages(ms: seq<Message>, q: Place)
    requires Go(q, None) in Jobs(ms)
    ensures q.TreeAt? || q.DenseNode?
  {
    var front, last := ms[..|ms| - 1], ms[|ms| - 1];
    if Go(q, None) in Jobs(front) {
      PlainMessages(front, q);
    } else {
      assert Go(q, None) in MessageJobs(last);
    }
  }

  /** Without dense storage below it, the base address recorded for an object is that of its own header. */
  lemma {:induction false} OwnBase(f: File, d: nat, seen: seq<Addr>, p: Place)
    requires Walk(f, d, seen, p).Some? && Sparse(f, p) && !(p.HeaderAt? && p.addr in seen)
    ensures Walk(f, d, seen, p).value.base == Start(f, seen, p).base
    decreases d, 0
  {
    SparseNamed(f, p);
    SparseCalls(f, p);
    Entered(f, d, seen, p);
    BaseKept(f, d - 1, Start(f, seen, p), Program(f, p));
  }

  lemma {:induction false} BaseKept(f: File, d: nat, st: State, jobs: seq<Job>)
    requires Exec(f, d, st, jobs).Some? && Named(jobs) && AllSparse(f, jobs)
    ensures Exec(f, d, st, jobs).value.base == st.base
    decreases d, 1 + |jobs|
  {
    if jobs != [] {
      var front, last := jobs[..|jobs| - 1], jobs[|jobs| - 1];
      BaseKept(f, d, st, front);
      var b := Exec(f, d, st, front).value;
      if !b.halted && last.Go? && last.name.None? {
        assert last == Go(last.place, None) && last in jobs;
        OwnBase(f, d, b.seen, last.place);
      }
    }
  }

  /** A link in dense storage: the header it leads to. */
  function DenseLeaf(a: Addr): Bt2 { Bt2(false, [Link("x", HardLink, a)], []) }

  lemma LeafRuns(f: File, d: nat, seen: seq<Addr>, a: Addr, t: Outcome) returns (r: Outcome)
    requires a != ADDR_UNDEF && Walk(f, d, seen, DenseNode(DenseLeaf(a))) == Some(t)
    ensures d > 0 && Walk(f, d - 1, seen, HeaderAt(a)) == Some(r)
    ensures t.seen == r.seen && t.failed == r.failed && t.base == r.base
  {
    var p := DenseNode(DenseLeaf(a));
    var st := Start(f, seen, p);
    Entered(f, d, seen, p);
    LeafProgram(f, a);
    ExecFirst(f, d - 1, st, Go(HeaderAt(a), None), [StopOnFailure]);
    r := Walk(f, d - 1, seen, HeaderAt(a)).value;
    OneJob(f, d - 1, Returned(st, None, r), [StopOnFailure]);
  }

  lemma LeafProgram(f: File, a: Addr)
    requires a != ADDR_UNDEF
    ensures Program(f, DenseNode(DenseLeaf(a))) == [Go(HeaderAt(a), None)] + [StopOnFailure]
  {
    var links := [Link("x", HardLink, a)];
    assert links[..0] == [] && LinkJobs(links, false) == [Go(HeaderAt(a), None)];
    assert [StopOnFailure] + DenseKids([]) == [StopOnFailure];
  }

  /** A root whose links are in dense storage, with the given index. */
  function DenseRoot(n: Bt2): File {
    File(map[0 := Header(false, true, [DenseMessage(0, [n])]), 1 := BAD, 2 := GOOD], map[], map[])
  }

  lemma DenseRootRuns(n: Bt2, d: nat, r: Outcome) returns (t: Outcome)
    requires Walk(DenseRoot(n), d, [], HeaderAt(0)) == Some(r)
    ensures d > 0 && Walk(DenseRoot(n), d - 1, [0], DenseNode(n)) == Some(t)
    ensures r.seen == t.seen && r.failed == t.failed && r.cut == t.cut
    ensures r.base == if t.base.Some? then t.base else Some(0)
  {
    var f := DenseRoot(n);
    RootProgram(n);
    RootStarts(f);
    Entered(f, d, [], HeaderAt(0));
    t := RootJobs(f, d - 1, Start(f, [], HeaderAt(0)), n);
  }

  lemma RootProgram(n: Bt2)
    ensures Program(DenseRoot(n), HeaderAt(0)) == [Count(0)] + [Go(DenseNode(n), None)]
  {
    JobsLast([DenseMessage(0, [n])], [], DenseMessage(0, [n]));
    assert Calls(DenseRoots([n])) == [Go(DenseNode(n), None)];
  }

  lemma RootJobs(f: File, d: nat, st: State, n: Bt2) returns (t: Outcome)
    requires Exec(f, d, st, [Count(0)] + [Go(DenseNode(n), None)]).Some? && !st.halted && st.count == 0
    ensures Walk(f, d, st.seen, DenseNode(n)) == Some(t)
    ensures var s := Exec(f, d, st, [Count(0)] + [Go(DenseNode(n), None)]).value;
            && s.seen == t.seen && (t.failed <==> s.count != 0) && s.cut == (st.cut || t.cut)
            && s.base == if t.base.Some? then t.base else st.base
  {
    ExecFirst(f, d, st, Count(0), [Go(DenseNode(n), None)]);
    OneJob(f, d, st, [Go(DenseNode(n), None)]);
    t := Walk(f, d, st.seen, DenseNode(n)).value;
  }

  /** The check of a header linked to from dense storage records its address for the group itself. */
  lemma BaseOverwritten(d: nat, r: Outcome)
    requires Walk(DenseRoot(DenseLeaf(2)), d, [], HeaderAt(0)) == Some(r)
    ensures r.base == Some(2)
  {
    var f := DenseRoot(DenseLeaf(2));
    var t := DenseRootRuns(DenseLeaf(2), d, r);
    var u := LeafRuns(f, d - 1, [0], 2, t);
    Entered(f, d - 2, [0], HeaderAt(2));
  }

  /** Two leaves, of which the first leads to a bad header. */
  const TWO_LEAVES: Bt2 := Bt2(false, [], [DenseLeaf(1), DenseLeaf(2)])

  lemma LeavesProgram(f: File)
    ensures Program(f, DenseNode(TWO_LEAVES)) == LeavesJobs()
  {
    var one, two := DenseLeaf(1), DenseLeaf(2);
    assert [one, two][..1] == [one] && [one][..0] == [];
    assert DenseKids([one]) == [Go(DenseNode(one), None), StopOnFailure];
    assert DenseKids([one, two]) == DenseKids([one]) + SecondLeaf();
  }

  function LeavesJobs(): seq<Job> {
    [StopOnFailure] + ([Go(DenseNode(DenseLeaf(1)), None)] + ([StopOnFailure] + SecondLeaf()))
  }

  function SecondLeaf(): seq<Job> { [Go(DenseNode(DenseLeaf(2)), None), StopOnFailure] }

  /** When a link in dense storage leads to a bad header, the following nodes of the index are not read: a header that
      can be reached is not expanded. */
  lemma LeftOut(d: nat, r: Outcome)
    requires Walk(DenseRoot(TWO_LEAVES), d, [], HeaderAt(0)) == Some(r)
    ensures Reaches(DenseRoot(TWO_LEAVES), HeaderAt(0), HeaderAt(2)) && 2 !in r.seen && r.failed && r.cut
  {
    SecondIsReached(DenseRoot(TWO_LEAVES));
    BadFirst(TWO_LEAVES);
    LeavesProgram(DenseRoot(TWO_LEAVES));
    LeafLeftOut(TWO_LEAVES, d, r);
  }

  lemma LeafLeftOut(n: Bt2, d: nat, r: Outcome)
    requires Program(DenseRoot(n), DenseNode(n)) == LeavesJobs() && Walk(DenseRoot(n), d, [], HeaderAt(0)) == Some(r)
    requires OwnFails(DenseRoot(n), HeaderAt(1)) && Program(DenseRoot(n), HeaderAt(1)) == []
    ensures r.seen == [0] + [1] && r.failed && r.cut
  {
    var t := DenseRootRuns(n, d, r);
    FirstLeafFails(DenseRoot(n), n, d - 1, t);
  }

  lemma BadFirst(n: Bt2)
    ensures OwnFails(DenseRoot(n), HeaderAt(1)) && Program(DenseRoot(n), HeaderAt(1)) == []
  {}

  lemma SecondIsReached(f: File)
    requires f == DenseRoot(TWO_LEAVES)
    ensures Reaches(f, HeaderAt(0), HeaderAt(2))
  {
    RootProgram(TWO_LEAVES);
    LeavesProgram(f);
    LeafProgram(f, 2);
    var root, leaf := DenseNode(TWO_LEAVES), DenseNode(DenseLeaf(2));
    assert Go(leaf, None) in SecondLeaf();
    assert Leads(f, HeaderAt(0), root) && Leads(f, root, leaf) && Leads(f, leaf, HeaderAt(2));
    ReachesSelf(f, HeaderAt(2));
    ReachesStep(f, leaf, HeaderAt(2), HeaderAt(2));
    ReachesStep(f, root, leaf, HeaderAt(2));
    ReachesStep(f, HeaderAt(0), root, HeaderAt(2));
  }

  lemma FirstLeafFails(f: File, n: Bt2, d: nat, t: Outcome)
    requires OwnFails(f, HeaderAt(1)) && Program(f, HeaderAt(1)) == [] && Program(f, DenseNode(n)) == LeavesJobs()
    requires Walk(f, d, [0], DenseNode(n)) == Some(t)
    ensures t.seen == [0] + [1] && t.failed && t.cut
  {
    Entered(f, d, [0], DenseNode(n));
    FirstLeafStops(f, d - 1, Start(f, [0], DenseNode(n)));
  }

  lemma FirstLeafStops(f: File, d: nat, st: State)
    requires OwnFails(f, HeaderAt(1)) && Program(f, HeaderAt(1)) == [] && 1 !in st.seen && !st.halted && st.count == 0
    requires Exec(f, d, st, LeavesJobs()).Some?
    ensures var s := Exec(f, d, st, LeavesJobs()).value; s.seen == st.seen + [1] && s.count != 0 && s.cut
  {
    var leaf := Go(DenseNode(DenseLeaf(1)), None);
    ExecFirst(f, d, st, StopOnFailure, [leaf] + ([StopOnFailure] + SecondLeaf()));
    ExecFirst(f, d, st, leaf, [StopOnFailure] + SecondLeaf());
    var u := Walk(f, d, st.seen, leaf.place).value;
    BadLeaf(f, d, st.seen, u);
    StopsHere(f, d, Returned(st, None, u));
  }

  lemma BadLeaf(f: File, d: nat, seen: seq<Addr>, t: Outcome)
    requires OwnFails(f, HeaderAt(1)) && Program(f, HeaderAt(1)) == [] && 1 !in seen
    requires Walk(f, d, seen, DenseNode(DenseLeaf(1))) == Some(t)
    ensures t.seen == seen + [1] && t.failed
  {
    var r := LeafRuns(f, d, seen, 1, t);
    Entered(f, d - 1, seen, HeaderAt(1));
  }

  lemma StopsHere(f: File, d: nat, st: State)
    requires !st.halted && st.count != 0
    ensures Exec(f, d, st, [StopOnFailure] + SecondLeaf()) == Some(st.(halted := true, cut := true))
  {
    ExecFirst(f, d, st, StopOnFailure, SecondLeaf());
    Halted(f, d, st.(halted := true), SecondLeaf());
  }

  // ------------------------------------------------------------------------- no end

  /** A B-tree node on a cycle: a call that comes to it never returns. */
  lemma CycleNeverEnds(f: File, d: nat, seen: seq<Addr>, t: Addr)
    requires Reach(TreeEdges(f), t, t)
    ensures Walk(f, d, seen, TreeAt(t)).None?
  {
    if Walk(f, d, seen, TreeAt(t)).Some? {
      assert Ends(f, d, t);
      EndedStops(f, d, t, t);
    }
  }

  /** A group whose symbol table has a B-tree node with itself as child. */
  const OWN_CHILD: File :=
    File(map[0 := Header(false, true, [BTreeMessage(true, 5)])], map[5 := TreeNode(false, 1, true, [5])], map[])

  lemma OwnChildNeverEnds()
    ensures !Terminates(OWN_CHILD, 0)
  {
    var f := OWN_CHILD;
    JobsLast([BTreeMessage(true, 5)], [], BTreeMessage(true, 5));
    assert (5, 5) in TreeEdges(f);
    EdgeReach(TreeEdges(f), 5, 5);
    LoopNeverEnds(f, 0, 5);
  }

  lemma LoopNeverEnds(f: File, root: Addr, t: Addr)
    requires Program(f, HeaderAt(root)) == [Go(TreeAt(t), None)] && Reach(TreeEdges(f), t, t)
    ensures !Terminates(f, root)
  {
    if Terminates(f, root) {
      var d: nat :| Walk(f, d, [], HeaderAt(root)).Some?;
      Entered(f, d, [], HeaderAt(root));
      LoopCalled(f, d - 1, Start(f, [], HeaderAt(root)), t);
    }
  }

  lemma LoopCalled(f: File, d: nat, st: State, t: Addr)
    requires Reach(TreeEdges(f), t, t) && !st.halted
    ensures Exec(f, d, st, [Go(TreeAt(t), None)]).None?
  {
    OneJob(f, d, st, [Go(TreeAt(t), None)]);
    CycleNeverEnds(f, d, st.seen, t);
  }
}
