/** When the walk over an HDF5 file comes to an end. */
module ObjectEnds {
  import opened Options
  import opened Sequences
  import opened Digraphs
  import opened ObjectWalks
  import opened ObjectReach

  /** No B-tree node that can be reached comes below itself. */
  ghost predicate NoLoop(f: File, p: Place) {
    forall a: Addr {:trigger TreeAt(a)} :: Reaches(f, p, TreeAt(a)) ==> !Reach(TreeEdges(f), a, a)
  }

  lemma NoLoopNext(f: File, p: Place, m: Place)
    requires NoLoop(f, p) && Leads(f, p, m)
    ensures NoLoop(f, m)
  {
    forall a: Addr | Reaches(f, m, TreeAt(a)) ensures !Reach(TreeEdges(f), a, a) { ReachesStep(f, p, m, TreeAt(a)); }
  }

  // ------------------------------------------------------------------- deeper nesting

  /** Room for deeper nesting changes nothing. */
  lemma {:induction false} WalkDeeper(f: File, d: nat, e: nat, seen: seq<Addr>, p: Place)
    requires Walk(f, d, seen, p).Some? && d <= e
    ensures Walk(f, e, seen, p) == Walk(f, d, seen, p)
    decreases d, 0
  {
    if !(p.HeaderAt? && p.addr in seen) { ExecDeeper(f, d - 1, e - 1, Start(f, seen, p), Program(f, p)); }
  }

  lemma {:induction false} ExecDeeper(f: File, d: nat, e: nat, st: State, jobs: seq<Job>)
    requires Exec(f, d, st, jobs).Some? && d <= e
    ensures Exec(f, e, st, jobs) == Exec(f, d, st, jobs)
    decreases d, 1 + |jobs|
  {
    if jobs != [] {
      var front, last := jobs[..|jobs| - 1], jobs[|jobs| - 1];
      ExecDeeper(f, d, e, st, front);
      var b := Exec(f, d, st, front).value;
      if !b.halted && last.Go? { WalkDeeper(f, d, e, b.seen, last.place); }
    }
  }

  // ----------------------------------------------------------------------- a measure

  /** How many headers of the file have not been expanded. */
  function Unseen(f: File, seen: seq<Addr>): nat { |f.headers.Keys - ToSet(seen)| }

  lemma UnseenLess(f: File, seen: seq<Addr>, more: seq<Addr>)
    requires seen <= more
    ensures Unseen(f, more) <= Unseen(f, seen)
    ensures (exists a :: a in f.headers && a in more && a !in seen) ==> Unseen(f, more) < Unseen(f, seen)
  {
    var s, t := f.headers.Keys - ToSet(seen), f.headers.Keys - ToSet(more);
    assert t <= s by { assert forall a :: a in seen ==> a in more; }
    Smaller(t, s);
    if a :| a in f.headers && a in more && a !in seen {
      assert a in s && a !in t;
    }
  }

  lemma {:induction false} Smaller(t: set<Addr>, s: set<Addr>)
    requires t <= s
    ensures |t| <= |s| && (t != s ==> |t| < |s|)
  {
    if t != {} {
      var x :| x in t;
      Smaller(t - {x}, s - {x});
    }
  }

  /** A B-tree node and those below it. */
  ghost function TreesBelow(f: File, a: Addr): set<Addr> {
    set c | c in f.trees.Keys && (c == a || Reach(TreeEdges(f), a, c))
  }

  function Size(n: Bt2): nat { 1 + SizeOfAll(n.kids) }

  function SizeOfAll(kids: seq<Bt2>): nat {
    if kids == [] then 0 else SizeOfAll(kids[..|kids| - 1]) + Size(kids[|kids| - 1])
  }

  /** How far calls without an object header in between can go on from here. */
  ghost function Height(f: File, p: Place): nat {
    match p
    case HeaderAt(a) => 0
    case SymbolsAt(a) => 1
    case TreeAt(a) => 2 + |TreesBelow(f, a)|
    case DenseNode(n) => Size(n)
  }

  lemma FewerBelow(f: File, a: Addr, c: Addr)
    requires (a, c) in TreeEdges(f) && !Reach(TreeEdges(f), a, a)
    ensures |TreesBelow(f, c)| < |TreesBelow(f, a)|
  {
    var e := TreeEdges(f);
    EdgeReach(e, a, c);
    forall x | x in TreesBelow(f, c) ensures x in TreesBelow(f, a) && x != a {
      if x != c { ReachTrans(e, a, c, x); }
    }
    assert a in TreesBelow(f, a);
    Smaller(TreesBelow(f, c), TreesBelow(f, a));
  }

  ghost predicate AllLower(f: File, jobs: seq<Job>, h: nat) {
    forall name, q :: Go(q, name) in jobs ==> Height(f, q) < h
  }

  lemma TreeLower(f: File, a: Addr)
    requires !Reach(TreeEdges(f), a, a)
    ensures AllLower(f, Program(f, TreeAt(a)), Height(f, TreeAt(a)))
  {
    forall name, q | Go(q, name) in Program(f, TreeAt(a)) ensures Height(f, q) < Height(f, TreeAt(a)) {
      if q.TreeAt? {
        TreeLeads(f, a, q.addr);
        FewerBelow(f, a, q.addr);
      }
    }
  }

  lemma {:induction false} DenseKidsLower(f: File, kids: seq<Bt2>)
    ensures AllLower(f, DenseKids(kids), 1 + SizeOfAll(kids))
  {
    if kids != [] { DenseKidsLower(f, kids[..|kids| - 1]); }
  }

  lemma Lower(f: File, p: Place)
    requires !p.HeaderAt? && NoLoop(f, p)
    ensures AllLower(f, Program(f, p), Height(f, p))
  {
    match p
    case TreeAt(a) =>
      ReachesSelf(f, p);
      TreeLower(f, a);
    case SymbolsAt(a) => if a in f.symbols { NoExitInLinks(f.symbols[a].entries, true); }
    case DenseNode(n) =>
      NoExitInLinks(n.records, false);
      DenseKidsLower(f, n.kids);
  }

  lemma {:induction false} SomeBound(f: File, jobs: seq<Job>) returns (h: nat)
    ensures AllLower(f, jobs, h)
  {
    if jobs == [] {
      h := 0;
    } else {
      var last := jobs[|jobs| - 1];
      h := SomeBound(f, jobs[..|jobs| - 1]);
      assert jobs == jobs[..|jobs| - 1] + [last];
      if last.Go? && Height(f, last.place) >= h { h := Height(f, last.place) + 1; }
    }
  }

  // --------------------------------------------------------------------- termination

  ghost predicate AllNoLoop(f: File, jobs: seq<Job>) { forall name, q :: Go(q, name) in jobs ==> NoLoop(f, q) }

  /** Without such a loop, the walk comes to an end. */
  lemma {:induction false} WalkEnds(f: File, seen: seq<Addr>, p: Place) returns (d: nat)
    requires NoLoop(f, p)
    ensures Walk(f, d, seen, p).Some?
    decreases Unseen(f, seen), 2 * Height(f, p) + 1, 0
  {
    if p.HeaderAt? && (p.addr in seen || p.addr !in f.headers) {
      d := 1;
      EndsAtOnce(f, seen, p);
    } else {
      NoLoopCalls(f, p);
      var h := Bound(f, seen, p);
      d := ExecEnds(f, Start(f, seen, p), Program(f, p), h);
      d := OneDeeper(f, d, seen, p);
    }
  }

  lemma EndsAtOnce(f: File, seen: seq<Addr>, p: Place)
    requires p.HeaderAt? && (p.addr in seen || p.addr !in f.headers)
    ensures Walk(f, 1, seen, p).Some?
  {
    assert Exec(f, 0, Start(f, seen, p), []) == Some(Start(f, seen, p));
  }

  lemma OneDeeper(f: File, d: nat, seen: seq<Addr>, p: Place) returns (e: nat)
    requires Exec(f, d, Start(f, seen, p), Program(f, p)).Some?
    ensures Walk(f, e, seen, p).Some?
  {
    e := d + 1;
  }

  lemma NoLoopCalls(f: File, p: Place)
    requires NoLoop(f, p)
    ensures AllNoLoop(f, Program(f, p))
  {
    forall name, q | Go(q, name) in Program(f, p) ensures NoLoop(f, q) { NoLoopNext(f, p, q); }
  }

  /** The calls are lower, or there are fewer headers left. */
  lemma Bound(f: File, seen: seq<Addr>, p: Place) returns (h: nat)
    requires NoLoop(f, p) && (p.HeaderAt? ==> p.addr in f.headers && p.addr !in seen)
    ensures AllLower(f, Program(f, p), h)
    ensures var more := Start(f, seen, p).seen;
            Unseen(f, more) < Unseen(f, seen) || (more == seen && h == Height(f, p))
  {
    if p.HeaderAt? {
      h := SomeBound(f, Program(f, p));
      assert (seen + [p.addr])[|seen|] == p.addr;
      UnseenLess(f, seen, seen + [p.addr]);
    } else {
      h := Height(f, p);
      Lower(f, p);
    }
  }

  lemma {:induction false} ExecEnds(f: File, st: State, jobs: seq<Job>, h: nat) returns (d: nat)
    requires AllNoLoop(f, jobs) && AllLower(f, jobs, h)
    ensures Exec(f, d, st, jobs).Some?
    decreases Unseen(f, st.seen), 2 * h, |jobs|
  {
    d := 0;
    if jobs != [] {
      var front, last := jobs[..|jobs| - 1], jobs[|jobs| - 1];
      assert last in jobs;
      d := ExecEnds(f, st, front, h);
      var b := Exec(f, d, st, front).value;
      if !b.halted && last.Go? {
        ExecGrows(f, d, st, front);
        UnseenLess(f, st.seen, b.seen);
        assert last == Go(last.place, last.name);
        var e := WalkEnds(f, b.seen, last.place);
        var both := if d < e then e else d;
        ExecDeeper(f, d, both, st, front);
        WalkDeeper(f, e, both, b.seen, last.place);
        d := both;
      }
    }
  }

  ghost predicate Terminates(f: File, root: Addr) { exists d: nat :: Walk(f, d, [], HeaderAt(root)).Some? }

  /** The walk ends if no reachable B-tree node comes below itself. If it ends and left nothing out, then there is no
      such node; so where there is no dense storage, it ends exactly when there is none. */
  lemma EndsIffNoLoop(f: File, root: Addr)
    ensures NoLoop(f, HeaderAt(root)) ==> Terminates(f, root)
    ensures forall d: nat :: Walk(f, d, [], HeaderAt(root)).Some? && !Walk(f, d, [], HeaderAt(root)).value.cut ==>
              NoLoop(f, HeaderAt(root))
    ensures Sparse(f, HeaderAt(root)) ==> (Terminates(f, root) <==> NoLoop(f, HeaderAt(root)))
  {
    if NoLoop(f, HeaderAt(root)) {
      var d := WalkEnds(f, [], HeaderAt(root));
    }
    forall d: nat | Walk(f, d, [], HeaderAt(root)).Some? && !Walk(f, d, [], HeaderAt(root)).value.cut
      ensures NoLoop(f, HeaderAt(root))
    {
      EndedNoLoop(f, d, root);
    }
    if Sparse(f, HeaderAt(root)) && Terminates(f, root) {
      var d: nat :| Walk(f, d, [], HeaderAt(root)).Some?;
      SparseUncut(f, d, [], HeaderAt(root));
    }
  }

  lemma EndedNoLoop(f: File, d: nat, root: Addr)
    requires Walk(f, d, [], HeaderAt(root)).Some? && !Walk(f, d, [], HeaderAt(root)).value.cut
    ensures NoLoop(f, HeaderAt(root))
  {
    var seen := Walk(f, d, [], HeaderAt(root)).value.seen;
    WalkCloses(f, d, [], HeaderAt(root), false);
    forall a: Addr | Reaches(f, HeaderAt(root), TreeAt(a)) ensures !Reach(TreeEdges(f), a, a) {
      HoldsReached(f, seen, HeaderAt(root), TreeAt(a), false);
      HeldIsSettled(f, seen, TreeAt(a), false);
    }
  }
}
