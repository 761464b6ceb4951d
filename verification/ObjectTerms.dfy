/** What the check of the object headers does, said of the file alone: where its places lead, what is wrong with
    them and when its results can be relied on. */
module ObjectTerms {
  import opened Options
  import opened Digraphs
  import opened ObjectWalks
  import opened ObjectReach
  import opened ObjectEnds

  // --------------------------------------------------------------------- where places lead

  lemma {:induction false} LinksCalled(links: seq<Link>, named: bool, q: Place, name: Option<string>)
    ensures Go(q, name) in LinkJobs(links, named) <==>
            exists l :: l in links && l.kind == HardLink && l.addr != 0xFFFF_FFFF_FFFF_FFFF
                        && q == HeaderAt(l.addr) && name == if named then Some(l.name) else None
  {
    if links != [] {
      var front, last := links[..|links| - 1], links[|links| - 1];
      LinksCalled(front, named, q, name);
      assert links == front + [last];
      assert last in links && forall l :: l in links <==> l in front || l == last;
    }
  }

  lemma ListCalled(places: seq<Place>, q: Place, name: Option<string>)
    ensures Go(q, name) in Calls(places) <==> q in places && name == None
  {
    if q in places {
      var i :| 0 <= i < |places| && places[i] == q;
      assert Calls(places)[i] == Go(q, None);
    }
  }

  /** A symbol table node leads along its entries that are hard links to a defined address, each with a logger
      object of the name of the entry. */
  lemma SymbolsLead(f: File, a: Addr, q: Place)
    ensures Leads(f, SymbolsAt(a), q) <==>
            a in f.symbols && exists l :: l in f.symbols[a].entries && l.kind == HardLink
                                          && l.addr != 0xFFFF_FFFF_FFFF_FFFF && q == HeaderAt(l.addr)
  {
    if a in f.symbols {
      if name :| Go(q, name) in Program(f, SymbolsAt(a)) { LinksCalled(f.symbols[a].entries, true, q, name); }
      if l :| l in f.symbols[a].entries && l.kind == HardLink && l.addr != 0xFFFF_FFFF_FFFF_FFFF
              && q == HeaderAt(l.addr)
      {
        LinksCalled(f.symbols[a].entries, true, q, Some(l.name));
      }
    }
  }

  /** A version 1 B-tree node leads to its children: nodes above level 0, symbol table nodes at level 0 of a symbol
      table. */
  lemma TreeLead(f: File, a: Addr, q: Place)
    ensures Leads(f, TreeAt(a), q) <==>
            && a in f.trees
            && exists k :: k in f.trees[a].kids
                           && if f.trees[a].level > 0 then q == TreeAt(k) else f.trees[a].symbols && q == SymbolsAt(k)
  {
    if a in f.trees {
      var n := f.trees[a];
      ListCalled(KidPlaces(n), q, None);
      if name :| Go(q, name) in Program(f, TreeAt(a)) {
        ListCalled(KidPlaces(n), q, name);
        var i :| 0 <= i < |KidPlaces(n)| && KidPlaces(n)[i] == q;
        assert n.kids[i] in n.kids;
      }
      if k :| k in n.kids && if n.level > 0 then q == TreeAt(k) else n.symbols && q == SymbolsAt(k) {
        var i :| 0 <= i < |n.kids| && n.kids[i] == k;
        assert KidPlaces(n)[i] == q;
      }
    }
  }

  lemma {:induction false} KidsCalled(kids: seq<Bt2>, q: Place, name: Option<string>)
    ensures Go(q, name) in DenseKids(kids) <==> q.DenseNode? && q.node in kids && name == None
  {
    if kids != [] {
      var front, last := kids[..|kids| - 1], kids[|kids| - 1];
      KidsCalled(front, q, name);
      assert forall k :: k in kids <==> k in front || k == last;
    }
  }

  /** A version 2 B-tree node leads along the records that are hard links, and to its children if nothing is
      wrong with its own bytes. */
  lemma DenseLead(f: File, n: Bt2, q: Place)
    ensures Leads(f, DenseNode(n), q) <==>
            || (exists l :: l in n.records && l.kind == HardLink && l.addr != 0xFFFF_FFFF_FFFF_FFFF
                            && q == HeaderAt(l.addr))
            || (!n.bad && q.DenseNode? && q.node in n.kids)
  {
    LinksCalled(n.records, false, q, None);
    KidsCalled(n.kids, q, None);
    if name :| Go(q, name) in Program(f, DenseNode(n)) {
      LinksCalled(n.records, false, q, name);
      KidsCalled(n.kids, q, name);
    }
    if l :| l in n.records && l.kind == HardLink && l.addr != 0xFFFF_FFFF_FFFF_FFFF && q == HeaderAt(l.addr) {
      assert Go(q, None) in LinkJobs(n.records, false);
    }
  }

  /** What a message leads to: the header of a hard link to a defined address, the B-tree of a symbol table with
      a good heap, the indexes of dense storage. */
  predicate MessageLeads(m: Message, q: Place) {
    match m
    case LinkMessage(l) => l.kind == HardLink && l.addr != 0xFFFF_FFFF_FFFF_FFFF && q == HeaderAt(l.addr)
    case BTreeMessage(goodHeap, btree) => goodHeap && q == TreeAt(btree)
    case DenseMessage(_, indexes) => q.DenseNode? && q.node in indexes
    case ExternalFilesMessage(_) => false
    case OtherMessage(_) => false
  }

  lemma MessageCalls(m: Message, q: Place)
    ensures (exists name :: Go(q, name) in MessageJobs(m)) <==> MessageLeads(m, q)
  {
    match m
    case LinkMessage(l) =>
      if l.kind == HardLink && l.addr != 0xFFFF_FFFF_FFFF_FFFF && q == HeaderAt(l.addr) {
        assert Go(q, Some(l.name)) in MessageJobs(m);
      }
    case BTreeMessage(goodHeap, btree) => if goodHeap { assert Go(TreeAt(btree), None) in MessageJobs(m); }
    case DenseMessage(_, indexes) =>
      ListCalled(DenseRoots(indexes), q, None);
      if name :| Go(q, name) in MessageJobs(m) { ListCalled(DenseRoots(indexes), q, name); }
      if q.DenseNode? && q.node in indexes {
        var i :| 0 <= i < |indexes| && indexes[i] == q.node;
        assert DenseRoots(indexes)[i] == q;
        assert Go(q, None) in MessageJobs(m);
      }
    case ExternalFilesMessage(_) =>
    case OtherMessage(_) =>
  }

  lemma {:induction false} MessagesHold(ms: seq<Message>, job: Job)
    ensures job in Jobs(ms) <==> exists m :: m in ms && job in MessageJobs(m)
  {
    if ms != [] {
      var front, last := ms[..|ms| - 1], ms[|ms| - 1];
      MessagesHold(front, job);
      assert last in ms && forall m :: m in ms <==> m in front || m == last;
    }
  }

  /** A header leads where its messages lead: along hard links to defined addresses, to the B-tree of a symbol
      table with a good heap, and to the indexes of dense storage. */
  lemma HeaderLeads(f: File, a: Addr, q: Place)
    ensures Leads(f, HeaderAt(a), q) <==>
            && a in f.headers
            && exists m ::
                 && m in f.headers[a].messages
                 && match m
                    case LinkMessage(l) =>
                      l.kind == HardLink && l.addr != 0xFFFF_FFFF_FFFF_FFFF && q == HeaderAt(l.addr)
                    case BTreeMessage(goodHeap, btree) => goodHeap && q == TreeAt(btree)
                    case DenseMessage(_, indexes) => q.DenseNode? && q.node in indexes
                    case ExternalFilesMessage(_) => false
                    case OtherMessage(_) => false
  {
    if a in f.headers {
      var ms := f.headers[a].messages;
      if name :| Go(q, name) in Jobs(ms) {
        MessagesHold(ms, Go(q, name));
        var m :| m in ms && Go(q, name) in MessageJobs(m);
        MessageCalls(m, q);
      }
      forall m | m in ms ensures (exists name :: Go(q, name) in MessageJobs(m)) ==> Leads(f, HeaderAt(a), q) {
        if name :| Go(q, name) in MessageJobs(m) { MessagesHold(ms, Go(q, name)); }
      }
      forall m: Message ensures MessageLeads(m, q) <==> exists name :: Go(q, name) in MessageJobs(m) {
        MessageCalls(m, q);
      }
    }
  }

  /** What can be reached is the least that holds the place itself and what its places lead to. */
  lemma ReachesSays(f: File, p: Place, q: Place, held: Place -> bool)
    ensures Reaches(f, p, p)
    ensures forall r :: Reaches(f, p, q) && Leads(f, q, r) ==> Reaches(f, p, r)
    ensures held(p) && (forall x, y :: held(x) && Leads(f, x, y) ==> held(y)) && Reaches(f, p, q) ==> held(q)
  {
    ReachesSelf(f, p);
    if Reaches(f, p, q) {
      var run :| IsRun(Leading(f), run) && run[0] == p && run[|run| - 1] == q;
      if held(p) && forall x, y :: held(x) && Leads(f, x, y) ==> held(y) { PassesOn(Leading(f), held, run); }
      forall r | Leads(f, q, r) ensures Reaches(f, p, r) {
        var more := run + [r];
        assert IsRun(Leading(f), more) && more[0] == p && more[|more| - 1] == r;
      }
    }
  }

  // ------------------------------------------------------------------ what is wrong with them

  lemma MessageQuiet(m: Message)
    ensures AllQuiet(MessageJobs(m)) <==>
            match m
            case LinkMessage(_) => true
            case BTreeMessage(goodHeap, _) => goodHeap
            case DenseMessage(failures, _) => failures == 0
            case ExternalFilesMessage(goodHeap) => goodHeap
            case OtherMessage(failures) => failures == 0
  {
    match m
    case LinkMessage(_) =>
    case BTreeMessage(goodHeap, _) => if !goodHeap { assert Count(1) in MessageJobs(m) && !Quiet(Count(1)); }
    case DenseMessage(failures, _) =>
      assert Count(failures) in MessageJobs(m);
      assert Quiet(Count(failures)) <==> failures == 0;
    case ExternalFilesMessage(goodHeap) => if !goodHeap { assert Restart(-1) in MessageJobs(m) && !Quiet(Restart(-1)); }
    case OtherMessage(failures) =>
      assert Count(failures) in MessageJobs(m);
      assert Quiet(Count(failures)) <==> failures == 0;
  }

  lemma {:induction false} LinksQuiet(links: seq<Link>, named: bool)
    ensures AllQuiet(LinkJobs(links, named))
  {
    if links != [] { LinksQuiet(links[..|links| - 1], named); }
  }

  lemma {:induction false} KidsQuiet(kids: seq<Bt2>)
    ensures AllQuiet(DenseKids(kids))
  {
    if kids != [] { KidsQuiet(kids[..|kids| - 1]); }
  }

  /** A header is fine when it can be read to its end, no check of its own bytes fails, and none of its messages
      has a bad heap or a check that fails. */
  lemma HeaderFine(f: File, a: Addr)
    ensures Fine(f, HeaderAt(a)) <==>
            && a in f.headers && !f.headers[a].bad && f.headers[a].complete
            && forall m :: m in f.headers[a].messages ==>
                 match m
                 case LinkMessage(_) => true
                 case BTreeMessage(goodHeap, _) => goodHeap
                 case DenseMessage(failures, _) => failures == 0
                 case ExternalFilesMessage(goodHeap) => goodHeap
                 case OtherMessage(failures) => failures == 0
  {
    if a in f.headers {
      var ms := f.headers[a].messages;
      forall m | m in ms ensures AllQuiet(Jobs(ms)) ==> AllQuiet(MessageJobs(m)) {
        forall job | job in MessageJobs(m) ensures job in Jobs(ms) { MessagesHold(ms, job); }
      }
      if forall m :: m in ms ==> AllQuiet(MessageJobs(m)) {
        forall job | job in Jobs(ms) ensures Quiet(job) { MessagesHold(ms, job); }
      }
      assert AllQuiet(Jobs(ms)) <==> forall m :: m in ms ==> AllQuiet(MessageJobs(m));
      forall m | m in ms
        ensures AllQuiet(MessageJobs(m)) <==>
                match m
                case LinkMessage(_) => true
                case BTreeMessage(goodHeap, _) => goodHeap
                case DenseMessage(failures, _) => failures == 0
                case ExternalFilesMessage(goodHeap) => goodHeap
                case OtherMessage(failures) => failures == 0
      {
        MessageQuiet(m);
      }
    }
  }

  /** A node is fine when it can be read and no check of its own bytes fails. */
  lemma NodeFine(f: File, a: Addr, n: Bt2)
    ensures Fine(f, TreeAt(a)) <==> a in f.trees && !f.trees[a].bad
    ensures Fine(f, SymbolsAt(a)) <==> a in f.symbols && !f.symbols[a].bad
    ensures Fine(f, DenseNode(n)) <==> !n.bad
  {
    if a in f.symbols { LinksQuiet(f.symbols[a].entries, true); }
    LinksQuiet(n.records, false);
    KidsQuiet(n.kids);
  }

  // ------------------------------------------------------------- when results can be relied on

  /** No dense storage can be reached if no header has any. */
  lemma SparseIf(f: File, root: Addr)
    requires forall a, m :: a in f.headers && m in f.headers[a].messages ==> !m.DenseMessage?
    ensures Sparse(f, HeaderAt(root))
  {
    var inv := (p: Place) => !p.DenseNode?;
    forall p, q | inv(p) && Leads(f, p, q) ensures inv(q) {
      match p
      case HeaderAt(a) => HeaderLeads(f, a, q);
      case TreeAt(a) => TreeLead(f, a, q);
      case SymbolsAt(a) => SymbolsLead(f, a, q);
    }
    forall q | Reaches(f, HeaderAt(root), q) ensures !q.DenseNode? {
      var run :| IsRun(Leading(f), run) && run[0] == HeaderAt(root) && run[|run| - 1] == q;
      PassesOn(Leading(f), inv, run);
    }
  }

  /** The walk ends if the levels of version 1 B-tree nodes decrease from parent to child. */
  lemma EndsIfLevelled(f: File, root: Addr)
    requires forall a, k :: a in f.trees && k in f.trees[a].kids && k in f.trees && f.trees[a].level > 0 ==>
               f.trees[k].level < f.trees[a].level
    ensures Terminates(f, root)
  {
    forall a: Addr | Reaches(f, HeaderAt(root), TreeAt(a)) ensures !Reach(TreeEdges(f), a, a) {
      if Reach(TreeEdges(f), a, a) { Levelled(f, a); }
    }
    EndsIffNoLoop(f, root);
  }

  lemma Levelled(f: File, a: Addr)
    requires forall a, k :: a in f.trees && k in f.trees[a].kids && k in f.trees && f.trees[a].level > 0 ==>
               f.trees[k].level < f.trees[a].level
    ensures !Reach(TreeEdges(f), a, a)
  {
    var below := (x: Addr, y: Addr) => x in f.trees && (y in f.trees ==> f.trees[y].level < f.trees[x].level);
    if Reach(TreeEdges(f), a, a) { ReachLeast(TreeEdges(f), below, a, a); }
  }

  /** No failure can get lost if external-file messages have good heaps and stand before all messages of other
      kinds but those of which the checks are done and went well. */
  lemma MildIf(f: File, p: Place)
    requires forall a, i, k ::
               && a in f.headers && 0 <= k <= i < |f.headers[a].messages|
               && f.headers[a].messages[i].ExternalFilesMessage?
               ==> f.headers[a].messages[k] == ExternalFilesMessage(true) || f.headers[a].messages[k] == OtherMessage(0)
    ensures Mild(f, p)
  {
    forall q ensures Harmless(Program(f, q)) {
      match q
      case HeaderAt(a) => if a in f.headers { MildMessages(f.headers[a].messages); }
      case TreeAt(a) => WithoutRestart(Program(f, q));
      case SymbolsAt(a) =>
        if a in f.symbols { NoExitInLinks(f.symbols[a].entries, true); }
        WithoutRestart(Program(f, q));
      case DenseNode(n) =>
        NoExitInLinks(n.records, false);
        NoRestart(n.kids);
        WithoutRestart(Program(f, q));
    }
  }

  lemma WithoutRestart(jobs: seq<Job>)
    requires forall job :: job in jobs ==> !job.Restart?
    ensures Harmless(jobs)
  {
    forall i | 0 <= i < |jobs| ensures !jobs[i].Restart? { assert jobs[i] in jobs; }
  }

  lemma {:induction false} NoRestart(kids: seq<Bt2>)
    ensures forall job :: job in DenseKids(kids) ==> !job.Restart?
  {
    if kids != [] { NoRestart(kids[..|kids| - 1]); }
  }

  lemma {:induction false} MildMessages(ms: seq<Message>)
    requires forall i, k :: 0 <= k <= i < |ms| && ms[i].ExternalFilesMessage? ==>
               ms[k] == ExternalFilesMessage(true) || ms[k] == OtherMessage(0)
    ensures Harmless(Jobs(ms))
  {
    if ms != [] {
      var front, last := ms[..|ms| - 1], ms[|ms| - 1];
      MildMessages(front);
      if last.ExternalFilesMessage? {
        AllDone(front);
      } else {
        NoRestartIn(last);
        assert forall i :: |Jobs(front)| <= i < |Jobs(ms)| ==> Jobs(ms)[i] in MessageJobs(last);
      }
      assert forall i :: 0 <= i < |Jobs(front)| ==> Jobs(ms)[i] == Jobs(front)[i];
    }
  }

  lemma NoRestartIn(m: Message)
    requires !m.ExternalFilesMessage?
    ensures forall job :: job in MessageJobs(m) ==> !job.Restart?
  {}

  lemma {:induction false} AllDone(ms: seq<Message>)
    requires forall k :: 0 <= k < |ms| ==> ms[k] == ExternalFilesMessage(true) || ms[k] == OtherMessage(0)
    ensures forall k :: 0 <= k < |Jobs(ms)| ==> !Jobs(ms)[k].Go? && Quiet(Jobs(ms)[k])
  {
    if ms != [] { AllDone(ms[..|ms| - 1]); }
  }

  // ------------------------------------------------------------------------- the logger

  /** A symbol table node whose entries are all hard links adds a subgroup for each, in order, and leaves the
      base address of the group alone. */
  lemma EntriesLogged(f: File, d: nat, seen: seq<Addr>, a: Addr, r: Outcome)
    requires a in f.symbols && Walk(f, d, seen, SymbolsAt(a)) == Some(r)
    requires forall l :: l in f.symbols[a].entries ==> l.kind == HardLink && l.addr != 0xFFFF_FFFF_FFFF_FFFF
    ensures |r.names| == |f.symbols[a].entries|
    ensures forall i :: 0 <= i < |r.names| ==> r.names[i] == f.symbols[a].entries[i].name
    ensures r.base == None
  {
    var p := SymbolsAt(a);
    var s := Exec(f, d - 1, Start(f, seen, p), Program(f, p)).value;
    LinksLogged(f, d - 1, Start(f, seen, p), f.symbols[a].entries, s);
  }

  lemma {:induction false} LinksLogged(f: File, d: nat, st: State, links: seq<Link>, s: State)
    requires Exec(f, d, st, LinkJobs(links, true)) == Some(s) && !st.halted
    requires forall l :: l in links ==> l.kind == HardLink && l.addr != 0xFFFF_FFFF_FFFF_FFFF
    ensures Logged(st, s, links)
  {
    if links != [] {
      var n := |links| - 1;
      assert links[n] in links && forall l :: l in links[..n] ==> l in links;
      var jobs, last := LinkJobs(links[..n], true), LinkJob(links[n], true);
      LastLinkLogged(f, d, st, jobs, links[n], s);
      var t := Exec(f, d, st, jobs).value;
      LinksLogged(f, d, st, links[..n], t);
      OneMoreLogged(st, t, s, links);
    }
  }

  lemma OneMoreLogged(st: State, t: State, s: State, links: seq<Link>)
    requires links != [] && Logged(st, t, links[..|links| - 1])
    requires !s.halted && s.base == t.base && s.names == t.names + [links[|links| - 1].name]
    ensures Logged(st, s, links)
  {}

  /** A subgroup for each link in order, and nothing else of the logger object changed. */
  ghost predicate Logged(st: State, s: State, links: seq<Link>) {
    && !s.halted && s.base == st.base && |s.names| == |st.names| + |links| && st.names <= s.names
    && forall i :: 0 <= i < |links| ==> s.names[|st.names| + i] == links[i].name
  }

  lemma LastLinkLogged(f: File, d: nat, st: State, jobs: seq<Job>, l: Link, s: State)
    requires Exec(f, d, st, jobs + LinkJob(l, true)) == Some(s)
    requires l.kind == HardLink && l.addr != 0xFFFF_FFFF_FFFF_FFFF
    ensures Exec(f, d, st, jobs).Some?
    ensures var t := Exec(f, d, st, jobs).value;
            !t.halted ==> !s.halted && s.base == t.base && s.names == t.names + [l.name]
  {
    var job := Go(HeaderAt(l.addr), Some(l.name));
    assert LinkJob(l, true) == [job];
    assert (jobs + [job])[..|jobs|] == jobs;
  }
}
