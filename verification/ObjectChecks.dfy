/** The recursive check of an HDF5 file's object headers along its links, with its table of visited addresses and its
    logger. */
module ObjectChecks {
  import opened Options
  import opened Sequences
  import opened ObjectWalks
  import opened ObjectReach
  import opened ObjectEnds

  const INITIAL_SIZE: nat := 20

  // --------------------------------------------------------------- the visited table

  class Table {
    var objs: array<Addr>
    var nobjs: nat
    var size: nat

    ghost predicate Valid()
      reads this, objs
    {
      && nobjs <= size == objs.Length && size > 0
      && forall i :: nobjs <= i < size ==> objs[i] == ADDR_UNDEF
    }

    ghost function Contents(): seq<Addr>
      reads this, objs
      requires Valid()
    {
      objs[..nobjs]
    }

    /** table_init. */
    constructor ()
      ensures Valid() && Contents() == [] && size == INITIAL_SIZE && fresh(objs)
    {
      size := INITIAL_SIZE;
      nobjs := 0;
      objs := new Addr[INITIAL_SIZE](_ => ADDR_UNDEF);
    }

    /** table_search. */
    method Search(id: Addr) returns (found: bool)
      requires Valid()
      ensures found <==> id in Contents()
    {
      for i := 0 to nobjs
        invariant id !in objs[..i]
      {
        if objs[i] == id { return true; }
      }
      found := false;
    }

    /** table_insert: doubles the array when it is full. */
    method Insert(id: Addr)
      requires Valid()
      modifies this, objs
      ensures Valid() && Contents() == old(Contents()) + [id]
      ensures size == if old(nobjs) == old(size) then 2 * old(size) else old(size)
      ensures objs == old(objs) || fresh(objs)
    {
      if nobjs == size {
        Grow();
      }
      for i := nobjs to size
        invariant nobjs == old(nobjs) < size == objs.Length && objs[..nobjs] == old(Contents())
        invariant i <= size && forall k :: nobjs <= k < i ==> objs[k] == ADDR_UNDEF
        invariant objs == old(objs) || fresh(objs)
        invariant size == if old(nobjs) == old(size) then 2 * old(size) else old(size)
      {
        objs[i] := ADDR_UNDEF;
      }
      var i := nobjs;
      nobjs := nobjs + 1;
      objs[i] := id;
    }

    method Grow()
      requires nobjs == size == objs.Length
      modifies `size, `objs
      ensures size == 2 * old(size) == objs.Length && fresh(objs) && objs[..nobjs] == old(objs[..nobjs])
    {
      size := size * 2;
      var bigger := new Addr[size];
      for i := 0 to nobjs
        invariant size == 2 * old(size) && nobjs == old(nobjs) && objs == old(objs)
        invariant forall k :: 0 <= k < i ==> bigger[k] == objs[k]
      {
        bigger[i] := objs[i];
      }
      objs := bigger;
    }
  }

  // ---------------------------------------------------------------------- the logger

  class LoggerObj {
    const name: string
    var baseAddr: Addr
    var subgroups: seq<LoggerObj>

    constructor (name: string)
      ensures this.name == name && baseAddr == 0 && subgroups == []
    {
      this.name, baseAddr, subgroups := name, 0, [];
    }
  }

  ghost function Names(objs: seq<LoggerObj>): (r: seq<string>)
    ensures |r| == |objs| && forall i :: 0 <= i < |r| ==> r[i] == objs[i].name
  {
    seq(|objs|, i requires 0 <= i < |objs| => objs[i].name)
  }

  /** What matters of a logger object: the names of its subgroups, and its base address. */
  datatype Entry = Entry(names: seq<string>, base: Addr)

  function Logged(e: Entry, names: seq<string>, base: Option<Addr>): Entry {
    Entry(e.names + names, if base.Some? then base.value else e.base)
  }

  lemma LoggedReturned(e: Entry, st: State, r: Outcome)
    ensures var s := Returned(st, None, r);
            Logged(e, s.names, s.base) == Logged(Logged(e, st.names, st.base), r.names, r.base)
  {
    Associate(e.names, st.names, r.names);
  }

  lemma LoggedNothing(e: Entry)
    ensures Logged(e, [], None) == e
  {
    assert e.names + [] == e.names;
  }

  lemma LoggedNamed(e: Entry, st: State, name: string, r: Outcome)
    ensures var s := Returned(st, Some(name), r);
            Logged(e, s.names, s.base) == Logged(Logged(e, st.names, st.base), [name], None)
  {
    Associate(e.names, st.names, [name]);
  }

  // ------------------------------------------------------------------- loops over jobs

  lemma NextJob(f: File, d: nat, st: State, jobs: seq<Job>, i: nat)
    requires Exec(f, d, st, jobs).Some? && i < |jobs|
    ensures Exec(f, d, st, jobs[..i]).Some?
    ensures Exec(f, d, st, jobs[..i + 1]) == Step(f, d, Exec(f, d, st, jobs[..i]).value, jobs[i])
    ensures Exec(f, d, st, jobs[..i + 1]).Some?
  {
    ExecConcat(f, d, st, jobs[..i + 1], jobs[i + 1..]);
    assert jobs[..i + 1] + jobs[i + 1..] == jobs;
    assert jobs[..i + 1][..i] == jobs[..i];
  }

  lemma {:induction false} LinkJobsSplit(links: seq<Link>, n: nat, named: bool) returns (rest: seq<Job>)
    requires n <= |links|
    ensures LinkJobs(links, named) == LinkJobs(links[..n], named) + rest
    decreases |links|
  {
    if n == |links| {
      rest := [];
      assert links[..n] == links;
    } else {
      var front := links[..|links| - 1];
      rest := LinkJobsSplit(front, n, named);
      assert front[..n] == links[..n];
      Associate(LinkJobs(links[..n], named), rest, LinkJob(links[|links| - 1], named));
      rest := rest + LinkJob(links[|links| - 1], named);
    }
  }

  /** One more link. */
  lemma NextLink(f: File, d: nat, st: State, links: seq<Link>, i: nat, named: bool)
    requires Exec(f, d, st, LinkJobs(links, named)).Some? && i < |links| && !st.halted
    ensures Exec(f, d, st, LinkJobs(links[..i], named)).Some? && Exec(f, d, st, LinkJobs(links[..i + 1], named)).Some?
    ensures LinkDone(f, d, links[i], named, Exec(f, d, st, LinkJobs(links[..i], named)).value,
                     Exec(f, d, st, LinkJobs(links[..i + 1], named)).value)
  {
    var now := links[..i + 1];
    var rest := LinkJobsSplit(links, i + 1, named);
    ExecConcat(f, d, st, LinkJobs(now, named), rest);
    assert now[..i] == links[..i];
    LinkAdded(f, d, st, LinkJobs(links[..i], named), links[i], named) by { NoExitInLinks(links[..i], named); }
  }

  /** What one link changes. */
  ghost predicate LinkDone(f: File, d: nat, l: Link, named: bool, s: State, t: State) {
    && !s.halted
    && if Follow(l) then
         var r := Walk(f, d, s.seen, HeaderAt(l.addr));
         r.Some? && t == Returned(s, if named then Some(l.name) else None, r.value)
       else t == s
  }

  lemma LinkAdded(f: File, d: nat, st: State, jobs: seq<Job>, l: Link, named: bool)
    requires Exec(f, d, st, jobs + LinkJob(l, named)).Some? && !st.halted && StopOnFailure !in jobs
    ensures Exec(f, d, st, jobs).Some?
    ensures LinkDone(f, d, l, named, Exec(f, d, st, jobs).value, Exec(f, d, st, jobs + LinkJob(l, named)).value)
  {
    ExecConcat(f, d, st, jobs, LinkJob(l, named));
    NeverHalted(f, d, st, jobs);
    OneJob(f, d, Exec(f, d, st, jobs).value, LinkJob(l, named));
  }

  /** One more message. */
  lemma NextMessage(f: File, d: nat, st: State, ms: seq<Message>, i: nat)
    requires Exec(f, d, st, Jobs(ms)).Some? && i < |ms| && !st.halted
    ensures Exec(f, d, st, Jobs(ms[..i])).Some?
    ensures var s := Exec(f, d, st, Jobs(ms[..i])).value;
            && !s.halted && Exec(f, d, s, MessageJobs(ms[i])).Some?
            && Exec(f, d, st, Jobs(ms[..i + 1])) == Exec(f, d, s, MessageJobs(ms[i]))
  {
    MessagesSplit(ms, i);
    NoExitInMessages(ms[..i]);
    MiddleRuns(f, d, st, Jobs(ms[..i]), MessageJobs(ms[i]), Jobs(ms[i + 1..]));
  }

  lemma MessagesSplit(ms: seq<Message>, i: nat)
    requires i < |ms|
    ensures Jobs(ms[..i + 1]) == Jobs(ms[..i]) + MessageJobs(ms[i])
    ensures Jobs(ms) == Jobs(ms[..i]) + MessageJobs(ms[i]) + Jobs(ms[i + 1..])
  {
    var front, now, rest := ms[..i], ms[..i + 1], ms[i + 1..];
    OneMore(ms, i);
    JobsLast(now, front, ms[i]);
    Rejoin(ms, i + 1);
    JobsConcat(now, rest);
  }

  lemma MiddleRuns(f: File, d: nat, st: State, a: seq<Job>, b: seq<Job>, rest: seq<Job>)
    requires Exec(f, d, st, a + b + rest).Some? && !st.halted && StopOnFailure !in a
    ensures Exec(f, d, st, a).Some? && !Exec(f, d, st, a).value.halted
    ensures Exec(f, d, Exec(f, d, st, a).value, b).Some?
    ensures Exec(f, d, st, a + b) == Exec(f, d, Exec(f, d, st, a).value, b)
  {
    ExecConcat(f, d, st, a + b, rest);
    ExecConcat(f, d, st, a, b);
    NeverHalted(f, d, st, a);
  }

  lemma {:induction false} DenseKidsSplit(kids: seq<Bt2>, n: nat) returns (rest: seq<Job>)
    requires n <= |kids|
    ensures DenseKids(kids) == DenseKids(kids[..n]) + rest
    decreases |kids|
  {
    if n == |kids| {
      rest := [];
      assert kids[..n] == kids;
    } else {
      var front, last := kids[..|kids| - 1], [Go(DenseNode(kids[|kids| - 1]), None), StopOnFailure];
      rest := DenseKidsSplit(front, n);
      assert front[..n] == kids[..n];
      Associate(DenseKids(kids[..n]), rest, last);
      rest := rest + last;
    }
  }

  /** One more child of a version 2 B-tree node: if it fails, there is an end to it. */
  lemma NextKid(f: File, d: nat, st: State, kids: seq<Bt2>, i: nat)
    requires Exec(f, d, st, DenseKids(kids)).Some? && i < |kids|
    requires Exec(f, d, st, DenseKids(kids[..i])).Some?
    requires var s := Exec(f, d, st, DenseKids(kids[..i])).value; !s.halted && s.count == 0
    ensures var s := Exec(f, d, st, DenseKids(kids[..i])).value;
            var r := Walk(f, d, s.seen, DenseNode(kids[i]));
            && r.Some?
            && var t := Returned(s, None, r.value).(halted := r.value.failed);
               && Exec(f, d, st, DenseKids(kids[..i + 1])) == Some(t)
               && (r.value.failed ==> exists cut :: Exec(f, d, st, DenseKids(kids)) == Some(t.(cut := cut)))
  {
    var rest := DenseKidsSplit(kids, i + 1);
    ExecConcat(f, d, st, DenseKids(kids[..i + 1]), rest);
    var s := Exec(f, d, st, DenseKids(kids[..i])).value;
    assert kids[..i + 1][..i] == kids[..i];
    var both := [Go(DenseNode(kids[i]), None), StopOnFailure];
    ExecConcat(f, d, st, DenseKids(kids[..i]), both);
    ExecConcat(f, d, s, [Go(DenseNode(kids[i]), None)], [StopOnFailure]);
    assert both == [Go(DenseNode(kids[i]), None)] + [StopOnFailure];
    OneJob(f, d, s, [Go(DenseNode(kids[i]), None)]);
    var r := Walk(f, d, s.seen, DenseNode(kids[i])).value;
    OneJob(f, d, Returned(s, None, r), [StopOnFailure]);
    var t := Exec(f, d, st, DenseKids(kids[..i + 1])).value;
    if r.failed {
      Halted(f, d, t, rest);
      assert Exec(f, d, st, DenseKids(kids)) == Some(t.(cut := if rest == [] then t.cut else true));
    }
  }

  // ------------------------------------------------------------------------ the check

  class Checker {
    const file: File
    const table: Table
    /** logger.current_obj */
    var current: LoggerObj

    ghost function Seen(): seq<Addr>
      reads table, table.objs
      requires table.Valid()
    {
      table.Contents()
    }

    ghost function Here(): Entry
      reads this, current
    {
      Entry(Names(current.subgroups), current.baseAddr)
    }

    /** The state in the course of a call, the current logger object having been as in e at its beginning. */
    ghost predicate During(st: State, e: Entry)
      reads this, current, table, table.objs
    {
      table.Valid() && Seen() == st.seen && Here() == Logged(e, st.names, st.base)
    }

    /** The state after a call. */
    ghost predicate After(r: Outcome, e: Entry)
      reads this, current, table, table.objs
    {
      table.Valid() && Seen() == r.seen && Here() == Logged(e, r.names, r.base)
    }

    constructor (file: File, root: LoggerObj)
      ensures this.file == file && current == root && fresh(table) && fresh(table.objs)
      ensures table.Valid() && table.Contents() == []
    {
      this.file := file;
      table := new Table();
      current := root;
    }

    /** check_obj_header: an address that is in the table is not expanded again. */
    method CheckObjHeader(addr: Addr, ghost d: nat) returns (ok: bool)
      requires table.Valid() && Walk(file, d, Seen(), HeaderAt(addr)).Some?
      modifies `current, current, table, table.objs
      ensures table.objs == old(table.objs) || fresh(table.objs)
      ensures current == old(current)
      ensures var r := Walk(file, d, old(Seen()), HeaderAt(addr)).value; After(r, old(Here())) && (ok <==> !r.failed)
      ensures addr in old(table.Contents()) ==>
                ok && table.Contents() == old(table.Contents()) && current.subgroups == old(current.subgroups)
                && current.baseAddr == old(current.baseAddr)
      decreases d, 1
    {
      LoggedNothing(Here());
      var found := table.Search(addr);
      if found {
        return true;
      }
      ghost var seen, e := Seen(), Here();
      table.Insert(addr);
      ok := Expand(addr, d, seen, e);
    }

    /** The header at an address that has just been put into the table. */
    method Expand(addr: Addr, ghost d: nat, ghost seen: seq<Addr>, ghost e: Entry) returns (ok: bool)
      requires table.Valid() && Seen() == seen + [addr] && addr !in seen && e == Here()
      requires Walk(file, d, seen, HeaderAt(addr)).Some?
      modifies `current, current, table, table.objs
      ensures table.objs == old(table.objs) || fresh(table.objs)
      ensures current == old(current)
      ensures var r := Walk(file, d, seen, HeaderAt(addr)).value; After(r, e) && (ok <==> !r.failed)
      decreases d, 0
    {
      Entered(file, d, seen, HeaderAt(addr));
      LoggedNothing(e);
      ok := false;
      if addr in file.headers {
        ok := CheckHeader(addr, d - 1, Start(file, seen, HeaderAt(addr)), e);
      }
    }

    method CheckHeader(addr: Addr, ghost d: nat, ghost st: State, ghost e: Entry) returns (ok: bool)
      requires addr in file.headers && table.Valid() && Seen() == st.seen && e == Here()
      requires !st.halted && st.count == 0 && st.names == []
      requires st.base == if file.headers[addr].complete then Some(addr) else None
      requires Exec(file, d, st, Program(file, HeaderAt(addr))).Some?
      modifies `current, current, table, table.objs
      ensures table.objs == old(table.objs) || fresh(table.objs)
      ensures current == old(current)
      ensures var s := Exec(file, d, st, Program(file, HeaderAt(addr))).value;
              During(s, e) && (ok <==> !OwnFails(file, HeaderAt(addr)) && s.count == 0)
      decreases d, 5
    {
      LoggedNothing(e);
      var header := file.headers[addr];
      if header.complete { current.baseAddr := addr; }
      var retOtherErr := DecodeValidateMessages(header.messages, d, st, e);
      ok := !header.bad && header.complete && retOtherErr == 0;
    }

    /** decode_validate_messages: counts the failures, but an external-file message sets the count to the result
        of its own check, which is 0 or -1. */
    method DecodeValidateMessages(messages: seq<Message>, ghost d: nat, ghost st: State, ghost e: Entry)
      returns (retOtherErr: int)
      requires During(st, e) && !st.halted && st.count == 0 && Exec(file, d, st, Jobs(messages)).Some?
      modifies `current, current, table, table.objs
      ensures table.objs == old(table.objs) || fresh(table.objs)
      ensures current == old(current)
      ensures var s := Exec(file, d, st, Jobs(messages)).value; During(s, e) && retOtherErr == s.count
      decreases d, 4
    {
      retOtherErr := 0;
      ghost var s := st;
      for i := 0 to |messages|
        invariant Exec(file, d, st, Jobs(messages[..i])) == Some(s) && !s.halted
        invariant During(s, e) && retOtherErr == s.count
        invariant current == old(current) && (table.objs == old(table.objs) || fresh(table.objs))
      {
        NextMessage(file, d, st, messages, i);
        retOtherErr, s := CheckMessage(messages[i], retOtherErr, d, s, e);
      }
      assert messages[..|messages|] == messages;
    }

    method CheckMessage(m: Message, count: int, ghost d: nat, ghost st: State, ghost e: Entry)
      returns (retOtherErr: int, ghost s: State)
      requires During(st, e) && !st.halted && st.count == count && Exec(file, d, st, MessageJobs(m)).Some?
      modifies `current, current, table, table.objs
      ensures table.objs == old(table.objs) || fresh(table.objs)
      ensures current == old(current)
      ensures Exec(file, d, st, MessageJobs(m)) == Some(s) && !s.halted && During(s, e) && retOtherErr == s.count
      decreases d, 3
    {
      retOtherErr, s := count, Exec(file, d, st, MessageJobs(m)).value;
      if !m.DenseMessage? { OneJob(file, d, st, MessageJobs(m)); }
      match m {
        case LinkMessage(link) =>
          if Follow(link) {
            var ok := Descend(link, d, st, e);
            if !ok { retOtherErr := retOtherErr + 1; }
          }
        case BTreeMessage(goodHeap, btree) =>
          if goodHeap {
            LoggedReturned(e, st, Walk(file, d, st.seen, TreeAt(btree)).value);
            var ok := CheckBTree(btree, d);
            if !ok { retOtherErr := retOtherErr + 1; }
          } else {
            retOtherErr := retOtherErr + 1;
          }
        case DenseMessage(failures, indexes) =>
          retOtherErr, s := CheckDense(failures, indexes, count, d, st, e);
        case ExternalFilesMessage(goodHeap) =>
          retOtherErr := if goodHeap then 0 else -1;
        case OtherMessage(failures) =>
          retOtherErr := retOtherErr + failures;
      }
    }

    /** The indexes of dense storage, by creation order and by name. */
    method CheckDense(failures: nat, indexes: seq<Bt2>, count: int, ghost d: nat, ghost st: State, ghost e: Entry)
      returns (retOtherErr: int, ghost s: State)
      requires During(st, e) && !st.halted && st.count == count
      requires Exec(file, d, st, MessageJobs(DenseMessage(failures, indexes))).Some?
      modifies `current, current, table, table.objs
      ensures table.objs == old(table.objs) || fresh(table.objs)
      ensures current == old(current)
      ensures Exec(file, d, st, MessageJobs(DenseMessage(failures, indexes))) == Some(s)
      ensures !s.halted && During(s, e) && retOtherErr == s.count
      decreases d, 2
    {
      DenseRuns(failures, indexes, d, st);
      retOtherErr, s := CheckIndexes(indexes, count + failures, d, st.(count := st.count + failures), e);
    }

    lemma DenseRuns(failures: nat, indexes: seq<Bt2>, d: nat, st: State)
      requires !st.halted
      ensures Exec(file, d, st, MessageJobs(DenseMessage(failures, indexes))) ==
              Exec(file, d, st.(count := st.count + failures), Calls(DenseRoots(indexes)))
    {
      ExecFirst(file, d, st, Count(failures), Calls(DenseRoots(indexes)));
    }

    method CheckIndexes(indexes: seq<Bt2>, count: int, ghost d: nat, ghost st: State, ghost e: Entry)
      returns (retOtherErr: int, ghost s: State)
      requires During(st, e) && !st.halted && st.count == count && Exec(file, d, st, Calls(DenseRoots(indexes))).Some?
      modifies `current, current, table, table.objs
      ensures table.objs == old(table.objs) || fresh(table.objs)
      ensures current == old(current)
      ensures Exec(file, d, st, Calls(DenseRoots(indexes))) == Some(s)
      ensures !s.halted && During(s, e) && retOtherErr == s.count
      decreases d, 1
    {
      retOtherErr, s := count, st;
      ghost var jobs := Calls(DenseRoots(indexes));
      for i := 0 to |indexes|
        invariant Exec(file, d, st, jobs[..i]) == Some(s) && !s.halted
        invariant During(s, e) && retOtherErr == s.count
        invariant current == old(current) && (table.objs == old(table.objs) || fresh(table.objs))
      {
        NextJob(file, d, st, jobs, i);
        ghost var r := Walk(file, d, s.seen, DenseNode(indexes[i])).value;
        LoggedReturned(e, s, r);
        var ok := CheckBTree2(indexes[i], d);
        if !ok { retOtherErr := retOtherErr + 1; }
        s := Returned(s, None, r);
      }
      assert jobs[..|indexes|] == jobs;
    }

    /** Follows one link with a new logger object as the current one, then comes back to the old one. */
    method Descend(link: Link, ghost d: nat, ghost st: State, ghost e: Entry) returns (ok: bool)
      requires During(st, e) && Follow(link) && Walk(file, d, st.seen, HeaderAt(link.addr)).Some?
      modifies `current, current, table, table.objs
      ensures table.objs == old(table.objs) || fresh(table.objs)
      ensures current == old(current)
      ensures var r := Walk(file, d, st.seen, HeaderAt(link.addr)).value;
              During(Returned(st, Some(link.name), r), e) && (ok <==> !r.failed)
      ensures var n := |old(current.subgroups)|;
              && |current.subgroups| == n + 1 && current.subgroups[..n] == old(current.subgroups)
              && current.subgroups[n].name == link.name && current.baseAddr == old(current.baseAddr)
      decreases d, 2
    {
      var newObj := new LoggerObj(link.name);
      var currObj := current;
      currObj.subgroups := currObj.subgroups + [newObj];
      current := newObj;
      LoggedNamed(e, st, link.name, Walk(file, d, st.seen, HeaderAt(link.addr)).value);
      ok := CheckObjHeader(link.addr, d);
      current := currObj;
    }

    /** check_btree: nothing guards against a node that comes below itself. */
    method CheckBTree(addr: Addr, ghost d: nat) returns (ok: bool)
      requires table.Valid() && Walk(file, d, Seen(), TreeAt(addr)).Some?
      modifies `current, current, table, table.objs
      ensures table.objs == old(table.objs) || fresh(table.objs)
      ensures current == old(current)
      ensures var r := Walk(file, d, old(Seen()), TreeAt(addr)).value; After(r, old(Here())) && (ok <==> !r.failed)
      decreases d, 0
    {
      Entered(file, d, Seen(), TreeAt(addr));
      LoggedNothing(Here());
      ok := false;
      if addr in file.trees {
        ok := CheckChildren(file.trees[addr], d - 1, Start(file, Seen(), TreeAt(addr)), Here());
      }
    }

    /** The children of a version 1 node. */
    method CheckChildren(node: TreeNode, ghost d: nat, ghost st: State, ghost e: Entry) returns (ok: bool)
      requires During(st, e) && !st.halted && st.count == 0 && Exec(file, d, st, Calls(KidPlaces(node))).Some?
      modifies `current, current, table, table.objs
      ensures table.objs == old(table.objs) || fresh(table.objs)
      ensures current == old(current)
      ensures var s := Exec(file, d, st, Calls(KidPlaces(node))).value;
              During(s, e) && (ok <==> !node.bad && s.count == 0)
      decreases d, 2
    {
      ok := !node.bad;
      ghost var jobs, s := Calls(KidPlaces(node)), st;
      if node.level > 0 || node.symbols {
        for i := 0 to |node.kids|
          invariant Exec(file, d, st, jobs[..i]) == Some(s) && !s.halted && s.count >= 0
          invariant During(s, e) && (ok <==> !node.bad && s.count == 0)
          invariant current == old(current) && (table.objs == old(table.objs) || fresh(table.objs))
        {
          NextJob(file, d, st, jobs, i);
          ghost var r := Walk(file, d, s.seen, KidPlaces(node)[i]).value;
          LoggedReturned(e, s, r);
          var below := CheckChild(node, i, d);
          if !below { ok := false; }
          s := Returned(s, None, r);
        }
        assert jobs[..|node.kids|] == jobs;
      }
    }

    method CheckChild(node: TreeNode, i: nat, ghost d: nat) returns (ok: bool)
      requires i < |KidPlaces(node)| && table.Valid() && Walk(file, d, Seen(), KidPlaces(node)[i]).Some?
      modifies `current, current, table, table.objs
      ensures table.objs == old(table.objs) || fresh(table.objs)
      ensures current == old(current)
      ensures var r := Walk(file, d, old(Seen()), KidPlaces(node)[i]).value;
              After(r, old(Here())) && (ok <==> !r.failed)
      decreases d, 1
    {
      if node.level > 0 {
        ok := CheckBTree(node.kids[i], d);
      } else {
        ok := CheckSym(node.kids[i], d);
      }
    }

    /** check_sym. */
    method CheckSym(addr: Addr, ghost d: nat) returns (ok: bool)
      requires table.Valid() && Walk(file, d, Seen(), SymbolsAt(addr)).Some?
      modifies `current, current, table, table.objs
      ensures table.objs == old(table.objs) || fresh(table.objs)
      ensures current == old(current)
      ensures var r := Walk(file, d, old(Seen()), SymbolsAt(addr)).value; After(r, old(Here())) && (ok <==> !r.failed)
      decreases d, 0
    {
      Entered(file, d, Seen(), SymbolsAt(addr));
      LoggedNothing(Here());
      ok := false;
      if addr in file.symbols {
        ok := CheckEntries(file.symbols[addr], d - 1, Start(file, Seen(), SymbolsAt(addr)), Here());
      }
    }

    method CheckEntries(node: SymbolNode, ghost d: nat, ghost st: State, ghost e: Entry) returns (ok: bool)
      requires During(st, e) && !st.halted && st.count == 0 && Exec(file, d, st, LinkJobs(node.entries, true)).Some?
      modifies `current, current, table, table.objs
      ensures table.objs == old(table.objs) || fresh(table.objs)
      ensures current == old(current)
      ensures var s := Exec(file, d, st, LinkJobs(node.entries, true)).value;
              During(s, e) && (ok <==> !node.bad && s.count == 0)
      decreases d, 3
    {
      ok := !node.bad;
      ghost var s := st;
      for i := 0 to |node.entries|
        invariant Exec(file, d, st, LinkJobs(node.entries[..i], true)) == Some(s) && !s.halted && s.count >= 0
        invariant During(s, e) && (ok <==> !node.bad && s.count == 0)
        invariant current == old(current) && (table.objs == old(table.objs) || fresh(table.objs))
      {
        NextLink(file, d, st, node.entries, i, true);
        if Follow(node.entries[i]) {
          ghost var r := Walk(file, d, s.seen, HeaderAt(node.entries[i].addr)).value;
          var below := Descend(node.entries[i], d, s, e);
          if !below { ok := false; }
          s := Returned(s, Some(node.entries[i].name), r);
        }
      }
      assert node.entries[..|node.entries|] == node.entries;
    }

    /** check_bt2_real with G_dense_ck_fh_msg_cb: checks the headers that the records refer to, with the same logger
        object as the current one, then the children; leaves at the first failing child. */
    method CheckBTree2(n: Bt2, ghost d: nat) returns (ok: bool)
      requires table.Valid() && Walk(file, d, Seen(), DenseNode(n)).Some?
      modifies `current, current, table, table.objs
      ensures table.objs == old(table.objs) || fresh(table.objs)
      ensures current == old(current)
      ensures var r := Walk(file, d, old(Seen()), DenseNode(n)).value; After(r, old(Here())) && (ok <==> !r.failed)
      decreases d, 0
    {
      ghost var e, start := Here(), Start(file, Seen(), DenseNode(n));
      Entered(file, d, Seen(), DenseNode(n));
      LoggedNothing(e);
      ghost var s;
      NodeRuns(n, d - 1, start);
      ok, s := CheckRecords(n, d - 1, start, e);
      if ok {
        ok := CheckKids(n.kids, d - 1, s, e);
      }
    }

    /** The records, then the children unless there was a failure. */
    lemma NodeRuns(n: Bt2, d: nat, st: State)
      requires Exec(file, d, st, Program(file, DenseNode(n))).Some? && !st.halted && st.count == 0
      ensures Exec(file, d, st, LinkJobs(n.records, false)).Some?
      ensures var s := Exec(file, d, st, LinkJobs(n.records, false)).value;
              var t := Exec(file, d, st, Program(file, DenseNode(n)));
              && !s.halted
              && (n.bad ==> t == Some(s))
              && (!n.bad && s.count == 0 ==> t == Exec(file, d, s, DenseKids(n.kids)))
              && (!n.bad && s.count != 0 ==> exists cut :: t == Some(s.(halted := true, cut := cut)))
    {
      var records := LinkJobs(n.records, false);
      NoExitInLinks(n.records, false);
      ExecConcat(file, d, st, records, if n.bad then [] else [StopOnFailure] + DenseKids(n.kids));
      NeverHalted(file, d, st, records);
      if !n.bad {
        var s := Exec(file, d, st, records).value;
        ExecConcat(file, d, s, [StopOnFailure], DenseKids(n.kids));
        OneJob(file, d, s, [StopOnFailure]);
        if s.count != 0 { Halted(file, d, s.(halted := true), DenseKids(n.kids)); }
      }
    }

    /** The records of a node. */
    method CheckRecords(n: Bt2, ghost d: nat, ghost st: State, ghost e: Entry) returns (ok: bool, ghost s: State)
      requires During(st, e) && !st.halted && st.count == 0 && Exec(file, d, st, LinkJobs(n.records, false)).Some?
      modifies `current, current, table, table.objs
      ensures table.objs == old(table.objs) || fresh(table.objs)
      ensures current == old(current)
      ensures Exec(file, d, st, LinkJobs(n.records, false)) == Some(s) && !s.halted && s.count >= 0
      ensures During(s, e) && (ok <==> !n.bad && s.count == 0)
      decreases d, 2
    {
      ok, s := !n.bad, st;
      for i := 0 to |n.records|
        invariant Exec(file, d, st, LinkJobs(n.records[..i], false)) == Some(s) && !s.halted && s.count >= 0
        invariant During(s, e) && (ok <==> !n.bad && s.count == 0)
        invariant current == old(current) && (table.objs == old(table.objs) || fresh(table.objs))
      {
        NextLink(file, d, st, n.records, i, false);
        if Follow(n.records[i]) {
          ghost var r := Walk(file, d, s.seen, HeaderAt(n.records[i].addr)).value;
          LoggedReturned(e, s, r);
          var below := CheckObjHeader(n.records[i].addr, d);
          if !below { ok := false; }
          s := Returned(s, None, r);
        }
      }
      assert n.records[..|n.records|] == n.records;
    }

    /** The children of a node. */
    method CheckKids(kids: seq<Bt2>, ghost d: nat, ghost st: State, ghost e: Entry) returns (ok: bool)
      requires During(st, e) && !st.halted && st.count == 0 && Exec(file, d, st, DenseKids(kids)).Some?
      modifies `current, current, table, table.objs
      ensures table.objs == old(table.objs) || fresh(table.objs)
      ensures current == old(current)
      ensures var s := Exec(file, d, st, DenseKids(kids)).value; During(s, e) && (ok <==> s.count == 0)
      decreases d, 2
    {
      ghost var s := st;
      for i := 0 to |kids|
        invariant Exec(file, d, st, DenseKids(kids[..i])) == Some(s) && !s.halted && s.count == 0 && During(s, e)
        invariant current == old(current) && (table.objs == old(table.objs) || fresh(table.objs))
      {
        NextKid(file, d, st, kids, i);
        ghost var r := Walk(file, d, s.seen, DenseNode(kids[i])).value;
        LoggedReturned(e, s, r);
        ok := CheckBTree2(kids[i], d);
        if !ok { return; }
        s := Returned(s, None, r).(halted := r.failed);
      }
      assert kids[..|kids|] == kids;
      ok := true;
    }
  }
  /** The check of a whole file, where it comes to an end. It expands no address twice and none that cannot be
      reached, and does not fail without a cause. Without dense storage it expands all that can be reached. Where
      no failure can get lost, it succeeds exactly when nothing is wrong with all that can be reached, which it
      then has expanded. */
  method CheckFile(file: File, rootAddr: Addr, root: LoggerObj) returns (ok: bool, ghost expanded: seq<Addr>)
    requires Terminates(file, rootAddr)
    modifies root
    ensures NoDup(expanded) && forall a :: a in expanded ==> Reaches(file, HeaderAt(rootAddr), HeaderAt(a))
    ensures !ok ==> Faulty(file, HeaderAt(rootAddr))
    ensures Sparse(file, HeaderAt(rootAddr)) || (Mild(file, HeaderAt(rootAddr)) && ok) ==>
              forall a :: Reaches(file, HeaderAt(rootAddr), HeaderAt(a)) ==> a in expanded
    ensures Mild(file, HeaderAt(rootAddr)) ==> (ok <==> !Faulty(file, HeaderAt(rootAddr)))
    ensures exists d: nat, r ::
              Walk(file, d, [], HeaderAt(rootAddr)) == Some(r) && r.seen == expanded && (ok <==> !r.failed)
  {
    ghost var d: nat :| Walk(file, d, [], HeaderAt(rootAddr)).Some?;
    var checker := new Checker(file, root);
    ok := checker.CheckObjHeader(rootAddr, d);
    expanded := checker.Seen();
    ghost var r := Walk(file, d, [], HeaderAt(rootAddr)).value;
    assert Walk(file, d, [], HeaderAt(rootAddr)) == Some(r);
    WalkIsReachability(file, d, rootAddr);
    Verdict(file, d, rootAddr);
    if Sparse(file, HeaderAt(rootAddr)) { SparseUncut(file, d, [], HeaderAt(rootAddr)); }
  }
}
