/** What the recursive check of an HDF5 file's object headers does, call by call: which addresses it expands, when it
    fails, when it stops early or never ends, and what it writes to the logger. */
module ObjectWalks {
  import opened Options

  type Addr = nat

  const ADDR_UNDEF: Addr := 0xFFFF_FFFF_FFFF_FFFF

  // ---------------------------------------------------------------------- the file

  datatype LinkKind = HardLink | SoftLink | ExternalLink

  datatype Link = Link(name: string, kind: LinkKind, addr: Addr)

  /** A node of a version 2 B-tree with the links its records refer to: the depth in its header bounds the recursion,
      so what is read is a tree. */
  datatype Bt2 = Bt2(bad: bool, records: seq<Link>, kids: seq<Bt2>)

  /** What is left to do for a message whose own decoding went well. */
  datatype Message =
    | LinkMessage(link: Link)
    /** A symbol table, or a chunk index (which has no heap to be checked first). */
    | BTreeMessage(goodHeap: bool, btree: Addr)
    /** Links in dense storage: the failures of the heap check, and the indexes by creation order and by name. */
    | DenseMessage(failures: nat, indexes: seq<Bt2>)
    | ExternalFilesMessage(goodHeap: bool)
    /** Checks that lead to no object header; as many of them fail. */
    | OtherMessage(failures: nat)

  /** Whether a check of the header's own bytes fails, whether its chunks are read to the end in spite of that,
      and the messages that were read, in order. */
  datatype Header = Header(bad: bool, complete: bool, messages: seq<Message>)

  /** A node of a version 1 B-tree: its children are nodes above level 0, symbol table nodes or raw data at level
      0. */
  datatype TreeNode = TreeNode(bad: bool, level: nat, symbols: bool, kids: seq<Addr>)

  datatype SymbolNode = SymbolNode(bad: bool, entries: seq<Link>)

  /** The headers and nodes that can be read. */
  datatype File = File(headers: map<Addr, Header>, trees: map<Addr, TreeNode>, symbols: map<Addr, SymbolNode>)

  predicate Follow(l: Link) { l.kind == HardLink && l.addr != ADDR_UNDEF }

  // ------------------------------------------------------------- what a check consists of

  /** What one of the recursive functions is called for. */
  datatype Place = HeaderAt(addr: Addr) | TreeAt(addr: Addr) | SymbolsAt(addr: Addr) | DenseNode(node: Bt2)

  /** The steps of such a call: another call, with a new logger object of the given name as the current one if
      there is a name; failures to be counted; the failure count set; leaving as soon as there is a failure. */
  datatype Job = Go(place: Place, name: Option<string>) | Count(failures: nat) | Restart(count: int) | StopOnFailure

  function LinkJob(l: Link, named: bool): seq<Job> {
    if Follow(l) then [Go(HeaderAt(l.addr), if named then Some(l.name) else None)] else []
  }

  function LinkJobs(links: seq<Link>, named: bool): seq<Job> {
    if links == [] then [] else LinkJobs(links[..|links| - 1], named) + LinkJob(links[|links| - 1], named)
  }

  function Calls(places: seq<Place>): (r: seq<Job>)
    ensures |r| == |places| && forall i :: 0 <= i < |r| ==> r[i] == Go(places[i], None)
  {
    seq(|places|, i requires 0 <= i < |places| => Go(places[i], None))
  }

  function DenseRoots(nodes: seq<Bt2>): (r: seq<Place>)
    ensures |r| == |nodes| && forall i :: 0 <= i < |r| ==> r[i] == DenseNode(nodes[i])
  {
    seq(|nodes|, i requires 0 <= i < |nodes| => DenseNode(nodes[i]))
  }

  function MessageJobs(m: Message): seq<Job> {
    match m
    case LinkMessage(link) => LinkJob(link, true)
    case BTreeMessage(goodHeap, btree) => if goodHeap then [Go(TreeAt(btree), None)] else [Count(1)]
    case DenseMessage(failures, indexes) => [Count(failures)] + Calls(DenseRoots(indexes))
    case ExternalFilesMessage(goodHeap) => [Restart(if goodHeap then 0 else -1)]
    case OtherMessage(failures) => [Count(failures)]
  }

  function Jobs(ms: seq<Message>): seq<Job> {
    if ms == [] then [] else Jobs(ms[..|ms| - 1]) + MessageJobs(ms[|ms| - 1])
  }

  /** The children of a version 1 B-tree node. */
  function KidPlaces(n: TreeNode): (r: seq<Place>)
    ensures n.level == 0 && !n.symbols ==> r == []
    ensures n.level > 0 || n.symbols ==>
              |r| == |n.kids| &&
              forall i :: 0 <= i < |r| ==> r[i] == if n.level > 0 then TreeAt(n.kids[i]) else SymbolsAt(n.kids[i])
  {
    if n.level == 0 && !n.symbols then []
    else seq(|n.kids|, i requires 0 <= i < |n.kids| => if n.level > 0 then TreeAt(n.kids[i]) else SymbolsAt(n.kids[i]))
  }

  /** Version 2 B-trees are left at the first child that fails. */
  function DenseKids(kids: seq<Bt2>): seq<Job> {
    if kids == [] then []
    else DenseKids(kids[..|kids| - 1]) + [Go(DenseNode(kids[|kids| - 1]), None), StopOnFailure]
  }

  function Program(f: File, p: Place): seq<Job> {
    match p
    case HeaderAt(a) => if a in f.headers then Jobs(f.headers[a].messages) else []
    case TreeAt(a) => if a in f.trees then Calls(KidPlaces(f.trees[a])) else []
    case SymbolsAt(a) => if a in f.symbols then LinkJobs(f.symbols[a].entries, true) else []
    case DenseNode(n) => LinkJobs(n.records, false) + if n.bad then [] else [StopOnFailure] + DenseKids(n.kids)
  }

  /** A check of the bytes read for this call fails. */
  predicate OwnFails(f: File, p: Place) {
    match p
    case HeaderAt(a) => a !in f.headers || f.headers[a].bad || !f.headers[a].complete
    case TreeAt(a) => a !in f.trees || f.trees[a].bad
    case SymbolsAt(a) => a !in f.symbols || f.symbols[a].bad
    case DenseNode(n) => n.bad
  }

  // ------------------------------------------------------------------------ the walk

  /** What a call leaves behind: the table of addresses, whether it failed, whether some jobs were left out on
      the way, and what it did to the current logger object: the names of the subgroups added and the base
      address set last. */
  datatype Outcome = Outcome(seen: seq<Addr>, failed: bool, cut: bool, names: seq<string>, base: Option<Addr>)

  /** The same in the course of a call, with the failure count and whether the call is to be left. */
  datatype State =
    State(seen: seq<Addr>, count: int, halted: bool, cut: bool, names: seq<string>, base: Option<Addr>)

  function Start(f: File, seen: seq<Addr>, p: Place): State {
    State(if p.HeaderAt? then seen + [p.addr] else seen, 0, false, false, [],
          if p.HeaderAt? && p.addr in f.headers && f.headers[p.addr].complete then Some(p.addr) else None)
  }

  /** A call that may nest d calls deep, itself included; None when that is not enough. */
  function Walk(f: File, d: nat, seen: seq<Addr>, p: Place): Option<Outcome>
    decreases d, 0
  {
    if d == 0 then None
    else if p.HeaderAt? && p.addr in seen then Some(Outcome(seen, false, false, [], None))
    else
      var st := Exec(f, d - 1, Start(f, seen, p), Program(f, p));
      if st.None? then None else Some(Ended(f, p, st.value))
  }

  function Ended(f: File, p: Place, st: State): Outcome {
    Outcome(st.seen, OwnFails(f, p) || st.count != 0, st.cut, st.names, st.base)
  }

  function Exec(f: File, d: nat, st: State, jobs: seq<Job>): Option<State>
    decreases d, 1 + |jobs|
  {
    if jobs == [] then Some(st)
    else
      var before := Exec(f, d, st, jobs[..|jobs| - 1]);
      if before.None? then None else Step(f, d, before.value, jobs[|jobs| - 1])
  }

  function Step(f: File, d: nat, st: State, job: Job): Option<State>
    decreases d, 1
  {
    if st.halted then Some(st.(cut := true))
    else
      match job
      case Go(p, name) =>
        var r := Walk(f, d, st.seen, p);
        if r.None? then None else Some(Returned(st, name, r.value))
      case Count(n) => Some(st.(count := st.count + n))
      case Restart(n) => Some(st.(count := n))
      case StopOnFailure => Some(st.(halted := st.count != 0))
  }

  /** After a nested call; what it did to a new logger object of its own does not show in the current one. */
  function Returned(st: State, name: Option<string>, r: Outcome): State {
    State(r.seen, st.count + (if r.failed then 1 else 0), st.halted, st.cut || r.cut,
          st.names + (if name.Some? then [name.value] else r.names),
          if name.None? && r.base.Some? then r.base else st.base)
  }
}
