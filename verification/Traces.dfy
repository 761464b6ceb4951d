/** The traced calls of the servers of a parallel file system. */
module Traces {
  import opened Sequences

  datatype Op =
    | Creat(path: string)
    | Mkdir(path: string)
    | Unlink(path: string)
    | Truncate(path: string, length: int)
    | Pwrite(path: string, offset: int, content: seq<int>)
    | Setxattr(path: string, key: string, value: seq<int>)
    | Removexattr(path: string, key: string)
    | Fsync(path: string)
    | Link(src: string, dest: string)
    | Rename(src: string, dest: string)
    | Sendto(peer: string)
    | Recvfrom(peer: string)

  /** A call object. Timestamps are distinct in a trace, so equality of values is identity of objects. */
  datatype Call = Call(service: string, timestamp: real, op: Op)

  /** One server with its calls in time order. */
  datatype Service = Service(name: string, syscalls: seq<Call>)

  predicate IsNetwork(c: Call) { c.op.Sendto? || c.op.Recvfrom? }

  function Paths(c: Call): seq<string>
    requires !IsNetwork(c)
  {
    if c.op.Link? || c.op.Rename? then [c.op.src, c.op.dest] else [c.op.path]
  }

  predicate HasSamePath(a: Call, b: Call)
    requires !IsNetwork(a) && !IsNetwork(b)
  {
    exists p | p in Paths(a) :: p in Paths(b)
  }

  function AllCalls(services: seq<Service>): set<Call> {
    set s, c | s in services && c in s.syscalls :: c
  }

  ghost predicate TimeOrdered(calls: seq<Call>) {
    forall i, j :: 0 <= i < j < |calls| ==> calls[i].timestamp < calls[j].timestamp
  }

  ghost predicate DistinctTimes(calls: set<Call>) {
    forall a, b :: a in calls && b in calls && a.timestamp == b.timestamp ==> a == b
  }

  ghost predicate WellFormed(services: seq<Service>) {
    && (forall i, j :: 0 <= i < j < |services| ==> services[i].name != services[j].name)
    && (forall s :: s in services ==> TimeOrdered(s.syscalls))
    && (forall s, c :: s in services && c in s.syscalls ==> c.service == s.name)
    && DistinctTimes(AllCalls(services))
  }

  // ------------------------------------------------------------------ sorting

  function Insert(c: Call, s: seq<Call>): seq<Call> {
    if s == [] || c.timestamp <= s[0].timestamp then [c] + s else [s[0]] + Insert(c, s[1..])
  }

  /** Python's sorted(calls, key=timestamp). */
  function SortByTime(s: seq<Call>): seq<Call> {
    if s == [] then [] else Insert(s[0], SortByTime(s[1..]))
  }

  ghost predicate NonDecreasing(s: seq<Call>) {
    forall i, j :: 0 <= i < j < |s| ==> s[i].timestamp <= s[j].timestamp
  }

  lemma {:induction false} InsertPermutes(c: Call, s: seq<Call>)
    ensures multiset(Insert(c, s)) == multiset{c} + multiset(s)
  {
    if s != [] && c.timestamp > s[0].timestamp {
      assert s == [s[0]] + s[1..];
      InsertPermutes(c, s[1..]);
    }
  }

  lemma {:induction false} InsertSorted(c: Call, s: seq<Call>)
    requires NonDecreasing(s)
    ensures NonDecreasing(Insert(c, s))
  {
    if s != [] && c.timestamp > s[0].timestamp {
      InsertSorted(c, s[1..]);
      InsertPermutes(c, s[1..]);
      var r := Insert(c, s[1..]);
      forall j | 0 <= j < |r| ensures s[0].timestamp <= r[j].timestamp {
        assert r[j] in multiset(r);
        assert r[j] == c || r[j] in s[1..];
      }
    }
  }

  lemma {:induction false} SortSorted(s: seq<Call>)
    ensures NonDecreasing(SortByTime(s))
    ensures multiset(SortByTime(s)) == multiset(s)
  {
    if s != [] {
      SortSorted(s[1..]);
      InsertSorted(s[0], SortByTime(s[1..]));
      InsertPermutes(s[0], SortByTime(s[1..]));
      assert s == [s[0]] + s[1..];
    }
  }

  /** Sorting calls with distinct timestamps gives the strictly time-ordered list of the same calls. */
  lemma SortDistinct(s: seq<Call>)
    requires NoDup(s) && forall a, b :: a in s && b in s && a.timestamp == b.timestamp ==> a == b
    ensures TimeOrdered(SortByTime(s))
    ensures forall c :: c in SortByTime(s) <==> c in s
  {
    SortSorted(s);
    var r := SortByTime(s);
    SameMembers(r, s);
    forall c ensures multiset(r)[c] <= 1 { MultisetOfNoDup(s, c); }
    NoDupOfMultiset(r);
    forall i, j | 0 <= i < j < |r| ensures r[i].timestamp < r[j].timestamp {
      assert r[i] in r && r[j] in r;
    }
  }

  lemma EmptyAlike(a: seq<Call>, b: seq<Call>)
    requires ToSet(a) == ToSet(b)
    ensures a == [] <==> b == []
  {
    assert a != [] ==> a[0] in ToSet(a);
    assert b != [] ==> b[0] in ToSet(b);
  }

  /** Time-ordered lists of the same calls are equal. */
  lemma {:induction false} OrderedUnique(a: seq<Call>, b: seq<Call>)
    requires TimeOrdered(a) && TimeOrdered(b) && ToSet(a) == ToSet(b)
    ensures a == b
    decreases |a|
  {
    EmptyAlike(a, b);
    if a != [] {
      assert forall c :: c in a <==> c in ToSet(a);
      assert forall c :: c in b <==> c in ToSet(b);
      assert a[0] in a && a[0] in b;
      assert b[0] in b && b[0] in a;
      assert a[0] == b[0];
      forall c ensures c in a[1..] <==> c in a && c != a[0] {
        if c in a && c != a[0] { var i :| 0 <= i < |a| && a[i] == c; assert a[1..][i - 1] == c; }
      }
      forall c ensures c in b[1..] <==> c in b && c != b[0] {
        if c in b && c != b[0] { var i :| 0 <= i < |b| && b[i] == c; assert b[1..][i - 1] == c; }
      }
      assert ToSet(a[1..]) == ToSet(b[1..]);
      OrderedUnique(a[1..], b[1..]);
    }
  }

  lemma {:induction false} Latest(s: set<Call>) returns (m: Call)
    requires s != {}
    ensures m in s && forall c :: c in s ==> c.timestamp <= m.timestamp
    decreases s
  {
    m :| m in s;
    if s != {m} {
      assert s - {m} != {};
      var n := Latest(s - {m});
      if n.timestamp > m.timestamp { m := n; }
    }
  }

  lemma {:induction false} Earliest(s: set<Call>) returns (m: Call)
    requires s != {}
    ensures m in s && forall c :: c in s ==> m.timestamp <= c.timestamp
    decreases s
  {
    m :| m in s;
    if s != {m} {
      assert s - {m} != {};
      var n := Earliest(s - {m});
      if n.timestamp < m.timestamp { m := n; }
    }
  }
}
