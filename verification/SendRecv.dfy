/** Pairing the sends of a trace with their receives, after receives of a header and of its content have been
    merged. */
module SendRecv {
  import opened Sequences

  /** The service a call belongs to, and its peer. */
  datatype Key = Key(at: string, peer: string)

  function Mirror(k: Key): Key { Key(k.peer, k.at) }

  class Message {
    const key: Key
    /** A receive of just a header; any other one may have a content that was not recorded. */
    const isHeader: bool
    const known: bool
    var content: seq<int>
    var retval: int
    var correlated: Message?

    constructor (key: Key, isHeader: bool, known: bool, content: seq<int>, retval: int)
      ensures this.key == key && this.isHeader == isHeader && this.known == known
      ensures this.content == content && this.retval == retval && correlated == null
    {
      this.key, this.isHeader, this.known, this.content, this.retval := key, isHeader, known, content, retval;
      correlated := null;
    }
  }

  function Keys(ms: seq<Message>): (r: seq<Key>)
    ensures |r| == |ms| && forall i :: 0 <= i < |ms| ==> r[i] == ms[i].key
  {
    seq(|ms|, i requires 0 <= i < |ms| => ms[i].key)
  }

  // -------------------------------------------------------- the k-th of its kind

  /** The positions of a key, in order. */
  function Positions(ks: seq<Key>, k: Key): (r: seq<nat>)
    ensures forall x :: 0 <= x < |r| ==> r[x] < |ks| && ks[r[x]] == k
  {
    if ks == [] then []
    else Positions(ks[..|ks| - 1], k) + if ks[|ks| - 1] == k then [|ks| - 1] else []
  }

  /** How many of the same key come before position i. */
  function Rank(ks: seq<Key>, i: nat): nat
    requires i < |ks|
  {
    |Positions(ks[..i], ks[i])|
  }

  lemma {:induction false} PositionsPrefix(ks: seq<Key>, n: nat, k: Key)
    requires n <= |ks|
    ensures Positions(ks[..n], k) <= Positions(ks, k)
    decreases |ks|
  {
    if n < |ks| {
      PositionsPrefix(ks[..|ks| - 1], n, k);
      assert ks[..|ks| - 1][..n] == ks[..n];
    } else {
      assert ks[..n] == ks;
    }
  }

  /** Position i is the one with its rank among the positions of its key. */
  lemma RankPosition(ks: seq<Key>, i: nat)
    requires i < |ks|
    ensures Rank(ks, i) < |Positions(ks, ks[i])| && Positions(ks, ks[i])[Rank(ks, i)] == i
  {
    PositionsPrefix(ks, i + 1, ks[i]);
    assert ks[..i + 1][..i] == ks[..i];
  }

  lemma {:induction false} PositionRank(ks: seq<Key>, k: Key, x: nat)
    requires x < |Positions(ks, k)|
    ensures Rank(ks, Positions(ks, k)[x]) == x
    decreases |ks|
  {
    var n := |ks| - 1;
    if x < |Positions(ks[..n], k)| {
      PositionRank(ks[..n], k, x);
      var i := Positions(ks, k)[x];
      assert ks[..n][..i] == ks[..i];
    } else {
      assert ks[..n] == ks[..Positions(ks, k)[x]];
    }
  }

  /** The positions of a key are all of them, in order. */
  lemma {:induction false} PositionsSay(ks: seq<Key>, k: Key)
    ensures forall i: nat :: i in Positions(ks, k) <==> i < |ks| && ks[i] == k
    ensures forall x, y :: 0 <= x < y < |Positions(ks, k)| ==> Positions(ks, k)[x] < Positions(ks, k)[y]
  {
    if ks != [] {
      var n := |ks| - 1;
      var before := Positions(ks[..n], k);
      PositionsSay(ks[..n], k);
      assert Positions(ks, k) == if ks[n] == k then before + [n] else before;
    }
  }

  /** A rank counts the earlier positions of the same key. */
  lemma RankSays(ks: seq<Key>, i: nat)
    requires i < |ks|
    ensures Rank(ks, i) == |set a: nat | a < i && ks[a] == ks[i]|
  {
    var js := Positions(ks[..i], ks[i]);
    PositionsSay(ks[..i], ks[i]);
    NoDupSize(js);
    assert ToSet(js) == set a: nat | a < i && ks[a] == ks[i];
  }

  /** The position in other of the call that belongs to position i: same rank, mirrored key; none for the client. */
  function Mate(ks: seq<Key>, other: seq<Key>, client: string, i: nat): (j: int)
    requires i < |ks|
    ensures -1 <= j < |other|
  {
    if ks[i].at == client || ks[i].peer == client then -1
    else
      var js := Positions(other, Mirror(ks[i]));
      if Rank(ks, i) < |js| then js[Rank(ks, i)] else -1
  }

  /** The pairing is symmetric, so it is also injective. */
  lemma MateSymmetric(ks: seq<Key>, other: seq<Key>, client: string, i: nat, j: nat)
    requires i < |ks| && j < |other|
    ensures Mate(ks, other, client, i) == j <==> Mate(other, ks, client, j) == i
  {
    if Mate(ks, other, client, i) == j { MateBack(ks, other, client, i, j); }
    if Mate(other, ks, client, j) == i { MateBack(other, ks, client, j, i); }
  }

  lemma MateBack(ks: seq<Key>, other: seq<Key>, client: string, i: nat, j: nat)
    requires i < |ks| && j < |other| && Mate(ks, other, client, i) == j
    ensures Mate(other, ks, client, j) == i
  {
    PositionRank(other, Mirror(ks[i]), Rank(ks, i));
    RankPosition(ks, i);
    assert Mirror(other[j]) == ks[i];
  }

  /** Exactly the smaller of the two counts is matched: the first ones on either side. */
  lemma MatchedPrefix(ks: seq<Key>, other: seq<Key>, client: string, k: Key, x: nat)
    requires x < |Positions(ks, k)| && k.at != client && k.peer != client
    ensures Mate(ks, other, client, Positions(ks, k)[x]) != -1 <==> x < |Positions(other, Mirror(k))|
    ensures x < |Positions(other, Mirror(k))| ==>
              Mate(ks, other, client, Positions(ks, k)[x]) == Positions(other, Mirror(k))[x]
  {
    PositionRank(ks, k, x);
  }

  /** Two calls belong together when neither is with the client, each is at the service that the other has as its
      peer, and as many calls of the same service and peer come before the one as before the other. */
  lemma MateSays(ks: seq<Key>, other: seq<Key>, client: string, i: nat, j: nat)
    requires i < |ks| && j < |other|
    ensures Mate(ks, other, client, i) == j <==>
            && ks[i].at != client && ks[i].peer != client && other[j].at == ks[i].peer && other[j].peer == ks[i].at
            && |set a: nat | a < i && ks[a] == ks[i]| == |set b: nat | b < j && other[b] == other[j]|
  {
    RankSays(ks, i);
    RankSays(other, j);
    RankPosition(other, j);
    if Mate(ks, other, client, i) == j { PositionRank(other, Mirror(ks[i]), Rank(ks, i)); }
  }

  // ------------------------------------------------------------------------ pairing

  function Left(table: map<Key, seq<Message>>, k: Key): seq<Message> { if k in table then table[k] else [] }

  function Take(ms: seq<Message>, js: seq<nat>): (r: seq<Message>)
    requires forall x :: 0 <= x < |js| ==> js[x] < |ms|
    ensures |r| == |js| && forall x :: 0 <= x < |r| ==> r[x] == ms[js[x]]
  {
    seq(|js|, x requires 0 <= x < |js| => ms[js[x]])
  }

  /** The receives for one service and peer that the first n sends leave unmatched. */
  function Unmatched(sends: seq<Key>, n: nat, recvs: seq<Message>, client: string, k: Key): seq<Message>
    requires n <= |sends|
  {
    var js, done := Positions(Keys(recvs), k), |Positions(sends[..n], Mirror(k))|;
    if k.peer == client || done > |js| then [] else Take(recvs, js[done..])
  }

  /** The table of receives lists those that the first n sends leave unmatched. */
  ghost predicate Waiting(table: map<Key, seq<Message>>, sends: seq<Key>, n: nat, recvs: seq<Message>, client: string)
    requires n <= |sends|
  {
    forall k: Key {:trigger Left(table, k)} :: k.at != client ==>
        Left(table, k) == Unmatched(sends, n, recvs, client, k)
  }

  /** The table lists the first n receives by service and peer. */
  ghost predicate Tabled(table: map<Key, seq<Message>>, recvs: seq<Message>, n: nat, client: string)
    requires n <= |recvs|
  {
    forall k {:trigger Left(table, k)} ::
      Left(table, k) == if k.peer == client then [] else Take(recvs, Positions(Keys(recvs)[..n], k))
  }

  lemma TabledNext(table: map<Key, seq<Message>>, recvs: seq<Message>, n: nat, client: string)
    requires n < |recvs| && Tabled(table, recvs, n, client)
    ensures var k := recvs[n].key;
            Tabled(if k.peer != client then table[k := Left(table, k) + [recvs[n]]] else table, recvs, n + 1, client)
  {
    var key, ks := recvs[n].key, Keys(recvs);
    var table' := if key.peer != client then table[key := Left(table, key) + [recvs[n]]] else table;
    forall k ensures Left(table', k) == if k.peer == client then [] else Take(recvs, Positions(ks[..n + 1], k)) {
      assert Left(table, k) == if k.peer == client then [] else Take(recvs, Positions(ks[..n], k));
      TakeNext(recvs, n, k);
      if k == key { assert key.peer != client ==> table'[key] == Left(table, key) + [recvs[n]]; }
    }
  }

  lemma TakeNext(recvs: seq<Message>, n: nat, k: Key)
    requires n < |recvs|
    ensures var ks := Keys(recvs);
            Take(recvs, Positions(ks[..n + 1], k)) ==
            if recvs[n].key == k then Take(recvs, Positions(ks[..n], k)) + [recvs[n]]
            else Take(recvs, Positions(ks[..n], k))
  {
    var ks := Keys(recvs);
    assert ks[..n + 1][..n] == ks[..n] && ks[..n + 1][n] == recvs[n].key;
  }

  method BuildTable(recvs: seq<Message>, client: string) returns (table: map<Key, seq<Message>>)
    ensures Tabled(table, recvs, |recvs|, client)
  {
    table := map[];
    for i := 0 to |recvs|
      invariant Tabled(table, recvs, i, client)
    {
      TabledNext(table, recvs, i, client);
      if recvs[i].key.peer != client {
        table := table[recvs[i].key := Left(table, recvs[i].key) + [recvs[i]]];
      }
    }
  }

  /** What one more send leaves unmatched. */
  lemma UnmatchedNext(sends: seq<Key>, n: nat, recvs: seq<Message>, client: string, k: Key)
    requires n < |sends|
    ensures var before := Unmatched(sends, n, recvs, client, k);
            Unmatched(sends, n + 1, recvs, client, k) ==
            if sends[n] == Mirror(k) && before != [] then before[1..] else before
  {
    assert sends[..n + 1][..n] == sends[..n];
  }

  /** The first unmatched receive is the mate of the next send. */
  lemma FirstIsMate(sends: seq<Key>, n: nat, recvs: seq<Message>, client: string)
    requires n < |sends| && sends[n].peer != client
    ensures var before, j := Unmatched(sends, n, recvs, client, Mirror(sends[n])), Mate(sends, Keys(recvs), client, n);
            if before == [] then j == -1 else 0 <= j < |recvs| && before[0] == recvs[j]
  {
    assert Mirror(Mirror(sends[n])) == sends[n];
  }

  ghost predicate Matched(sends: seq<Message>, recvs: seq<Message>, client: string, n: nat)
    reads sends`correlated, recvs`correlated
  {
    && (forall x {:trigger sends[x].correlated} :: 0 <= x < |sends| ==>
          var j := Mate(Keys(sends), Keys(recvs), client, x);
          sends[x].correlated == if x < n && j >= 0 then recvs[j] else null)
    && (forall j {:trigger recvs[j].correlated} :: 0 <= j < |recvs| ==>
          var x := Mate(Keys(recvs), Keys(sends), client, j);
          recvs[j].correlated == if 0 <= x < n then sends[x] else null)
  }

  /** The matching of sends to receives: each call gets its mate, and calls without a mate get nothing. */
  method PairAll(sends: seq<Message>, recvs: seq<Message>, client: string)
    requires NoDup(sends) && NoDup(recvs) && forall m :: m in sends ==> m !in recvs
    requires forall m :: m in sends || m in recvs ==> m.correlated == null
    modifies sends`correlated, recvs`correlated
    ensures forall i :: 0 <= i < |sends| ==>
              var j := Mate(Keys(sends), Keys(recvs), client, i);
              sends[i].correlated == if j >= 0 then recvs[j] else null
    ensures forall j :: 0 <= j < |recvs| ==>
              var i := Mate(Keys(recvs), Keys(sends), client, j);
              recvs[j].correlated == if i >= 0 then sends[i] else null
  {
    var table := BuildTable(recvs, client);
    PairingStarts(sends, recvs, client, table);
    for i := 0 to |sends|
      invariant Pairing(sends, recvs, client, table, i)
    {
      table := PairOne(sends, recvs, client, table, i);
    }
  }

  /** The pairing after n sends. */
  ghost predicate Pairing(sends: seq<Message>, recvs: seq<Message>, client: string, table: map<Key, seq<Message>>,
                          n: nat)
    reads sends`correlated, recvs`correlated
  {
    n <= |sends| && Waiting(table, Keys(sends), n, recvs, client) && Matched(sends, recvs, client, n)
  }

  lemma PairingStarts(sends: seq<Message>, recvs: seq<Message>, client: string, table: map<Key, seq<Message>>)
    requires Tabled(table, recvs, |recvs|, client)
    requires forall m :: m in sends || m in recvs ==> m.correlated == null
    ensures Pairing(sends, recvs, client, table, 0)
  {
    NoneSent(table, Keys(sends), recvs, client);
    MatchedNone(sends, recvs, client);
  }

  method PairOne(sends: seq<Message>, recvs: seq<Message>, client: string, table: map<Key, seq<Message>>, i: nat)
    returns (table': map<Key, seq<Message>>)
    requires NoDup(sends) && NoDup(recvs) && i < |sends| && forall m :: m in sends ==> m !in recvs
    requires Pairing(sends, recvs, client, table, i)
    modifies {sends[i]}`correlated, recvs`correlated
    ensures Pairing(sends, recvs, client, table', i + 1)
  {
    var recv;
    recv, table' := NextFor(sends, recvs, client, table, i);
    Link(sends, recvs, client, i, recv);
  }

  lemma MatchedNone(sends: seq<Message>, recvs: seq<Message>, client: string)
    requires forall m :: m in sends || m in recvs ==> m.correlated == null
    ensures Matched(sends, recvs, client, 0)
  {}

  lemma NoneSent(table: map<Key, seq<Message>>, sends: seq<Key>, recvs: seq<Message>, client: string)
    requires Tabled(table, recvs, |recvs|, client)
    ensures Waiting(table, sends, 0, recvs, client)
  {
    assert sends[..0] == [] && Keys(recvs)[..|recvs|] == Keys(recvs);
    forall k: Key | k.at != client ensures Left(table, k) == Unmatched(sends, 0, recvs, client, k) {
      assert Positions(Keys(recvs), k)[0..] == Positions(Keys(recvs), k);
    }
  }

  /** Takes the first waiting receive for a send off the table. */
  method NextFor(sends: seq<Message>, recvs: seq<Message>, client: string, table: map<Key, seq<Message>>, i: nat)
    returns (recv: Message?, table': map<Key, seq<Message>>)
    requires i < |sends| && Waiting(table, Keys(sends), i, recvs, client)
    ensures Waiting(table', Keys(sends), i + 1, recvs, client)
    ensures var j := Mate(Keys(sends), Keys(recvs), client, i); recv == if j >= 0 then recvs[j] else null
  {
    var call := sends[i];
    recv, table' := null, table;
    if call.key.peer != client {
      FirstIsMate(Keys(sends), i, recvs, client);
      var k := Mirror(call.key);
      assert k.at != client && Left(table, k) == Unmatched(Keys(sends), i, recvs, client, k);
      if k in table && |table[k]| > 0 {
        recv := table[k][0];
        table' := table[k := table[k][1..]];
      }
    }
    WaitingNext(table, table', Keys(sends), i, recvs, client);
  }

  lemma WaitingNext(table: map<Key, seq<Message>>, table': map<Key, seq<Message>>, sends: seq<Key>, n: nat,
                    recvs: seq<Message>, client: string)
    requires n < |sends| && Waiting(table, sends, n, recvs, client)
    requires var k := Mirror(sends[n]);
             table' == if sends[n].peer != client && Left(table, k) != [] then table[k := Left(table, k)[1..]]
                       else table
    ensures Waiting(table', sends, n + 1, recvs, client)
  {
    forall k: Key | k.at != client ensures Left(table', k) == Unmatched(sends, n + 1, recvs, client, k) {
      UnmatchedNext(sends, n, recvs, client, k);
      assert Left(table, k) == Unmatched(sends, n, recvs, client, k);
      assert sends[n] == Mirror(k) <==> k == Mirror(sends[n]);
    }
  }

  /** Ties a send and its receive together. */
  method Link(sends: seq<Message>, recvs: seq<Message>, client: string, i: nat, recv: Message?)
    requires NoDup(sends) && NoDup(recvs) && i < |sends| && forall m :: m in sends ==> m !in recvs
    requires var j := Mate(Keys(sends), Keys(recvs), client, i); recv == if j >= 0 then recvs[j] else null
    requires Matched(sends, recvs, client, i)
    modifies {sends[i]}`correlated, recvs`correlated
    ensures Matched(sends, recvs, client, i + 1)
  {
    var call := sends[i];
    ghost var sk, rk := Keys(sends), Keys(recvs);
    ghost var mate := Mate(sk, rk, client, i);
    forall j | 0 <= j < |recvs| ensures Mate(rk, sk, client, j) == i <==> mate == j {
      MateSymmetric(sk, rk, client, i, j);
    }
    if recv != null {
      call.correlated := recv;
      recv.correlated := call;
    }
    assert forall x :: 0 <= x < |sends| ==> sends[x] in sends;
  }

  // ------------------------------------------------------- merging header and content

  ghost function Retvals(ms: seq<Message>): (r: seq<int>)
    reads ms`retval
    ensures |r| == |ms| && forall i :: 0 <= i < |ms| ==> r[i] == ms[i].retval
  {
    if ms == [] then [] else Retvals(ms[..|ms| - 1]) + [ms[|ms| - 1].retval]
  }

  /** The bytes received from a peer, over the first n receives that are not gone. */
  function Received(ks: seq<Key>, vals: seq<int>, gone: set<nat>, peer: string, n: nat): int
    requires n <= |ks| == |vals|
  {
    if n == 0 then 0
    else Received(ks, vals, gone, peer, n - 1) + if n - 1 in gone || ks[n - 1].peer != peer then 0 else vals[n - 1]
  }

  lemma {:induction false} ReceivedMoved(ks: seq<Key>, vals: seq<int>, gone: set<nat>, peer: string, n: nat, x: nat,
                                         i: nat)
    requires n <= |ks| == |vals| && x < i < |ks| && x !in gone && i !in gone && ks[x].peer == ks[i].peer
    ensures Received(ks, vals[x := vals[x] + vals[i]], gone + {i}, peer, n) ==
            Received(ks, vals, gone, peer, n) + if x < n <= i && ks[x].peer == peer then vals[i] else 0
  {
    if n > 0 { ReceivedMoved(ks, vals, gone, peer, n - 1, x, i); }
  }

  function IsHeader(ms: seq<Message>): (r: seq<bool>)
    ensures |r| == |ms| && forall i :: 0 <= i < |ms| ==> r[i] == ms[i].isHeader
  {
    seq(|ms|, i requires 0 <= i < |ms| => ms[i].isHeader)
  }

  /** The headers from a peer that still wait for their content after n receives, the earliest first. */
  function OpenFor(ks: seq<Key>, hs: seq<bool>, n: nat, peer: string): (r: seq<nat>)
    requires n <= |ks| == |hs|
    ensures forall x :: 0 <= x < |r| ==> r[x] < n && ks[r[x]].peer == peer && hs[r[x]]
    ensures forall x, y :: 0 <= x < y < |r| ==> r[x] < r[y]
  {
    if n == 0 then []
    else
      var before := OpenFor(ks, hs, n - 1, peer);
      if ks[n - 1].peer != peer then before
      else if hs[n - 1] then before + [n - 1]
      else if before == [] then [] else before[1..]
  }

  /** The header that receive i completes, the earliest open one from its peer, or -1. */
  function Target(ks: seq<Key>, hs: seq<bool>, i: nat): (x: int)
    requires i < |ks| == |hs|
    ensures -1 <= x < i
    ensures x >= 0 ==> hs[x] && !hs[i] && ks[x].peer == ks[i].peer
  {
    if hs[i] || OpenFor(ks, hs, i, ks[i].peer) == [] then -1 else OpenFor(ks, hs, i, ks[i].peer)[0]
  }

  /** The receive among the first n that completes header x, or -1. */
  function Source(ks: seq<Key>, hs: seq<bool>, n: nat, x: nat): (i: int)
    requires n <= |ks| == |hs|
    ensures -1 <= i < n && (i >= 0 ==> Target(ks, hs, i) == x)
    ensures i == -1 ==> forall j :: 0 <= j < n ==> Target(ks, hs, j) != x
  {
    if n == 0 then -1 else if Target(ks, hs, n - 1) == x then n - 1 else Source(ks, hs, n - 1, x)
  }

  /** The open headers from a peer are those that no earlier receive completes. */
  lemma {:induction false} OpenSays(ks: seq<Key>, hs: seq<bool>, n: nat, peer: string, x: nat)
    requires n <= |ks| == |hs|
    ensures x in OpenFor(ks, hs, n, peer) <==>
            x < n && ks[x].peer == peer && hs[x] && forall j :: 0 <= j < n ==> Target(ks, hs, j) != x
  {
    if n > 0 {
      OpenSays(ks, hs, n - 1, peer, x);
      OpenStep(ks, hs, n, peer, x);
    }
  }

  /** One more receive opens a header or completes the one it belongs to. */
  lemma OpenStep(ks: seq<Key>, hs: seq<bool>, n: nat, peer: string, x: nat)
    requires 0 < n <= |ks| == |hs|
    ensures x in OpenFor(ks, hs, n, peer) <==>
            && (x in OpenFor(ks, hs, n - 1, peer) || (x == n - 1 && ks[x].peer == peer && hs[x]))
            && Target(ks, hs, n - 1) != x
  {
    var before := OpenFor(ks, hs, n - 1, peer);
    if ks[n - 1].peer == peer && !hs[n - 1] && before != [] {
      assert before == [before[0]] + before[1..];
      assert forall y :: 0 <= y < |before[1..]| ==> before[1..][y] != before[0];
    }
  }

  /** A receive completes a header when it is none itself and the header is the earliest one from the same peer
      that no receive before it completes. */
  lemma TargetSays(ks: seq<Key>, hs: seq<bool>, i: nat, x: nat)
    requires i < |ks| == |hs|
    ensures Target(ks, hs, i) == x <==>
            && x < i && hs[x] && !hs[i] && ks[x].peer == ks[i].peer
            && (forall j :: 0 <= j < i ==> Target(ks, hs, j) != x)
            && (forall y :: 0 <= y < x && hs[y] && ks[y].peer == ks[i].peer ==>
                  exists j :: 0 <= j < i && Target(ks, hs, j) == y)
  {
    var waiting := OpenFor(ks, hs, i, ks[i].peer);
    forall y: nat
      ensures y in waiting <==>
              y < i && ks[y].peer == ks[i].peer && hs[y] && forall j :: 0 <= j < i ==> Target(ks, hs, j) != y
    {
      OpenSays(ks, hs, i, ks[i].peer, y);
    }
    if x in waiting {
      assert forall y :: y in waiting ==> waiting[0] <= y;
    }
  }

  /** An open header has not been completed. */
  lemma {:induction false} OpenIsNew(ks: seq<Key>, hs: seq<bool>, n: nat, peer: string, j: nat)
    requires j < n <= |ks| == |hs|
    ensures Target(ks, hs, j) >= 0 ==> Target(ks, hs, j) !in OpenFor(ks, hs, n, peer)
  {
    if j < n - 1 { OpenIsNew(ks, hs, n - 1, peer, j); }
  }

  lemma {:induction false} SourceOfOpen(ks: seq<Key>, hs: seq<bool>, n: nat, m: nat, peer: string, x: nat)
    requires n <= m <= |ks| == |hs| && x in OpenFor(ks, hs, m, peer)
    ensures Source(ks, hs, n, x) == -1
  {
    if n > 0 {
      OpenIsNew(ks, hs, m, peer, n - 1);
      SourceOfOpen(ks, hs, n - 1, m, peer, x);
    }
  }

  lemma {:induction false} SourceOfContent(ks: seq<Key>, hs: seq<bool>, n: nat, i: nat)
    requires n <= i < |ks| == |hs|
    ensures Source(ks, hs, n, i) == -1
  {
    if n > 0 { SourceOfContent(ks, hs, n - 1, i); }
  }

  /** No header is completed twice. */
  lemma CompletedOnce(ks: seq<Key>, hs: seq<bool>, i: nat, j: nat)
    requires i < j < |ks| == |hs|
    ensures Target(ks, hs, i) >= 0 ==> Target(ks, hs, i) != Target(ks, hs, j)
  {
    OpenIsNew(ks, hs, j, ks[j].peer, i);
  }

  /** The open headers from one peer among all open headers. */
  function OfPeer(at: seq<nat>, ks: seq<Key>, peer: string): seq<nat>
    requires forall k :: 0 <= k < |at| ==> at[k] < |ks|
  {
    if at == [] then []
    else if ks[at[0]].peer == peer then [at[0]] + OfPeer(at[1..], ks, peer)
    else OfPeer(at[1..], ks, peer)
  }

  lemma {:induction false} OfPeerMore(at: seq<nat>, ks: seq<Key>, peer: string, i: nat)
    requires i < |ks| && forall k :: 0 <= k < |at| ==> at[k] < |ks|
    ensures OfPeer(at + [i], ks, peer) == OfPeer(at, ks, peer) + if ks[i].peer == peer then [i] else []
  {
    if at == [] {
      assert at + [i] == [i];
    } else {
      assert (at + [i])[1..] == at[1..] + [i];
      OfPeerMore(at[1..], ks, peer, i);
    }
  }

  /** Taking out the first one of its peer. */
  lemma {:induction false} OfPeerLess(at: seq<nat>, ks: seq<Key>, peer: string, x: nat)
    requires x < |at| && forall k :: 0 <= k < |at| ==> at[k] < |ks|
    requires forall k :: 0 <= k < x ==> ks[at[k]].peer != ks[at[x]].peer
    ensures var all, less := OfPeer(at, ks, peer), OfPeer(at[..x] + at[x + 1..], ks, peer);
            if ks[at[x]].peer == peer then all != [] && all[0] == at[x] && less == all[1..] else less == all
  {
    if x == 0 {
      assert at[..0] + at[1..] == at[1..];
    } else {
      assert at[1..][..x - 1] + at[1..][x..] == (at[..x] + at[x + 1..])[1..];
      OfPeerLess(at[1..], ks, peer, x - 1);
    }
  }

  ghost function Contents(ms: seq<Message>): (r: seq<seq<int>>)
    reads ms`content
    ensures |r| == |ms| && forall i :: 0 <= i < |ms| ==> r[i] == ms[i].content
  {
    if ms == [] then [] else Contents(ms[..|ms| - 1]) + [ms[|ms| - 1].content]
  }

  /** After n receives, each header holds what it held and what the receive that completes it held. */
  ghost predicate Completed(calls: seq<Message>, n: nat, retvals: seq<int>, contents: seq<seq<int>>,
                            retvals': seq<int>, contents': seq<seq<int>>)
    requires n <= |calls| == |retvals| == |contents| == |retvals'| == |contents'|
  {
    forall x {:trigger retvals'[x]} {:trigger contents'[x]} :: 0 <= x < |calls| ==>
      var i := Source(Keys(calls), IsHeader(calls), n, x);
      && retvals'[x] == retvals[x] + (if i >= 0 then retvals[i] else 0)
      && contents'[x] == contents[x] + (if i >= 0 && calls[i].known then contents[i] else [])
  }

  lemma CompletedStart(calls: seq<Message>, retvals: seq<int>, contents: seq<seq<int>>)
    requires |calls| == |retvals| == |contents|
    ensures Completed(calls, 0, retvals, contents, retvals, contents)
  {
    forall x: nat | x < |calls|
      ensures Source(Keys(calls), IsHeader(calls), 0, x) == -1 && contents[x] == contents[x] + []
    {
      assert contents[x] + [] == contents[x];
    }
  }

  lemma CompletedNext(calls: seq<Message>, n: nat, r0: seq<int>, c0: seq<seq<int>>, r: seq<int>, c: seq<seq<int>>)
    requires n < |calls| == |r0| == |c0| == |r| == |c| && Completed(calls, n, r0, c0, r, c)
    ensures var a := Target(Keys(calls), IsHeader(calls), n);
            if a < 0 then Completed(calls, n + 1, r0, c0, r, c)
            else Completed(calls, n + 1, r0, c0, r[a := r[a] + r[n]],
                           c[a := c[a] + if calls[n].known then c[n] else []])
  {
    var ks, hs := Keys(calls), IsHeader(calls);
    var a := Target(ks, hs, n);
    if a >= 0 {
      SourceOfOpen(ks, hs, n, n, ks[n].peer, a);
      SourceOfContent(ks, hs, n, n);
      assert r[a] == r0[a] && r[n] == r0[n] && c[a] == c0[a] + [] && c[n] == c0[n] + [];
    }
  }

  /** The place of the first header from the same peer. */
  method FirstFrom(headers: seq<Message>, peer: string) returns (x: int)
    ensures -1 <= x < |headers|
    ensures x >= 0 ==> headers[x].key.peer == peer && forall k :: 0 <= k < x ==> headers[k].key.peer != peer
    ensures x == -1 ==> forall k :: 0 <= k < |headers| ==> headers[k].key.peer != peer
  {
    for k := 0 to |headers|
      invariant forall j :: 0 <= j < k ==> headers[j].key.peer != peer
    {
      if headers[k].key.peer == peer { return k; }
    }
    x := -1;
  }

  /** The headers still waiting for their content are earlier receives that stay. */
  ghost predicate Open(ms: seq<Message>, headers: seq<Message>, at: seq<nat>, gone: set<nat>, n: nat) {
    && |headers| == |at| && (forall k :: 0 <= k < |at| ==> at[k] < n && at[k] < |ms| && headers[k] == ms[at[k]])
    && (forall k :: 0 <= k < |at| ==> at[k] !in gone && ms[at[k]].isHeader)
    && (forall g :: g in gone ==> g < n)
  }

  lemma OpenMore(ms: seq<Message>, headers: seq<Message>, at: seq<nat>, gone: set<nat>, n: nat)
    requires Open(ms, headers, at, gone, n) && n < |ms|
    ensures Open(ms, headers, at, gone, n + 1)
    ensures ms[n].isHeader ==> Open(ms, headers + [ms[n]], at + [n], gone, n + 1)
  {}

  lemma OpenLess(ms: seq<Message>, headers: seq<Message>, at: seq<nat>, gone: set<nat>, n: nat, x: nat)
    requires Open(ms, headers, at, gone, n) && n < |ms| && x < |at|
    ensures Open(ms, headers[..x] + headers[x + 1..], at[..x] + at[x + 1..], gone + {n}, n + 1)
  {
    var hs, ks := headers[..x] + headers[x + 1..], at[..x] + at[x + 1..];
    forall k | 0 <= k < |ks| ensures ks[k] < n && hs[k] == ms[ks[k]] && ks[k] !in gone && ms[ks[k]].isHeader {
      assert ks[k] == at[if k < x then k else k + 1] && hs[k] == headers[if k < x then k else k + 1];
    }
  }

  /** Nothing is lost so far. */
  ghost predicate Conserved(ks: seq<Key>, vals: seq<int>, gone: set<nat>, before: seq<int>)
    requires |ks| == |vals| == |before|
  {
    forall peer :: Received(ks, vals, gone, peer, |ks|) == Received(ks, before, {}, peer, |ks|)
  }

  lemma ConservedMoved(ks: seq<Key>, vals: seq<int>, gone: set<nat>, before: seq<int>, x: nat, i: nat)
    requires |ks| == |vals| == |before| && Conserved(ks, vals, gone, before)
    requires x < i < |ks| && x !in gone && i !in gone && ks[x].peer == ks[i].peer
    ensures Conserved(ks, vals[x := vals[x] + vals[i]], gone + {i}, before)
  {
    forall peer { ReceivedMoved(ks, vals, gone, peer, |ks|, x, i); }
  }

  /** The first n receives without those that are gone. */
  function Staying(ms: seq<Message>, gone: set<nat>, n: nat): seq<Message>
    requires n <= |ms|
  {
    LeaveOut(ms[..n], gone)
  }

  /** The lists of a merge after n receives: the open headers stand in the order of their peers' queues, and just the
      completing receives are gone. */
  ghost predicate Queued(calls: seq<Message>, n: nat, headers: seq<Message>, kept: seq<Message>, at: seq<nat>,
                         gone: set<nat>)
    requires n <= |calls|
  {
    && Open(calls, headers, at, gone, n) && kept == Staying(calls, gone, n)
    && (forall peer {:trigger OfPeer(at, Keys(calls), peer)} ::
          OfPeer(at, Keys(calls), peer) == OpenFor(Keys(calls), IsHeader(calls), n, peer))
    && (forall g :: g in gone <==> 0 <= g < n && Target(Keys(calls), IsHeader(calls), g) >= 0)
  }

  /** A header is queued. */
  lemma QueuedHeader(calls: seq<Message>, n: nat, headers: seq<Message>, kept: seq<Message>, at: seq<nat>,
                     gone: set<nat>)
    requires n < |calls| && Queued(calls, n, headers, kept, at, gone) && calls[n].isHeader
    ensures Queued(calls, n + 1, headers + [calls[n]], kept + [calls[n]], at + [n], gone)
    ensures Target(Keys(calls), IsHeader(calls), n) == -1
  {
    OpenMore(calls, headers, at, gone, n);
    assert calls[..n + 1][..n] == calls[..n] && n !in gone;
    forall peer { OfPeerMore(at, Keys(calls), peer, n); }
  }

  /** A content that finds its queue empty stays. */
  lemma QueuedAlone(calls: seq<Message>, n: nat, headers: seq<Message>, kept: seq<Message>, at: seq<nat>,
                    gone: set<nat>)
    requires n < |calls| && Queued(calls, n, headers, kept, at, gone) && !calls[n].isHeader
    requires forall k :: 0 <= k < |headers| ==> headers[k].key.peer != calls[n].key.peer
    ensures Queued(calls, n + 1, headers, kept + [calls[n]], at, gone)
    ensures Target(Keys(calls), IsHeader(calls), n) == -1
  {
    NoneOfPeer(at, Keys(calls), calls[n].key.peer);
    OpenMore(calls, headers, at, gone, n);
    assert calls[..n + 1][..n] == calls[..n] && n !in gone;
  }

  /** A content that finds headers in its queue is taken to the first of them. */
  lemma QueuedTaken(calls: seq<Message>, n: nat, headers: seq<Message>, kept: seq<Message>, at: seq<nat>,
                    gone: set<nat>, x: nat)
    requires n < |calls| && Queued(calls, n, headers, kept, at, gone) && !calls[n].isHeader
    requires x < |at| && calls[at[x]].key.peer == calls[n].key.peer
    requires forall k :: 0 <= k < x ==> calls[at[k]].key.peer != calls[n].key.peer
    ensures Target(Keys(calls), IsHeader(calls), n) == at[x]
    ensures Queued(calls, n + 1, headers[..x] + headers[x + 1..], kept, at[..x] + at[x + 1..], gone + {n})
  {
    var ks, hs := Keys(calls), IsHeader(calls);
    var less := at[..x] + at[x + 1..];
    OpenLess(calls, headers, at, gone, n, x);
    forall peer ensures OfPeer(less, ks, peer) == OpenFor(ks, hs, n + 1, peer) {
      OfPeerLess(at, ks, peer, x);
      assert OfPeer(at, ks, peer) == OpenFor(ks, hs, n, peer);
    }
    OfPeerLess(at, ks, calls[n].key.peer, x);
    SameLeftOut(calls[..n], gone, gone + {n});
    assert calls[..n + 1][..n] == calls[..n];
    assert kept == Staying(calls, gone + {n}, n) + [];
  }

  lemma {:induction false} NoneOfPeer(at: seq<nat>, ks: seq<Key>, peer: string)
    requires forall k :: 0 <= k < |at| ==> at[k] < |ks| && ks[at[k]].peer != peer
    ensures OfPeer(at, ks, peer) == []
  {
    if at != [] { NoneOfPeer(at[1..], ks, peer); }
  }

  /** The fields are the listed ones. */
  ghost predicate Holding(calls: seq<Message>, retvals: seq<int>, contents: seq<seq<int>>)
    reads calls`retval, calls`content
  {
    && |retvals| == |contents| == |calls|
    && (forall x {:trigger calls[x].retval} :: 0 <= x < |calls| ==> calls[x].retval == retvals[x])
    && (forall x {:trigger calls[x].content} :: 0 <= x < |calls| ==> calls[x].content == contents[x])
  }

  lemma HoldingIs(calls: seq<Message>, retvals: seq<int>, contents: seq<seq<int>>)
    ensures Holding(calls, retvals, contents) <==> retvals == Retvals(calls) && contents == Contents(calls)
  {}

  /** Merges each content into the first open header from the same peer and drops it: what was received from each peer
      stays the same. */
  method MergeHeaders(calls: seq<Message>) returns (kept: seq<Message>, ghost gone: set<nat>)
    requires NoDup(calls)
    modifies calls`content, calls`retval
    ensures kept == LeaveOut(calls, gone)
    ensures forall g :: g in gone <==> 0 <= g < |calls| && Target(Keys(calls), IsHeader(calls), g) >= 0
    ensures Completed(calls, |calls|, old(Retvals(calls)), old(Contents(calls)), Retvals(calls), Contents(calls))
    ensures Conserved(Keys(calls), Retvals(calls), gone, old(Retvals(calls)))
  {
    ghost var r, c := Retvals(calls), Contents(calls);
    HoldingIs(calls, r, c);
    kept, gone, r, c := MergeAll(calls, r, c);
    HoldingIs(calls, r, c);
  }

  method MergeAll(calls: seq<Message>, ghost before: seq<int>, ghost texts: seq<seq<int>>)
    returns (kept: seq<Message>, ghost gone: set<nat>, ghost r: seq<int>, ghost c: seq<seq<int>>)
    requires NoDup(calls) && Holding(calls, before, texts)
    modifies calls`content, calls`retval
    ensures kept == LeaveOut(calls, gone)
    ensures forall g :: g in gone <==> 0 <= g < |calls| && Target(Keys(calls), IsHeader(calls), g) >= 0
    ensures Holding(calls, r, c) && Merged(calls, |calls|, gone, before, texts, r, c)
  {
    var headers: seq<Message> := [];
    kept := [];
    ghost var at: seq<nat> := [];
    gone, r, c := {}, before, texts;
    MergeStarts(calls, before, texts);
    for i := 0 to |calls|
      invariant Holding(calls, r, c) && Merging(calls, i, headers, kept, at, gone, before, texts, r, c)
    {
      headers, kept, at, gone, r, c := MergeNext(calls, i, headers, kept, at, gone, before, texts, r, c);
    }
    MergeEnds(calls, headers, kept, at, gone, before, texts, r, c);
  }

  lemma MergeEnds(calls: seq<Message>, headers: seq<Message>, kept: seq<Message>, at: seq<nat>, gone: set<nat>,
                  before: seq<int>, texts: seq<seq<int>>, r: seq<int>, c: seq<seq<int>>)
    requires Merging(calls, |calls|, headers, kept, at, gone, before, texts, r, c)
    ensures kept == LeaveOut(calls, gone)
    ensures forall g :: g in gone <==> 0 <= g < |calls| && Target(Keys(calls), IsHeader(calls), g) >= 0
  {
    assert calls[..|calls|] == calls;
  }

  /** A merge under way, after n receives. */
  ghost predicate Merging(calls: seq<Message>, n: nat, headers: seq<Message>, kept: seq<Message>, at: seq<nat>,
                          gone: set<nat>, before: seq<int>, texts: seq<seq<int>>, r: seq<int>, c: seq<seq<int>>)
  {
    && n <= |calls| == |before| == |texts| == |r| == |c|
    && Queued(calls, n, headers, kept, at, gone) && Merged(calls, n, gone, before, texts, r, c)
  }

  lemma MergeStarts(calls: seq<Message>, before: seq<int>, texts: seq<seq<int>>)
    requires |calls| == |before| == |texts|
    ensures Merging(calls, 0, [], [], [], {}, before, texts, before, texts)
  {
    CompletedStart(calls, before, texts);
  }

  /** The fields of the calls after n receives. */
  ghost predicate Merged(calls: seq<Message>, n: nat, gone: set<nat>, before: seq<int>, texts: seq<seq<int>>,
                         retvals: seq<int>, contents: seq<seq<int>>)
    requires n <= |calls| == |before| == |texts| == |retvals| == |contents|
  {
    Completed(calls, n, before, texts, retvals, contents) && Conserved(Keys(calls), retvals, gone, before)
  }

  lemma MergedNext(calls: seq<Message>, a: nat, i: nat, gone: set<nat>, before: seq<int>, texts: seq<seq<int>>,
                   r: seq<int>, c: seq<seq<int>>)
    requires a < i < |calls| == |before| == |texts| == |r| == |c|
    requires Merged(calls, i, gone, before, texts, r, c) && Target(Keys(calls), IsHeader(calls), i) == a
    requires a !in gone && i !in gone
    ensures Merged(calls, i + 1, gone + {i}, before, texts, Absorbed(r, a, i), AbsorbedText(calls, c, a, i))
  {
    CompletedNext(calls, i, before, texts, r, c);
    ConservedMoved(Keys(calls), r, gone, before, a, i);
  }

  lemma MergedSame(calls: seq<Message>, i: nat, gone: set<nat>, before: seq<int>, texts: seq<seq<int>>,
                   r: seq<int>, c: seq<seq<int>>)
    requires i < |calls| == |before| == |texts| == |r| == |c|
    requires Merged(calls, i, gone, before, texts, r, c) && Target(Keys(calls), IsHeader(calls), i) == -1
    ensures Merged(calls, i + 1, gone, before, texts, r, c)
  {
    CompletedNext(calls, i, before, texts, r, c);
  }

  lemma TakeHeader(calls: seq<Message>, i: nat, headers: seq<Message>, kept: seq<Message>, at: seq<nat>, gone: set<nat>,
                   before: seq<int>, texts: seq<seq<int>>, r: seq<int>, c: seq<seq<int>>)
    requires i < |calls| && Merging(calls, i, headers, kept, at, gone, before, texts, r, c) && calls[i].isHeader
    ensures Merging(calls, i + 1, headers + [calls[i]], kept + [calls[i]], at + [i], gone, before, texts, r, c)
  {
    QueuedHeader(calls, i, headers, kept, at, gone);
    MergedSame(calls, i, gone, before, texts, r, c);
  }

  lemma TakeAlone(calls: seq<Message>, i: nat, headers: seq<Message>, kept: seq<Message>, at: seq<nat>, gone: set<nat>,
                  before: seq<int>, texts: seq<seq<int>>, r: seq<int>, c: seq<seq<int>>)
    requires i < |calls| && Merging(calls, i, headers, kept, at, gone, before, texts, r, c) && !calls[i].isHeader
    requires forall k :: 0 <= k < |headers| ==> headers[k].key.peer != calls[i].key.peer
    ensures Merging(calls, i + 1, headers, kept + [calls[i]], at, gone, before, texts, r, c)
  {
    QueuedAlone(calls, i, headers, kept, at, gone);
    MergedSame(calls, i, gone, before, texts, r, c);
  }

  lemma TakeContent(calls: seq<Message>, i: nat, headers: seq<Message>, kept: seq<Message>, at: seq<nat>,
                    gone: set<nat>, before: seq<int>, texts: seq<seq<int>>, r: seq<int>, c: seq<seq<int>>, x: nat)
    requires i < |calls| && Merging(calls, i, headers, kept, at, gone, before, texts, r, c) && !calls[i].isHeader
    requires x < |headers| && headers[x].key.peer == calls[i].key.peer
    requires forall k :: 0 <= k < x ==> headers[k].key.peer != calls[i].key.peer
    ensures |at| == |headers| && at[x] < i && headers[x] == calls[at[x]]
    ensures Merging(calls, i + 1, headers[..x] + headers[x + 1..], kept, at[..x] + at[x + 1..], gone + {i}, before,
                    texts,
                    Absorbed(r, at[x], i), AbsorbedText(calls, c, at[x], i))
  {
    var a := at[x];
    var hs, ks, g := headers[..x] + headers[x + 1..], at[..x] + at[x + 1..], gone + {i};
    QueuedTaken(calls, i, headers, kept, at, gone, x);
    MergedNext(calls, a, i, gone, before, texts, r, c);
    MergingFrom(calls, i + 1, hs, kept, ks, g, before, texts, Absorbed(r, a, i), AbsorbedText(calls, c, a, i));
  }

  lemma MergingFrom(calls: seq<Message>, n: nat, headers: seq<Message>, kept: seq<Message>, at: seq<nat>,
                    gone: set<nat>, before: seq<int>, texts: seq<seq<int>>, r: seq<int>, c: seq<seq<int>>)
    requires n <= |calls| == |before| == |texts| == |r| == |c|
    requires Queued(calls, n, headers, kept, at, gone) && Merged(calls, n, gone, before, texts, r, c)
    ensures Merging(calls, n, headers, kept, at, gone, before, texts, r, c)
  {}

  ghost function Absorbed(r: seq<int>, a: nat, i: nat): seq<int>
    requires a < |r| && i < |r|
  {
    r[a := r[a] + r[i]]
  }

  ghost function AbsorbedText(calls: seq<Message>, c: seq<seq<int>>, a: nat, i: nat): seq<seq<int>>
    requires a < |c| == |calls| && i < |c|
  {
    c[a := c[a] + if calls[i].known then c[i] else []]
  }

  method MergeNext(calls: seq<Message>, i: nat, headers: seq<Message>, kept: seq<Message>, ghost at: seq<nat>,
                   ghost gone: set<nat>, ghost before: seq<int>, ghost texts: seq<seq<int>>,
                   ghost r: seq<int>, ghost c: seq<seq<int>>)
    returns (headers': seq<Message>, kept': seq<Message>, ghost at': seq<nat>, ghost gone': set<nat>,
             ghost r': seq<int>, ghost c': seq<seq<int>>)
    requires NoDup(calls) && i < |calls|
    requires Holding(calls, r, c) && Merging(calls, i, headers, kept, at, gone, before, texts, r, c)
    modifies calls`content, calls`retval
    ensures Holding(calls, r', c') && Merging(calls, i + 1, headers', kept', at', gone', before, texts, r', c')
  {
    var call := calls[i];
    headers', kept', at', gone', r', c' := headers, kept, at, gone, r, c;
    if call.isHeader {
      TakeHeader(calls, i, headers, kept, at, gone, before, texts, r, c);
      headers', kept', at' := headers + [call], kept + [call], at + [i];
    } else {
      var x := FirstFrom(headers, call.key.peer);
      if x < 0 {
        TakeAlone(calls, i, headers, kept, at, gone, before, texts, r, c);
        kept' := kept + [call];
      } else {
        TakeContent(calls, i, headers, kept, at, gone, before, texts, r, c, x);
        Absorb(calls, headers[x], call, at[x], i, r, c);
        headers' := headers[..x] + headers[x + 1..];
        at', gone' := at[..x] + at[x + 1..], gone + {i};
        r', c' := Absorbed(r, at[x], i), AbsorbedText(calls, c, at[x], i);
      }
    }
  }

  lemma {:induction false} SameLeftOut<T>(s: seq<T>, a: set<nat>, b: set<nat>)
    requires forall i :: 0 <= i < |s| ==> (i in a <==> i in b)
    ensures LeaveOut(s, a) == LeaveOut(s, b)
  {
    if s != [] { SameLeftOut(s[..|s| - 1], a, b); }
  }

  /** Adds a content to the header it belongs to. */
  method Absorb(ghost calls: seq<Message>, header: Message, call: Message, ghost a: nat, ghost i: nat,
                ghost r: seq<int>, ghost c: seq<seq<int>>)
    requires NoDup(calls) && a < i < |calls| && header == calls[a] && call == calls[i] && Holding(calls, r, c)
    modifies header`content, header`retval
    ensures Holding(calls, Absorbed(r, a, i), AbsorbedText(calls, c, a, i))
  {
    if call.known {
      header.content := header.content + call.content;
    } else {
      assert header.content + [] == header.content;
    }
    header.retval := header.retval + call.retval;
  }
}
