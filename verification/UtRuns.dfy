/** Whole runs of a hash table, against the plain list of entries that its users have in mind. */
module UtRuns {
  import opened UtHandles
  import opened UtHash

  datatype Request<K, V> = Put(key: K, elt: V) | Remove(key: K)

  datatype Entry<K, V> = Entry(key: K, elt: V)

  predicate Mentioned<K(==), V>(reqs: seq<Request<K, V>>, key: K) {
    exists j :: 0 <= j < |reqs| && reqs[j].key == key
  }

  /** What a run of requests leaves, starting from nothing: the entries put with no later request about the same key,
      in the order of the requests. */
  function Standing<K(==), V>(reqs: seq<Request<K, V>>): seq<Entry<K, V>> {
    if reqs == [] then []
    else
      var rest := Standing(reqs[1..]);
      if reqs[0].Put? && !Mentioned(reqs[1..], reqs[0].key) then [Entry(reqs[0].key, reqs[0].elt)] + rest else rest
  }

  /** The entries with other keys, in the same order. */
  function Without<K(==), V>(log: seq<Entry<K, V>>, key: K): seq<Entry<K, V>> {
    if log == [] then []
    else if log[0].key == key then Without(log[1..], key)
    else [log[0]] + Without(log[1..], key)
  }

  function After<K(==), V>(log: seq<Entry<K, V>>, req: Request<K, V>): seq<Entry<K, V>> {
    Without(log, req.key) + if req.Put? then [Entry(req.key, req.elt)] else []
  }

  lemma {:induction false} StandingStep<K, V>(reqs: seq<Request<K, V>>, req: Request<K, V>)
    ensures Standing(reqs + [req]) == After(Standing(reqs), req)
  {
    var all := reqs + [req];
    if reqs == [] {
      assert Standing(all[1..]) == [];
    } else {
      StandingStep(reqs[1..], req);
      assert all[1..] == reqs[1..] + [req];
      MentionedMore(reqs[1..], req, reqs[0].key);
    }
  }

  lemma MentionedMore<K, V>(reqs: seq<Request<K, V>>, req: Request<K, V>, key: K)
    ensures Mentioned(reqs + [req], key) <==> Mentioned(reqs, key) || req.key == key
  {
    var all := reqs + [req];
    assert all[|reqs|] == req;
    if j :| 0 <= j < |reqs| && reqs[j].key == key { assert all[j].key == key; }
  }

  lemma {:induction false} WithoutAbsent<K, V>(log: seq<Entry<K, V>>, key: K)
    requires forall i :: 0 <= i < |log| ==> log[i].key != key
    ensures Without(log, key) == log
  {
    if log != [] { WithoutAbsent(log[1..], key); }
  }

  lemma {:induction false} WithoutOne<K, V>(log: seq<Entry<K, V>>, k: nat)
    requires k < |log| && forall i :: 0 <= i < |log| && i != k ==> log[i].key != log[k].key
    ensures Without(log, log[k].key) == Omit(log, k)
  {
    if k == 0 {
      WithoutAbsent(log[1..], log[0].key);
    } else {
      WithoutOne(log[1..], k - 1);
      assert Omit(log, k) == [log[0]] + Omit(log[1..], k - 1);
    }
  }

  // ------------------------------------------------------------------- the table

  ghost function Entries<K, V>(items: seq<Handle<K, V>>): (r: seq<Entry<K, V>>)
    ensures |r| == |items| && forall i :: 0 <= i < |r| ==> r[i] == Entry(items[i].key, items[i].elt)
  {
    seq(|items|, i requires 0 <= i < |items| => Entry(items[i].key, items[i].elt))
  }

  lemma EntriesOmit<K, V>(items: seq<Handle<K, V>>, k: nat)
    requires UniqueKeys(items) && k < |items|
    ensures Entries(Omit(items, k)) == Without(Entries(items), items[k].key)
  {
    forall i | 0 <= i < |items| && i != k ensures items[i].key != items[k].key {}
    WithoutOne(Entries(items), k);
    assert Entries(Omit(items, k)) == Omit(Entries(items), k);
  }

  lemma EntriesAbsent<K, V>(items: seq<Handle<K, V>>, key: K)
    requires UniqueKeys(items) && key !in ModelOf(items)
    ensures Without(Entries(items), key) == Entries(items)
  {
    forall i | 0 <= i < |items| ensures items[i].key != key {
      assert items[i] in items;
    }
    WithoutAbsent(Entries(items), key);
  }

  lemma EntriesAppend<K, V>(items: seq<Handle<K, V>>, h: Handle<K, V>)
    ensures Entries(items + [h]) == Entries(items) + [Entry(h.key, h.elt)]
  {}

  lemma EntriesHold<K, V>(items: seq<Handle<K, V>>, e: Entry<K, V>)
    requires UniqueKeys(items)
    ensures e in Entries(items) ==> e.key in ModelOf(items)
  {
    if i :| 0 <= i < |items| && Entries(items)[i] == e { assert items[i] in items; }
  }

  lemma OmitIn<K, V>(items: seq<Handle<K, V>>, k: nat)
    requires k < |items|
    ensures forall i :: 0 <= i < |items| - 1 ==> Omit(items, k)[i] in items
  {}

  /** HASH_REPLACE. */
  method Insert<K(==), V>(table: HashTable<K, V>, key: K, elt: V)
    requires table.Valid()
    modifies table, table.items, table.buckets
    ensures table.Valid() && Entries(table.items) == After(Entries(old(table.items)), Put(key, elt))
    ensures fresh(table.buckets) || table.buckets == old(table.buckets)
    ensures forall k :: 0 <= k < |table.items| ==> table.items[k] in old(table.items) || fresh(table.items[k])
  {
    ghost var rest := table.items;
    ghost var before := table.items;
    ghost var k;
    var h, replaced;
    h, replaced, k := table.Replace(key, elt);
    if replaced == null {
      EntriesAbsent(before, key);
    } else {
      EntriesOmit(before, k);
      OmitIn(before, k);
      rest := Omit(before, k);
    }
    EntriesAppend(rest, h);
  }

  /** HASH_FIND, then HASH_DEL of what was found. */
  method Discard<K(==), V>(table: HashTable<K, V>, key: K)
    requires table.Valid()
    modifies table, table.items, table.buckets
    ensures table.Valid() && Entries(table.items) == After(Entries(old(table.items)), Remove(key))
    ensures table.buckets == old(table.buckets)
    ensures forall k :: 0 <= k < |table.items| ==> table.items[k] in old(table.items)
  {
    ghost var before := table.items;
    var found := table.Find(key);
    if found == null {
      EntriesAbsent(before, key);
    } else {
      ghost var k := table.Delete(found);
      EntriesOmit(before, k);
      OmitIn(before, k);
    }
  }

  /** After any run of requests, doublings included, the table holds what stands, in application order. */
  method Serve<K(==), V>(table: HashTable<K, V>, reqs: seq<Request<K, V>>)
    requires table.Valid() && table.items == []
    modifies table, table.buckets
    ensures table.Valid() && Entries(table.items) == Standing(reqs)
  {
    for i := 0 to |reqs|
      invariant table.Valid() && Entries(table.items) == Standing(reqs[..i])
      invariant fresh(table.buckets) || table.buckets == old(table.buckets)
      invariant forall k :: 0 <= k < |table.items| ==> fresh(table.items[k])
    {
      assert reqs[..i + 1] == reqs[..i] + [reqs[i]];
      StandingStep(reqs[..i], reqs[i]);
      match reqs[i]
      case Put(key, elt) => Insert(table, key, elt);
      case Remove(key) => Discard(table, key);
    }
    assert reqs[..|reqs|] == reqs;
  }

  // ------------------------------------------------------------- the list and the map

  /** Request k put the entry, and no later one is about its key. */
  ghost predicate LastWord<K, V>(reqs: seq<Request<K, V>>, k: nat, e: Entry<K, V>) {
    k < |reqs| && reqs[k] == Put(e.key, e.elt) && !Mentioned(reqs[k + 1..], e.key)
  }

  lemma {:induction false} StandingMeans<K, V>(reqs: seq<Request<K, V>>, e: Entry<K, V>)
    ensures e in Standing(reqs) <==> exists k :: LastWord(reqs, k, e)
  {
    if reqs != [] {
      StandingMeans(reqs[1..], e);
      if k: nat :| LastWord(reqs, k, e) && k > 0 {
        assert reqs[1..][k..] == reqs[k + 1..] && LastWord(reqs[1..], k - 1, e);
      }
      if k: nat :| LastWord(reqs[1..], k, e) { assert reqs[1..][k + 1..] == reqs[k + 2..] && LastWord(reqs, k + 1, e); }
      assert LastWord(reqs, 0, e) <==> reqs[0] == Put(e.key, e.elt) && !Mentioned(reqs[1..], e.key);
    }
  }

  lemma {:induction false} StandingOrder<K, V>(reqs: seq<Request<K, V>>, a: nat, b: nat) returns (k: nat, l: nat)
    requires a < b < |Standing(reqs)|
    ensures k < l && LastWord(reqs, k, Standing(reqs)[a]) && LastWord(reqs, l, Standing(reqs)[b])
  {
    var all, rest := Standing(reqs), Standing(reqs[1..]);
    if reqs[0].Put? && !Mentioned(reqs[1..], reqs[0].key) {
      assert all == [Entry(reqs[0].key, reqs[0].elt)] + rest;
      assert all[b] == rest[b - 1];
      if a == 0 {
        k := 0;
        l := StandsSince(reqs[1..], all[b]);
        l := LastWordLater(reqs, l, all[b]);
      } else {
        k, l := StandingOrder(reqs[1..], a - 1, b - 1);
        k := LastWordLater(reqs, k, all[a]);
        l := LastWordLater(reqs, l, all[b]);
      }
    } else {
      k, l := StandingOrder(reqs[1..], a, b);
      k := LastWordLater(reqs, k, all[a]);
      l := LastWordLater(reqs, l, all[b]);
    }
  }

  lemma StandsSince<K, V>(reqs: seq<Request<K, V>>, e: Entry<K, V>) returns (k: nat)
    requires e in Standing(reqs)
    ensures LastWord(reqs, k, e)
  {
    StandingMeans(reqs, e);
    k :| LastWord(reqs, k, e);
  }

  lemma LastWordLater<K, V>(reqs: seq<Request<K, V>>, k: nat, e: Entry<K, V>) returns (l: nat)
    requires reqs != [] && LastWord(reqs[1..], k, e)
    ensures l == k + 1 && LastWord(reqs, l, e)
  {
    l := k + 1;
    assert reqs[1..][k + 1..] == reqs[k + 2..];
  }

  lemma LastWordSays<K, V>(reqs: seq<Request<K, V>>, k: nat, e: Entry<K, V>)
    ensures LastWord(reqs, k, e) <==>
            k < |reqs| && reqs[k] == Put(e.key, e.elt) && forall j :: k < j < |reqs| ==> reqs[j].key != e.key
  {
    if k < |reqs| {
      assert forall j :: k < j < |reqs| ==> reqs[j] == reqs[k + 1..][j - k - 1];
    }
  }

  /** An entry stands when a request put it and none behind it is about the same key. */
  lemma StandingSays<K, V>(reqs: seq<Request<K, V>>, e: Entry<K, V>)
    ensures e in Standing(reqs) <==>
            exists k :: 0 <= k < |reqs| && reqs[k] == Put(e.key, e.elt)
                        && forall j :: k < j < |reqs| ==> reqs[j].key != e.key
  {
    StandingMeans(reqs, e);
    forall k: nat
      ensures LastWord(reqs, k, e) <==>
              k < |reqs| && reqs[k] == Put(e.key, e.elt) && forall j :: k < j < |reqs| ==> reqs[j].key != e.key
    {
      LastWordSays(reqs, k, e);
    }
  }

  /** Entries stand in the order of the requests that put them. */
  lemma OrderSays<K, V>(reqs: seq<Request<K, V>>, a: nat, b: nat, k: nat, l: nat)
    requires a < |Standing(reqs)| && b < |Standing(reqs)| && k < |reqs| && l < |reqs|
    requires reqs[k] == Put(Standing(reqs)[a].key, Standing(reqs)[a].elt)
    requires forall j :: k < j < |reqs| ==> reqs[j].key != reqs[k].key
    requires reqs[l] == Put(Standing(reqs)[b].key, Standing(reqs)[b].elt)
    requires forall j :: l < j < |reqs| ==> reqs[j].key != reqs[l].key
    ensures a < b <==> k < l
  {
    LastWordSays(reqs, k, Standing(reqs)[a]);
    LastWordSays(reqs, l, Standing(reqs)[b]);
    if a < b { InOrderOfRequests(reqs, a, b, k, l); }
    if b < a { InOrderOfRequests(reqs, b, a, l, k); }
  }

  lemma InOrderOfRequests<K, V>(reqs: seq<Request<K, V>>, a: nat, b: nat, k: nat, l: nat)
    requires a < b < |Standing(reqs)| && LastWord(reqs, k, Standing(reqs)[a]) && LastWord(reqs, l, Standing(reqs)[b])
    ensures k < l
  {
    var m, n := StandingOrder(reqs, a, b);
    LastWordSays(reqs, k, Standing(reqs)[a]);
    LastWordSays(reqs, m, Standing(reqs)[a]);
    LastWordSays(reqs, l, Standing(reqs)[b]);
    LastWordSays(reqs, n, Standing(reqs)[b]);
  }

  /** HASH_FIND after a run: what the last request about the key put, or null when it put nothing. */
  method FindAfter<K(==), V>(table: HashTable<K, V>, ghost reqs: seq<Request<K, V>>, key: K)
    returns (out: Handle?<K, V>)
    requires table.Valid() && Entries(table.items) == Standing(reqs)
    ensures out != null <==> exists k, elt :: LastWord(reqs, k, Entry(key, elt))
    ensures out != null ==> exists k :: LastWord(reqs, k, Entry(key, out.elt))
  {
    out := table.Find(key);
    if out != null {
      ghost var i :| 0 <= i < |table.items| && table.items[i] == out;
      assert Entries(table.items)[i] == Entry(key, out.elt);
      StandingMeans(reqs, Entry(key, out.elt));
    } else {
      forall k, elt ensures !LastWord(reqs, k, Entry(key, elt)) {
        StandingMeans(reqs, Entry(key, elt));
        EntriesHold(table.items, Entry(key, elt));
      }
    }
  }
}
