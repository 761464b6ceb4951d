/** What the terms in which the hash table is specified say of its fields. */
module UtTerms {
  import opened Sequences
  import opened UtHandles
  import opened UtHash
  import opened MergeSort
  import opened LinkSort

  /** In a valid table the items have different keys and the hash values of their keys, and are linked in both
      directions from head to tail. */
  lemma ValidSays<K, V>(t: HashTable<K, V>)
    requires t.Valid()
    ensures t.head == null <==> t.items == []
    ensures forall i, j :: 0 <= i < j < |t.items| ==> t.items[i].key != t.items[j].key
    ensures forall h :: h in t.items ==> h.hashv == t.hash(h.key)
    ensures t.head != null ==>
              && t.head == t.items[0] && t.tail == t.items[|t.items| - 1] && t.numItems == |t.items|
              && (forall i :: 0 < i < |t.items| ==>
                    t.items[i].prev == t.items[i - 1] && t.items[i - 1].next == t.items[i])
              && t.head.prev == null && t.tail.next == null
  {}

  /** An item is in the chain of the bucket that its hash value leaves as remainder by the number of buckets, and
      in no other. */
  lemma PlacedSays<K, V>(t: HashTable<K, V>, h: Handle<K, V>, b: nat)
    requires t.Valid() && t.head != null && b < t.numBuckets
    ensures t.numBuckets == t.buckets.Length == |t.chains|
    ensures h in t.chains[b] <==> h in t.items && h.hashv % t.numBuckets == b
  {
    Remainder(h.hashv, t.log2NumBuckets);
    if h in t.items { assert InBucket(t.chains, t.log2NumBuckets, h); }
  }

  /** A bucket's chain is linked in both directions from its head, holds as many items as are counted, and none
      twice. */
  lemma ChainSays<K, V>(t: HashTable<K, V>, b: nat)
    requires t.Valid() && t.head != null && b < t.numBuckets
    ensures b < t.buckets.Length == |t.chains|
    ensures var c := t.chains[b];
            && t.buckets[b].count == |c| && t.buckets[b].hhHead == (if c == [] then null else c[0])
            && (forall i, j :: 0 <= i < j < |c| ==> c[i] != c[j])
            && (forall i :: 0 < i < |c| ==> c[i].hhPrev == c[i - 1] && c[i - 1].hhNext == c[i])
            && (c != [] ==> c[0].hhPrev == null && c[|c| - 1].hhNext == null)
  {
    var c := t.chains[b];
    assert Linked(c) && NoDup(c) && t.buckets[b].hhHead == First(c) && t.buckets[..][b].count == |c|;
    forall i | 0 < i < |c| ensures c[i].hhPrev == c[i - 1] && c[i - 1].hhNext == c[i] {}
  }

  /** The multiplier of a chain longer than ideal is the lesser of its excess and its length in ideal lengths, rounded
      up. */
  lemma {:induction false} MultSays(count: nat, ideal: nat)
    requires count > ideal
    ensures var m := ExpandMult(count, ideal);
            && m <= count - ideal && (m - 1) * ideal < count
            && (m == count - ideal || m * ideal >= count)
  {
    var before := ExpandMult(count - 1, ideal);
    if count - 1 > ideal { MultSays(count - 1, ideal); }
    MultNext(count, ideal, before, before * ideal);
  }

  lemma MultNext(count: nat, ideal: nat, before: nat, product: nat)
    requires product == before * ideal
    ensures (before + 1) * ideal == product + ideal && (before - 1) * ideal == product - ideal
  {}

  /** The items that do not fit the ideal length, chain by chain. */
  lemma {:induction false} ExcessSays<K, V>(cs: seq<seq<Handle<K, V>>>, c: seq<Handle<K, V>>, ideal: nat)
    ensures Excess<K, V>([], ideal) == 0
    ensures Excess(cs + [c], ideal) == Excess(cs, ideal) + if |c| > ideal then |c| - ideal else 0
  {
    if cs == [] {
      assert cs + [c] == [c];
    } else {
      assert (cs + [c])[1..] == cs[1..] + [c];
      ExcessSays(cs[1..], c, ideal);
    }
  }

  /** For a comparison of elements that is total and transitive, sorting keeps the items, puts smaller elements
      first, and leaves items of equal elements in their order. */
  lemma SortedSays<K, V>(cmp: Comparison<V>, s: seq<Handle<K, V>>)
    requires forall x, y :: x in s && y in s ==> cmp(x.elt, y.elt) <= 0 || cmp(y.elt, x.elt) <= 0
    requires forall x, y, z :: x in s && y in s && z in s && cmp(x.elt, y.elt) <= 0 && cmp(y.elt, z.elt) <= 0 ==>
               cmp(x.elt, z.elt) <= 0
    ensures var r := Sorted(cmp, s);
            && multiset(r) == multiset(s)
            && (forall i, j :: 0 <= i < j < |r| ==> cmp(r[i].elt, r[j].elt) <= 0)
            && (forall i, j :: 0 <= i < j < |r| && cmp(r[j].elt, r[i].elt) <= 0 ==>
                  exists a, b :: 0 <= a < b < |s| && s[a] == r[i] && s[b] == r[j])
  {
    var order, r := ByElement<K, V>(cmp), Sorted(cmp, s);
    SortIsStable(order, s);
    forall i, j | 0 <= i < j < |r|
      ensures cmp(r[i].elt, r[j].elt) <= 0
      ensures cmp(r[j].elt, r[i].elt) <= 0 ==> exists a, b :: 0 <= a < b < |s| && s[a] == r[i] && s[b] == r[j]
    {
      assert InOrder(order, s, r[i], r[j]);
    }
  }
}
