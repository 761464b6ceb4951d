/** uthash: a chained hash table whose items are also threaded on a doubly linked list in application order. */
module UtHash {
  import opened Arithmetic
  import opened Sequences
  import opened Bits
  import opened UtHandles
  import opened MergeSort
  import opened LinkSort

  const INITIAL_NUM_BUCKETS: nat := 32
  const INITIAL_NUM_BUCKETS_LOG2: nat := 5
  const BKT_CAPACITY_THRESH: nat := 10

  datatype Bucket<K(==), V> = Bucket(hhHead: Handle?<K, V>, count: nat, expandMult: nat)

  /** hashv & (2^k - 1): the k low bits of the hash value. */
  function ToBkt(hashv: nat, k: nat): (b: nat)
    ensures b < Pow2(k)
  {
    if k == 0 then 0 else 2 * ToBkt(hashv / 2, k - 1) + hashv % 2
  }

  /** n >> k. */
  function Shr(n: nat, k: nat): nat {
    if k == 0 then n else Shr(n / 2, k - 1)
  }

  /** The ideal chain length for n items in 2^k buckets, computed with a shift and a mask. */
  function IdealLength(n: nat, k: nat): nat {
    Shr(n, k) + if ToBkt(n, k) != 0 then 1 else 0
  }

  lemma {:induction false} ShiftAndMask(n: nat, k: nat)
    ensures n == Shr(n, k) * Pow2(k) + ToBkt(n, k)
  {
    if k > 0 {
      ShiftAndMask(n / 2, k - 1);
      DoubleFactor(Shr(n / 2, k - 1), Pow2(k - 1));
    }
  }

  /** The mask takes the remainder. */
  lemma Remainder(n: nat, k: nat)
    ensures ToBkt(n, k) == n % Pow2(k)
  {
    ShiftAndMask(n, k);
    DivMod(n, Pow2(k), Shr(n, k), ToBkt(n, k));
  }

  lemma DoubleFactor(q: nat, p: nat)
    ensures q * (2 * p) == 2 * (q * p)
  {}

  /** It is the rounded-up quotient: the least length at which all items fit. */
  lemma IdealLengthIsCeiling(n: nat, k: nat)
    ensures n <= IdealLength(n, k) * Pow2(k)
    ensures forall c: nat :: n <= c * Pow2(k) ==> IdealLength(n, k) <= c
  {
    ShiftAndMask(n, k);
    Ceiling(n, Pow2(k), Shr(n, k), ToBkt(n, k));
  }

  lemma Ceiling(n: nat, p: nat, q: nat, r: nat)
    requires r < p && n == q * p + r
    ensures n <= (q + if r != 0 then 1 else 0) * p
    ensures forall c: nat :: n <= c * p ==> q + (if r != 0 then 1 else 0) <= c
  {
    assert (q + 1) * p == q * p + p;
    forall c: nat | n <= c * p ensures q + (if r != 0 then 1 else 0) <= c {
      assert (c + 1) * p == c * p + p;
      if c < q { Monotone(c + 1, q, p); }
    }
  }

  lemma Monotone(a: nat, b: nat, c: nat)
    requires a <= b
    ensures a * c <= b * c
  {}

  /** A bucket's chain. */
  ghost predicate Linked<K, V>(c: seq<Handle<K, V>>)
    reads c`hhPrev, c`hhNext
  {
    && (forall i {:trigger c[i].hhPrev} :: 0 <= i < |c| ==> c[i].hhPrev == if i == 0 then null else c[i - 1])
    && (forall i {:trigger c[i].hhNext} :: 0 <= i < |c| ==> c[i].hhNext == if i + 1 < |c| then c[i + 1] else null)
  }

  /** The next pointers from place k on. */
  ghost predicate LinkedFrom<K, V>(c: seq<Handle<K, V>>, k: nat)
    reads c`hhNext
  {
    forall i {:trigger c[i].hhNext} :: k <= i < |c| ==> c[i].hhNext == if i + 1 < |c| then c[i + 1] else null
  }

  ghost predicate Inside<K, V>(c: seq<Handle<K, V>>, s: set<Handle<K, V>>) {
    forall i :: 0 <= i < |c| ==> c[i] in s
  }

  ghost predicate Heads<K, V>(bs: array<Bucket<K, V>>, cs: seq<seq<Handle<K, V>>>, s: set<Handle<K, V>>)
    reads bs, s`hhPrev, s`hhNext
  {
    && |cs| == bs.Length
    && (forall b {:trigger Linked(cs[b])} :: 0 <= b < |cs| ==> Inside(cs[b], s) && Linked(cs[b]))
    && (forall b :: 0 <= b < |cs| ==> bs[b].hhHead == First(cs[b]))
  }

  ghost predicate Counts<K, V>(bs: seq<Bucket<K, V>>, cs: seq<seq<Handle<K, V>>>) {
    |cs| == |bs| && forall b :: 0 <= b < |cs| ==> bs[b].count == |cs[b]|
  }

  /** The chains hold exactly the given handles, each once and in the bucket of its hash value. */
  ghost predicate Spread<K, V>(cs: seq<seq<Handle<K, V>>>, lg: nat, s: set<Handle<K, V>>)
  {
    && |cs| == Pow2(lg)
    && (forall b, h :: 0 <= b < |cs| && h in cs[b] ==> h in s && ToBkt(h.hashv, lg) == b)
    && (forall h {:trigger InBucket(cs, lg, h)} :: h in s ==> InBucket(cs, lg, h))
    && (forall b {:trigger NoDup(cs[b])} :: 0 <= b < |cs| ==> NoDup(cs[b]))
  }

  ghost predicate InBucket<K, V>(cs: seq<seq<Handle<K, V>>>, lg: nat, h: Handle<K, V>)
    requires |cs| == Pow2(lg)
  {
    h in cs[ToBkt(h.hashv, lg)]
  }

  // ------------------------------------------------------------- bookkeeping of expansion

  /** The number of items beyond the ideal chain length, over all buckets. */
  function Excess<K, V>(cs: seq<seq<Handle<K, V>>>, ideal: nat): nat {
    if cs == [] then 0 else (if |cs[0]| > ideal then |cs[0]| - ideal else 0) + Excess(cs[1..], ideal)
  }

  lemma {:induction false} ExcessStep<K, V>(cs: seq<seq<Handle<K, V>>>, b: nat, c: seq<Handle<K, V>>, ideal: nat)
    requires b < |cs| && |c| == |cs[b]| + 1
    ensures Excess(cs[b := c], ideal) == Excess(cs, ideal) + if |c| > ideal then 1 else 0
  {
    if b == 0 {
      assert cs[b := c][1..] == cs[1..];
    } else {
      assert cs[b := c][1..] == cs[1..][b - 1 := c];
      ExcessStep(cs[1..], b - 1, c, ideal);
    }
  }

  lemma {:induction false} ExcessEmpty<K, V>(cs: seq<seq<Handle<K, V>>>, ideal: nat)
    requires forall k :: 0 <= k < |cs| ==> cs[k] == []
    ensures Excess(cs, ideal) == 0
  {
    if cs != [] { ExcessEmpty(cs[1..], ideal); }
  }

  /** The multiplier a bucket ends with when its items arrive one by one: it delays the next expansion for just the
      buckets that are longer than ideal, and by no more than their excess. */
  function ExpandMult(count: nat, ideal: nat): (m: nat)
    ensures m > 0 <==> count > ideal
    ensures count > ideal ==> m <= count - ideal
  {
    if count == 0 then 0
    else
      var m := ExpandMult(count - 1, ideal);
      if count > ideal && count > m * ideal then m + 1 else m
  }

  /** Puts a handle at the front of a chain; the bucket comes with its counters already raised. */
  method LinkFront<K, V>(bs: array<Bucket<K, V>>, b: nat, bucket: Bucket<K, V>, h: Handle<K, V>,
                         ghost cs: seq<seq<Handle<K, V>>>, ghost lg: nat, ghost s: set<Handle<K, V>>)
    requires Heads(bs, cs, s) && Spread(cs, lg, s) && b < |cs| && h !in s && bucket.hhHead == bs[b].hhHead
    modifies bs, h`hhPrev, h`hhNext, s`hhPrev
    ensures Heads(bs, cs[b := [h] + cs[b]], s + {h})
    ensures bs[..] == old(bs[..])[b := bucket.(hhHead := h)]
  {
    var first := bs[b].hhHead;
    assert Linked(cs[b]) && Inside(cs[b], s) && first == First(cs[b]);
    h.hhNext := first;
    h.hhPrev := null;
    if first != null {
      first.hhPrev := h;
    }
    bs[b] := bucket.(hhHead := h);
    ghost var cs' := cs[b := [h] + cs[b]];
    forall k | 0 <= k < |cs'| ensures Inside(cs'[k], s + {h}) && Linked(cs'[k]) {
      assert old(Linked(cs[k])) && Inside(cs[k], s) && NoDup(cs[k]);
      if k != b {
        forall i | 0 <= i < |cs[k]| ensures cs[k][i] != h && cs[k][i] != first {
          assert cs[k][i] in cs[k];
          if cs[b] != [] { assert cs[b][0] in cs[b]; }
        }
      } else {
        assert cs'[b] == [h] + cs[b];
        assert forall i :: 0 <= i < |cs[b]| ==> cs[b][i] in cs[b] && cs[b][i] != h;
      }
    }
  }

  lemma EmptyHeads<K, V>(bs: array<Bucket<K, V>>, cs: seq<seq<Handle<K, V>>>, lg: nat)
    requires |cs| == bs.Length == Pow2(lg)
    requires forall b :: 0 <= b < |cs| ==> cs[b] == [] && bs[b] == Bucket(null, 0, 0)
    ensures Heads(bs, cs, {}) && Spread(cs, lg, {}) && Counts(bs[..], cs)
  {
    forall b | 0 <= b < |cs| ensures Inside(cs[b], {}) && Linked(cs[b]) {
      assert cs[b] == [];
    }
  }

  /** The multipliers of the new buckets. */
  ghost predicate Mults<K, V>(bs: seq<Bucket<K, V>>, cs: seq<seq<Handle<K, V>>>, ideal: nat) {
    if cs == [] then bs == []
    else bs != [] && bs[0].expandMult == ExpandMult(|cs[0]|, ideal) && Mults(bs[1..], cs[1..], ideal)
  }

  lemma {:induction false} MultsStep<K, V>(bs: seq<Bucket<K, V>>, cs: seq<seq<Handle<K, V>>>, b: nat,
                                           bucket: Bucket<K, V>, c: seq<Handle<K, V>>, ideal: nat)
    requires Mults(bs, cs, ideal) && |bs| == |cs| && b < |cs| && |c| == |cs[b]| + 1
    requires bucket.expandMult == if |c| > ideal && |c| > bs[b].expandMult * ideal then bs[b].expandMult + 1
                                  else bs[b].expandMult
    ensures Mults(bs[b := bucket], cs[b := c], ideal)
  {
    if b == 0 {
      assert cs[b := c][1..] == cs[1..] && bs[b := bucket][1..] == bs[1..];
    } else {
      assert cs[b := c][1..] == cs[1..][b - 1 := c] && bs[b := bucket][1..] == bs[1..][b - 1 := bucket];
      MultsStep(bs[1..], cs[1..], b - 1, bucket, c, ideal);
    }
  }

  lemma {:induction false} MultsAt<K, V>(bs: seq<Bucket<K, V>>, cs: seq<seq<Handle<K, V>>>, b: nat, ideal: nat)
    requires Mults(bs, cs, ideal) && b < |cs|
    ensures b < |bs| && bs[b].expandMult == ExpandMult(|cs[b]|, ideal)
  {
    if b > 0 { MultsAt(bs[1..], cs[1..], b - 1, ideal); }
  }

  lemma {:induction false} MultsEmpty<K, V>(bs: seq<Bucket<K, V>>, cs: seq<seq<Handle<K, V>>>, ideal: nat)
    requires |bs| == |cs| && forall k :: 0 <= k < |cs| ==> cs[k] == [] && bs[k].expandMult == 0
    ensures Mults(bs, cs, ideal)
  {
    if cs != [] { MultsEmpty(bs[1..], cs[1..], ideal); }
  }

  /** The counters of the new buckets, and the number of items beyond the ideal chain length. */
  ghost predicate Counters<K, V>(bs: seq<Bucket<K, V>>, cs: seq<seq<Handle<K, V>>>, ideal: nat, nonideal: nat) {
    Counts(bs, cs) && nonideal == Excess(cs, ideal) && Mults(bs, cs, ideal)
  }

  lemma CountersStep<K, V>(bs: seq<Bucket<K, V>>, cs: seq<seq<Handle<K, V>>>, b: nat, h: Handle<K, V>,
                           bucket: Bucket<K, V>, ideal: nat, nonideal: nat)
    requires Counters(bs, cs, ideal, nonideal) && b < |cs|
    requires bucket.count == bs[b].count + 1
    requires bucket.expandMult == if bucket.count > ideal && bucket.count > bs[b].expandMult * ideal
                                  then bs[b].expandMult + 1 else bs[b].expandMult
    ensures Counters(bs[b := bucket.(hhHead := h)], cs[b := [h] + cs[b]], ideal,
                     nonideal + if bucket.count > ideal then 1 else 0)
  {
    ExcessStep(cs, b, [h] + cs[b], ideal);
    MultsStep(bs, cs, b, bucket.(hhHead := h), [h] + cs[b], ideal);
  }

  lemma SpreadMore<K, V>(cs: seq<seq<Handle<K, V>>>, lg: nat, s: set<Handle<K, V>>, h: Handle<K, V>)
    requires Spread(cs, lg, s) && h !in s
    ensures var b := ToBkt(h.hashv, lg); Spread(cs[b := [h] + cs[b]], lg, s + {h})
  {
    var b := ToBkt(h.hashv, lg);
    var cs' := cs[b := [h] + cs[b]];
    forall k | 0 <= k < |cs'| ensures NoDup(cs'[k]) {
      assert NoDup(cs[k]);
      if k == b { assert forall i :: 0 <= i < |cs[b]| ==> cs[b][i] in cs[b]; }
    }
    forall x | x in s + {h} ensures InBucket(cs', lg, x) {
      if x != h { assert InBucket(cs, lg, x); }
    }
  }

  ghost predicate UniqueKeys<K, V>(s: seq<Handle<K, V>>) {
    forall i, j {:trigger s[i].key, s[j].key} :: 0 <= i < j < |s| ==> s[i].key != s[j].key
  }

  method Bypass<K, V>(h: Handle<K, V>, ghost chain: seq<Handle<K, V>>, ghost j: nat)
    requires Linked(chain) && NoDup(chain) && j < |chain| && chain[j] == h
    modifies (ToSet(chain) - {h})`hhPrev, (ToSet(chain) - {h})`hhNext
    ensures Linked(chain[..j] + chain[j + 1..])
  {
    if h.hhPrev != null {
      h.hhPrev.hhNext := h.hhNext;
    }
    if h.hhNext != null {
      h.hhNext.hhPrev := h.hhPrev;
    }
  }

  /** Takes a handle out of its chain; the bucket comes with its count already lowered. */
  method UnlinkItem<K, V>(bs: array<Bucket<K, V>>, b: nat, bucket: Bucket<K, V>, h: Handle<K, V>, ghost j: nat,
                          ghost cs: seq<seq<Handle<K, V>>>, ghost lg: nat, ghost s: set<Handle<K, V>>)
    requires Heads(bs, cs, s) && Spread(cs, lg, s) && b < |cs| && j < |cs[b]| && cs[b][j] == h
    requires bucket.hhHead == bs[b].hhHead
    modifies bs, (s - {h})`hhPrev, (s - {h})`hhNext
    ensures Heads(bs, cs[b := cs[b][..j] + cs[b][j + 1..]], s - {h})
    ensures exists first :: bs[..] == old(bs[..])[b := bucket.(hhHead := first)]
  {
    ghost var chain := cs[b];
    assert Linked(chain) && Inside(chain, s) && NoDup(chain) && bucket.hhHead == First(chain);
    var first := if bucket.hhHead == h then h.hhNext else bucket.hhHead;
    Bypass(h, chain, j);
    bs[b] := bucket.(hhHead := first);
    assert Inside(chain[..j] + chain[j + 1..], s - {h});
    forall k | 0 <= k < |cs| && k != b ensures Inside(cs[k], s - {h}) && Linked(cs[k]) {
      assert old(Linked(cs[k])) && Inside(cs[k], s);
      ApartFrom(cs, lg, s, k, b);
    }
  }

  /** Chains share no handle. */
  lemma ApartFrom<K, V>(cs: seq<seq<Handle<K, V>>>, lg: nat, s: set<Handle<K, V>>, k: nat, b: nat)
    requires Spread(cs, lg, s) && k < |cs| && b < |cs| && k != b
    ensures forall i :: 0 <= i < |cs[k]| ==> cs[k][i] !in ToSet(cs[b])
  {
    forall i | 0 <= i < |cs[k]| ensures cs[k][i] !in ToSet(cs[b]) {
      var h := cs[k][i];
      assert h in cs[k] && ToBkt(h.hashv, lg) == k;
    }
  }

  lemma SpreadLess<K, V>(cs: seq<seq<Handle<K, V>>>, lg: nat, s: set<Handle<K, V>>, h: Handle<K, V>, j: nat)
    requires Spread(cs, lg, s)
    requires var c := cs[ToBkt(h.hashv, lg)]; j < |c| && c[j] == h
    ensures var b := ToBkt(h.hashv, lg); Spread(cs[b := cs[b][..j] + cs[b][j + 1..]], lg, s - {h})
  {
    var b := ToBkt(h.hashv, lg);
    var c := cs[b];
    var cs' := cs[b := c[..j] + c[j + 1..]];
    assert NoDup(c);
    forall k | 0 <= k < |cs'| ensures NoDup(cs'[k]) { assert NoDup(cs[k]); }
    forall x | x in s - {h} ensures InBucket(cs', lg, x) {
      assert InBucket(cs, lg, x);
      if ToBkt(x.hashv, lg) == b {
        var i :| 0 <= i < |c| && c[i] == x;
        assert x == if i < j then c[..j][i] else c[j + 1..][i - j - 1];
      }
    }
  }

  lemma KeysDistinct<K, V>(s: seq<Handle<K, V>>)
    requires UniqueKeys(s)
    ensures NoDup(s)
  {
    forall i, j | 0 <= i < j < |s| ensures s[i] != s[j] { assert s[i].key != s[j].key; }
  }

  lemma SameKeySameItem<K, V>(s: seq<Handle<K, V>>, x: Handle<K, V>, y: Handle<K, V>)
    requires UniqueKeys(s) && x in s && y in s && x.key == y.key
    ensures x == y
  {
    var i :| 0 <= i < |s| && s[i] == x;
    var j :| 0 <= j < |s| && s[j] == y;
    KeyAtOnePlace(s, i, j);
  }

  lemma KeyAtOnePlace<K, V>(s: seq<Handle<K, V>>, i: nat, j: nat)
    requires UniqueKeys(s) && i < |s| && j < |s|
    ensures s[i].key == s[j].key ==> i == j
  {}

  ghost function ItemOf<K, V>(s: seq<Handle<K, V>>, key: K): (h: Handle<K, V>)
    requires exists h :: h in s && h.key == key
    ensures h in s && h.key == key
  {
    var h :| h in s && h.key == key; h
  }

  /** Every item under its own key, and nothing else. */
  ghost predicate Keyed<K, V>(s: seq<Handle<K, V>>, m: map<K, Handle<K, V>>) {
    && (forall h {:trigger h in s} :: h in s ==> h.key in m && m[h.key] == h)
    && (forall key {:trigger key in m} :: key in m ==> m[key] in s && m[key].key == key)
  }

  ghost function ModelOf<K, V>(s: seq<Handle<K, V>>): (m: map<K, Handle<K, V>>)
    requires UniqueKeys(s)
    ensures Keyed(s, m)
  {
    var m := map key | key in (set h | h in s :: h.key) :: ItemOf(s, key);
    assert Keyed(s, m) by {
      forall h | h in s ensures h.key in m && m[h.key] == h { SameKeySameItem(s, h, ItemOf(s, h.key)); }
    }
    m
  }

  lemma ModelAppend<K, V>(s: seq<Handle<K, V>>, h: Handle<K, V>)
    requires UniqueKeys(s) && h.key !in ModelOf(s)
    ensures UniqueKeys(s + [h]) && ModelOf(s + [h]) == ModelOf(s)[h.key := h]
    ensures h !in s && ToSet(s + [h]) - {h} == ToSet(s)
  {
    assert forall i :: 0 <= i < |s| ==> s[i] in s && s[i].key in ModelOf(s);
    assert forall x :: x in s + [h] <==> x in s || x == h;
  }

  lemma Overwritten<K, V>(m: map<K, V>, key: K, v: V)
    ensures (m - {key})[key := v] == m[key := v]
  {}

  function Omit<T>(s: seq<T>, k: nat): seq<T>
    requires k < |s|
  {
    s[..k] + s[k + 1..]
  }

  lemma EndsOfOmit<T>(s: seq<T>, k: nat)
    requires k < |s| && |s| > 1
    ensures |Omit(s, k)| == |s| - 1
    ensures Omit(s, k)[0] == if k == 0 then s[1] else s[0]
    ensures Omit(s, k)[|s| - 2] == if k == |s| - 1 then s[|s| - 2] else s[|s| - 1]
  {}

  lemma OmitMembers<K, V>(s: seq<Handle<K, V>>, k: nat)
    requires UniqueKeys(s) && k < |s|
    ensures UniqueKeys(Omit(s, k))
    ensures forall x :: x in Omit(s, k) <==> x in s && x != s[k]
  {
    var r := Omit(s, k);
    KeysDistinct(s);
    assert forall i :: 0 <= i < |r| ==> r[i] == s[if i < k then i else i + 1];
    forall x ensures x in r <==> x in s && x != s[k] {
      if x in s && x != s[k] {
        var i :| 0 <= i < |s| && s[i] == x;
        assert x == r[if i < k then i else i - 1];
      }
    }
  }

  lemma ModelOmit<K, V>(s: seq<Handle<K, V>>, k: nat)
    requires UniqueKeys(s) && k < |s|
    ensures UniqueKeys(Omit(s, k)) && s[k] !in Omit(s, k)
    ensures ModelOf(Omit(s, k)) == ModelOf(s) - {s[k].key}
    ensures ToSet(Omit(s, k)) == ToSet(s) - {s[k]} && s[k] in ToSet(s)
  {
    OmitMembers(s, k);
    forall x | x in s ensures x.key == s[k].key <==> x == s[k] {
      KeyOnce(s, k, x);
    }
  }

  lemma KeyOnce<K, V>(s: seq<Handle<K, V>>, k: nat, x: Handle<K, V>)
    requires UniqueKeys(s) && k < |s| && x in s
    ensures x.key == s[k].key <==> x == s[k]
  {
    var i :| 0 <= i < |s| && s[i] == x;
    KeyAtOnePlace(s, i, k);
  }

  /** Rearranging the items changes neither the set of items nor the map they form. */
  lemma SortedKeys<K, V>(s: seq<Handle<K, V>>, t: seq<Handle<K, V>>)
    requires UniqueKeys(s) && multiset(s) == multiset(t)
    ensures ToSet(t) == ToSet(s) && UniqueKeys(t) && ModelOf(t) == ModelOf(s)
  {
    SameMembers(s, t);
    KeysDistinct(s);
    forall x ensures multiset(t)[x] <= 1 { MultisetOfNoDup(s, x); }
    NoDupOfMultiset(t);
    forall i, j | 0 <= i < j < |t| ensures t[i].key != t[j].key {
      assert t[i] in s && t[j] in s;
      var k :| 0 <= k < |s| && s[k] == t[i];
      var l :| 0 <= l < |s| && s[l] == t[j];
      assert s[k].key == t[i].key && s[l].key == t[j].key;
    }
  }

  ghost function Sorted<K, V>(cmp: Comparison<V>, s: seq<Handle<K, V>>): seq<Handle<K, V>> {
    Passes(ByElement<K, V>(cmp), s, 1)
  }

  lemma SortedSame<K, V>(cmp: Comparison<V>, s: seq<Handle<K, V>>)
    requires UniqueKeys(s)
    ensures var t := Sorted(cmp, s);
            && NoDup(s) && UniqueKeys(t) && ToSet(t) == ToSet(s) && ModelOf(t) == ModelOf(s) && |t| == |s|
            && (forall h :: h in t <==> h in s)
            && (TotalPreorder(ByElement<K, V>(cmp), ToSet(s)) ==> StableSort(ByElement<K, V>(cmp), s, t))
  {
    var t := Sorted(cmp, s);
    PassesPermute(ByElement<K, V>(cmp), s, 1);
    assert |multiset(s)| == |s| && |multiset(t)| == |t|;
    SortedKeys(s, t);
    SameMembers(s, t);
    KeysDistinct(s);
    if TotalPreorder(ByElement<K, V>(cmp), ToSet(s)) { SortIsStable(ByElement<K, V>(cmp), s); }
  }

  /** The multipliers of the buckets. */
  function MultsOf<K, V>(bs: seq<Bucket<K, V>>): (r: seq<nat>)
    ensures |r| == |bs| && forall b :: 0 <= b < |bs| ==> r[b] == bs[b].expandMult
  {
    seq(|bs|, b requires 0 <= b < |bs| => bs[b].expandMult)
  }

  /** What only a doubling may change. */
  datatype Shape = Shape(numBuckets: nat, log2NumBuckets: nat, idealChainMaxlen: nat, nonidealItems: nat,
                         ineffExpands: nat, noexpand: bool, mults: seq<nat>)

  const EMPTY_SHAPE: Shape :=
    Shape(INITIAL_NUM_BUCKETS, INITIAL_NUM_BUCKETS_LOG2, 0, 0, 0, false, seq(INITIAL_NUM_BUCKETS, _ => 0))

  class HashTable<K(==), V> {
    const hash: K -> nat
    var head: Handle?<K, V>
    var buckets: array<Bucket<K, V>>
    var numBuckets: nat
    var log2NumBuckets: nat
    var numItems: nat
    var tail: Handle?<K, V>
    var idealChainMaxlen: nat
    var nonidealItems: nat
    var ineffExpands: nat
    var noexpand: bool
    /** The items in application order, and bucket by bucket. */
    ghost var items: seq<Handle<K, V>>
    ghost var chains: seq<seq<Handle<K, V>>>

    ghost predicate Hashed()
      reads `items
    {
      forall h {:trigger h.hashv} :: h in items ==> h.hashv == hash(h.key)
    }

    /** The order of the items, as kept by the list pointers, head and tail. */
    ghost predicate Threaded()
      reads `items, `head, `tail, `numItems, items`prev, items`next
    {
      items != [] && AppLinked(items) && head == items[0] && tail == items[|items| - 1] && numItems == |items|
    }

    /** The buckets hold just the given items. */
    ghost predicate Hold(all: set<Handle<K, V>>)
      reads `chains, `buckets, `numBuckets, `log2NumBuckets, buckets, all`hhPrev, all`hhNext
    {
      && numBuckets == Pow2(log2NumBuckets) == |chains|
      && Spread(chains, log2NumBuckets, all) && Heads(buckets, chains, all) && Counts(buckets[..], chains)
    }

    ghost predicate Bucketed()
      reads `items, `chains, `buckets, `numBuckets, `log2NumBuckets, buckets, items`hhPrev, items`hhNext
    {
      Hold(ToSet(items))
    }

    /** What HASH_FSCK checks, and where every item must be found. */
    ghost predicate Valid()
      reads this, buckets, items
    {
      && UniqueKeys(items) && Hashed()
      && if head == null then items == [] else Threaded() && Bucketed()
    }

    /** The plain map that the table stands for. */
    ghost function Model(): map<K, Handle<K, V>>
      reads this
      requires UniqueKeys(items)
    {
      ModelOf(items)
    }

    ghost function CurrentShape(): Shape
      reads `numBuckets, `log2NumBuckets, `idealChainMaxlen, `nonidealItems, `ineffExpands, `noexpand, `buckets, buckets
    {
      Shape(numBuckets, log2NumBuckets, idealChainMaxlen, nonidealItems, ineffExpands, noexpand, MultsOf(buckets[..]))
    }

    /** One more item with the hash value would fill its bucket beyond its capacity, and doubling is allowed. */
    ghost predicate Crowded(hashv: nat)
      reads `log2NumBuckets, `noexpand, `buckets, buckets
    {
      var b := ToBkt(hashv, log2NumBuckets);
      && !noexpand && b < buckets.Length
      && buckets[b].count + 1 >= (buckets[b].expandMult + 1) * BKT_CAPACITY_THRESH
    }

    constructor (hash: K -> nat)
      ensures Valid() && items == [] && head == null && this.hash == hash
    {
      this.hash := hash;
      head, tail := null, null;
      buckets := new Bucket[0];
      numBuckets, log2NumBuckets, numItems := 0, 0, 0;
      idealChainMaxlen, nonidealItems, ineffExpands, noexpand := 0, 0, 0, false;
      items, chains := [], [];
    }

    /** HASH_FIND: the item with the key, or null. */
    method Find(key: K) returns (out: Handle?<K, V>)
      requires Valid()
      ensures out == if key in Model() then Model()[key] else null
    {
      out := null;
      if head != null {
        var hashv := hash(key);
        var bkt := ToBkt(hashv, log2NumBuckets);
        ghost var chain := chains[bkt];
        ghost var k := 0;
        assert Linked(chains[bkt]) && Inside(chain, ToSet(items));
        out := buckets[bkt].hhHead;
        assert out == First(chains[bkt]);
        while out != null
          invariant 0 <= k <= |chain|
          invariant out == if k < |chain| then chain[k] else null
          invariant forall i :: 0 <= i < k ==> chain[i].key != key
          decreases |chain| - k
        {
          if out.hashv == hashv && out.key == key { break; }
          out := out.hhNext;
          k := k + 1;
        }
        if out == null {
          forall h | h in items ensures h.key != key {
            assert InBucket(chains, log2NumBuckets, h);
            assert h.key == key ==> h in chain;
          }
        } else {
          assert out in items;
        }
      }
    }

    /** HASH_SRT: rearranges the application-order list and leaves the buckets alone. */
    method Sort(cmp: Comparison<V>)
      requires Valid()
      modifies `head, `tail, `items, items`next, items`prev
      ensures Valid() && Model() == old(Model())
      ensures items == Sorted(cmp, old(items))
      ensures TotalPreorder(ByElement<K, V>(cmp), ToSet(old(items))) ==>
                StableSort(ByElement<K, V>(cmp), old(items), items)
    {
      SortedSame(cmp, items);
      if head != null {
        SortList(cmp);
      }
    }

    method SortList(cmp: Comparison<V>)
      requires Threaded() && Bucketed() && NoDup(items) && ToSet(Sorted(cmp, items)) == ToSet(items)
      requires |Sorted(cmp, items)| == |items|
      modifies `head, `tail, `items, items`next, items`prev
      ensures items == Sorted(cmp, old(items)) && Threaded() && Bucketed() && head != null
    {
      ghost var all := ToSet(items);
      Rethread(cmp);
      items := Sorted(cmp, items);
      assert Hold(all);
    }

    /** Sorts the application-order list. */
    method Rethread(cmp: Comparison<V>)
      requires Threaded() && NoDup(items)
      modifies `head, `tail, items`next, items`prev
      ensures var r := Sorted(cmp, items);
              r != [] && AppLinked(r) && head == r[0] && tail == r[|r| - 1]
    {
      var list, last := SortLinks(cmp, head, items);
      tail := last;
      head := list;
    }

    /** HASH_ADD of an element with a new key: allocates its handle and appends it. */
    method Add(key: K, elt: V) returns (h: Handle<K, V>)
      requires Valid() && key !in Model()
      modifies this, items, buckets
      ensures Valid() && fresh(h) && h.key == key && h.elt == elt
      ensures items == old(items) + [h]
      ensures Model() == old(Model())[key := h]
      ensures fresh(buckets) || buckets == old(buckets)
      ensures if old(head) == null then CurrentShape() == EMPTY_SHAPE
              else if old(Crowded(hash(key))) then numBuckets == 2 * old(numBuckets) && Balanced(old(ineffExpands))
              else CurrentShape() == old(CurrentShape())
      ensures old(head) == null ==> numBuckets == 32 && !noexpand
      ensures old(head) != null ==>
                && old(numBuckets == buckets.Length > 0)
                && var b := old(buckets[hash(key) % numBuckets]);
                   numBuckets == if !old(noexpand) && b.count + 1 >= (b.expandMult + 1) * 10 then 2 * old(numBuckets)
                                 else old(numBuckets)
    {
      if head != null { Remainder(hash(key), log2NumBuckets); }
      h := new Handle(key, elt, hash(key));
      ModelAppend(items, h);
      Enter(h);
      AddToBucket(h);
    }

    /** HASH_REPLACE: an element with the same key, from place k, goes first; the new one is appended. */
    method Replace(key: K, elt: V) returns (h: Handle<K, V>, replaced: Handle?<K, V>, ghost k: nat)
      requires Valid()
      modifies this, items, buckets
      ensures Valid() && fresh(h) && h.key == key && h.elt == elt
      ensures replaced == if key in old(Model()) then old(Model())[key] else null
      ensures if replaced == null then items == old(items) + [h]
              else k < |old(items)| && old(items)[k] == replaced && items == Omit(old(items), k) + [h]
      ensures Model() == old(Model())[key := h]
      ensures fresh(buckets) || buckets == old(buckets)
    {
      k := 0;
      replaced := Find(key);
      if replaced != null {
        k := Delete(replaced);
      }
      h := Add(key, elt);
      Overwritten(old(Model()), key, h);
    }

    /** Puts a new handle on the application-order list, making the table for a first item. */
    method Enter(h: Handle<K, V>)
      requires Valid() && h.hashv == hash(h.key) && h.key !in Model()
      modifies this, h`prev, h`next, items`prev, items`next
      ensures items == old(items) + [h] && UniqueKeys(items) && Hashed() && Threaded() && head != null
      ensures Hold(ToSet(items) - {h})
      ensures fresh(buckets) || buckets == old(buckets)
      ensures CurrentShape() == if old(head) == null then EMPTY_SHAPE else old(CurrentShape())
      ensures Crowded(h.hashv) <==> old(head) != null && old(Crowded(h.hashv))
    {
      ghost var before := items;
      ModelAppend(items, h);
      if head == null {
        assert ToSet(before) == {};
        MakeTable(h);
      } else {
        KeysDistinct(items);
        AppendList(h);
        assert Hold(ToSet(before));
      }
    }

    /** Deletes an item that is in the table, at place k. */
    method Delete(h: Handle<K, V>) returns (ghost k: nat)
      requires Valid() && h in items
      modifies this, items, buckets
      ensures Valid() && h !in items
      ensures k < |old(items)| && old(items)[k] == h && items == Omit(old(items), k)
      ensures Model() == old(Model()) - {h.key}
      ensures buckets == old(buckets) && (items != [] ==> CurrentShape() == old(CurrentShape()))
    {
      k :| 0 <= k < |items| && items[k] == h;
      ModelOmit(items, k);
      if h.prev == null && h.next == null {
        assert Omit(items, k) == [];
        head := null;
        items, chains := [], [];
      } else {
        RemoveFrom(h, k);
      }
    }

    method RemoveFrom(h: Handle<K, V>, ghost k: nat)
      requires Valid() && head != null && k < |items| && items[k] == h && |items| > 1
      modifies `head, `tail, `items, `numItems, `chains, buckets, items`prev, items`next, items`hhPrev, items`hhNext
      ensures Valid() && head != null
      ensures items == Omit(old(items), k) && CurrentShape() == old(CurrentShape())
    {
      ModelOmit(items, k);
      KeysDistinct(items);
      RemoveLinks(h, k);
      OmitHashed(h, k, old(items));
    }

    method RemoveLinks(h: Handle<K, V>, ghost k: nat)
      requires Threaded() && Bucketed() && k < |items| && items[k] == h && |items| > 1 && NoDup(items)
      modifies `head, `tail, `items, `numItems, `chains, buckets, items`prev, items`next, items`hhPrev, items`hhNext
      ensures items == Omit(old(items), k) && Threaded()
      ensures Hold(ToSet(old(items)) - {h}) && CurrentShape() == old(CurrentShape())
    {
      ghost var all := ToSet(items);
      Unthread(h, k);
      DeleteInBucket(h, all);
    }

    lemma OmitHashed(h: Handle<K, V>, k: nat, before: seq<Handle<K, V>>)
      requires k < |before| && items == Omit(before, k)
      requires forall x {:trigger x.hashv} :: x in before ==> x.hashv == hash(x.key)
      ensures Hashed()
    {}

    /** The patch-up of the application-order list. */
    method Unthread(h: Handle<K, V>, ghost k: nat)
      requires NoDup(items) && Threaded() && k < |items| && items[k] == h && |items| > 1
      modifies `head, `tail, `items, `numItems, items`prev, items`next
      ensures items == Omit(old(items), k)
      ensures Threaded()
    {
      ghost var r := Omit(items, k);
      EndsOfOmit(items, k);
      if h == tail {
        tail := h.prev;
      }
      if h.prev == null {
        head := h.next;
      }
      JoinNeighbours(h, k, items);
      numItems := numItems - 1;
      items := r;
    }

    static method JoinNeighbours(h: Handle<K, V>, ghost k: nat, ghost s: seq<Handle<K, V>>)
      requires NoDup(s) && AppLinked(s) && k < |s| && s[k] == h
      modifies s`prev, s`next
      ensures AppLinked(Omit(s, k))
    {
      if h.prev != null {
        h.prev.next := h.next;
      }
      if h.next != null {
        h.next.prev := h.prev;
      }
      ghost var r := Omit(s, k);
      assert forall i :: 0 <= i < k ==> r[i] == s[i];
      assert forall i :: k <= i < |r| ==> r[i] == s[i + 1];
    }

    /** HASH_DEL_IN_BKT. */
    method DeleteInBucket(h: Handle<K, V>, ghost all: set<Handle<K, V>>)
      requires Hold(all) && h in all
      modifies `chains, buckets, all`hhPrev, all`hhNext
      ensures Hold(all - {h}) && CurrentShape() == old(CurrentShape())
    {
      var bkt := ToBkt(h.hashv, log2NumBuckets);
      ghost var chain := chains[bkt];
      assert InBucket(chains, log2NumBuckets, h);
      ghost var j :| 0 <= j < |chain| && chain[j] == h;
      var bucket := buckets[bkt].(count := buckets[bkt].count - 1);
      UnlinkItem(buckets, bkt, bucket, h, j, chains, log2NumBuckets, all);
      SpreadLess(chains, log2NumBuckets, all, h, j);
      chains := chains[bkt := chain[..j] + chain[j + 1..]];
    }

    /** HASH_APPEND_LIST. */
    method AppendList(h: Handle<K, V>)
      requires NoDup(items) && Threaded() && h !in items
      modifies this`tail, this`items, this`numItems, h`next, h`prev, items`next
      ensures items == old(items) + [h] && Threaded()
    {
      h.next := null;
      h.prev := tail;
      tail.next := h;
      tail := h;
      items := items + [h];
      numItems := numItems + 1;
    }

    /** HASH_MAKE_TABLE, with the new element as head and only item. */
    method MakeTable(h: Handle<K, V>)
      requires items == []
      modifies this, h`next, h`prev
      ensures items == [h] && Threaded() && fresh(buckets) && CurrentShape() == EMPTY_SHAPE
      ensures forall b :: 0 <= b < buckets.Length ==> buckets[b].count == 0
      ensures Hold({})
    {
      InitBuckets();
      h.next := null;
      h.prev := null;
      tail := h;
      head := h;
      items := [h];
      numItems := 1;
    }

    method InitBuckets()
      modifies `buckets, `numBuckets, `log2NumBuckets, `idealChainMaxlen, `nonidealItems, `ineffExpands, `noexpand,
               `chains
      ensures fresh(buckets) && CurrentShape() == EMPTY_SHAPE
      ensures forall b :: 0 <= b < buckets.Length ==> buckets[b].count == 0
      ensures Hold({})
    {
      numBuckets := INITIAL_NUM_BUCKETS;
      log2NumBuckets := INITIAL_NUM_BUCKETS_LOG2;
      buckets := new Bucket<K, V>[INITIAL_NUM_BUCKETS](_ => Bucket(null, 0, 0));
      idealChainMaxlen, nonidealItems, ineffExpands, noexpand := 0, 0, 0, false;
      chains := seq(INITIAL_NUM_BUCKETS, _ => []);
      assert Pow2(5) == 32 by { assert Pow2(3) == 8; }
      EmptyHeads(buckets, chains, log2NumBuckets);
    }

    /** HASH_ADD_TO_BKT up to the decision whether to expand. */
    method PutInBucket(h: Handle<K, V>) returns (full: bool)
      requires head != null && UniqueKeys(items) && Hashed() && Threaded() && h in items
      requires Hold(ToSet(items) - {h})
      modifies this`chains, buckets, items`hhPrev, items`hhNext
      ensures Valid() && CurrentShape() == old(CurrentShape())
      ensures full <==> old(Crowded(h.hashv))
    {
      var bkt := ToBkt(h.hashv, log2NumBuckets);
      ghost var others := ToSet(items) - {h};
      assert others + {h} == ToSet(items);
      var bucket := buckets[bkt].(count := buckets[bkt].count + 1);
      LinkFront(buckets, bkt, bucket, h, chains, log2NumBuckets, others);
      SpreadMore(chains, log2NumBuckets, others, h);
      chains := chains[bkt := [h] + chains[bkt]];
      full := bucket.count >= (bucket.expandMult + 1) * BKT_CAPACITY_THRESH && !noexpand;
    }

    /** HASH_ADD_TO_BKT: adds an item to its bucket, which may double the buckets. */
    method AddToBucket(h: Handle<K, V>)
      requires head != null && UniqueKeys(items) && Hashed() && Threaded() && h in items
      requires Hold(ToSet(items) - {h})
      modifies this`buckets, this`numBuckets, this`log2NumBuckets, this`idealChainMaxlen, this`nonidealItems,
               this`ineffExpands, this`noexpand, this`chains, buckets, items`hhPrev, items`hhNext
      ensures Valid()
      ensures fresh(buckets) || buckets == old(buckets)
      ensures if old(Crowded(h.hashv)) then numBuckets == 2 * old(numBuckets) && Balanced(old(ineffExpands))
              else CurrentShape() == old(CurrentShape())
    {
      var full := PutInBucket(h);
      if full {
        ExpandBuckets();
      }
    }

    /** The bookkeeping right after a doubling: the ideal length is the least that could hold all items, the
        nonideal items are those beyond it, and two ineffective doublings in a row inhibit any further one. */
    ghost predicate Balanced(ineff: nat)
      reads this, buckets
    {
      && idealChainMaxlen == IdealLength(numItems, log2NumBuckets)
      && Counters(buckets[..], chains, idealChainMaxlen, nonidealItems)
      && ineffExpands == (if nonidealItems > numItems / 2 then ineff + 1 else 0)
      && (noexpand <==> ineffExpands > 1)
    }

    /** The state of a doubling under way: the new buckets hold exactly the items moved so far. */
    ghost predicate Moving(newBuckets: array<Bucket<K, V>>, nc: seq<seq<Handle<K, V>>>, moved: set<Handle<K, V>>)
      reads `log2NumBuckets, `idealChainMaxlen, `nonidealItems, newBuckets, moved`hhPrev, moved`hhNext
    {
      && Spread(nc, log2NumBuckets + 1, moved) && Heads(newBuckets, nc, moved)
      && Counters(newBuckets[..], nc, idealChainMaxlen, nonidealItems)
    }

    method MoveOne(newBuckets: array<Bucket<K, V>>, thh: Handle<K, V>, ghost nc: seq<seq<Handle<K, V>>>,
                   ghost moved: set<Handle<K, V>>)
      returns (ghost nc': seq<seq<Handle<K, V>>>)
      requires Moving(newBuckets, nc, moved) && thh !in moved
      modifies this`nonidealItems, newBuckets, moved`hhPrev, thh`hhPrev, thh`hhNext
      ensures Moving(newBuckets, nc', moved + {thh})
    {
      var bkt := ToBkt(thh.hashv, log2NumBuckets + 1);
      SpreadMore(nc, log2NumBuckets + 1, moved, thh);
      var bucket := CountIn(newBuckets[bkt], bkt, thh, newBuckets[..], nc);
      nc' := MoveInto(newBuckets, bkt, bucket, thh, nc, moved);
    }

    /** Puts an item that has been counted into its new bucket. */
    method MoveInto(newBuckets: array<Bucket<K, V>>, bkt: nat, bucket: Bucket<K, V>, thh: Handle<K, V>,
                    ghost nc: seq<seq<Handle<K, V>>>, ghost moved: set<Handle<K, V>>)
      returns (ghost nc': seq<seq<Handle<K, V>>>)
      requires Heads(newBuckets, nc, moved) && Spread(nc, log2NumBuckets + 1, moved) && bkt < |nc| && thh !in moved
      requires bucket.hhHead == newBuckets[bkt].hhHead
      requires Spread(nc[bkt := [thh] + nc[bkt]], log2NumBuckets + 1, moved + {thh})
      requires Counters(newBuckets[..][bkt := bucket.(hhHead := thh)], nc[bkt := [thh] + nc[bkt]], idealChainMaxlen,
                        nonidealItems)
      modifies newBuckets, moved`hhPrev, thh`hhPrev, thh`hhNext
      ensures Moving(newBuckets, nc', moved + {thh})
    {
      nc' := nc[bkt := [thh] + nc[bkt]];
      LinkFront(newBuckets, bkt, bucket, thh, nc, log2NumBuckets + 1, moved);
    }

    /** Counts an item into its new bucket. */
    method CountIn(old0: Bucket<K, V>, bkt: nat, h: Handle<K, V>, ghost bs: seq<Bucket<K, V>>,
                   ghost nc: seq<seq<Handle<K, V>>>)
      returns (bucket: Bucket<K, V>)
      requires Counters(bs, nc, idealChainMaxlen, nonidealItems) && bkt < |nc| && old0 == bs[bkt]
      modifies this`nonidealItems
      ensures bucket.hhHead == old0.hhHead
      ensures Counters(bs[bkt := bucket.(hhHead := h)], nc[bkt := [h] + nc[bkt]], idealChainMaxlen, nonidealItems)
    {
      ghost var before := nonidealItems;
      bucket := old0.(count := old0.count + 1);
      if bucket.count > idealChainMaxlen {
        nonidealItems := nonidealItems + 1;
        if bucket.count > bucket.expandMult * idealChainMaxlen {
          bucket := bucket.(expandMult := bucket.expandMult + 1);
        }
      }
      CountersStep(bs, nc, bkt, h, bucket, idealChainMaxlen, before);
    }

    /** Moves the items of one old chain. */
    method MoveChain(newBuckets: array<Bucket<K, V>>, first: Handle?<K, V>, ghost chain: seq<Handle<K, V>>,
                     ghost nc: seq<seq<Handle<K, V>>>, ghost moved: set<Handle<K, V>>)
      returns (ghost nc': seq<seq<Handle<K, V>>>)
      requires Moving(newBuckets, nc, moved) && Linked(chain) && NoDup(chain) && first == First(chain)
      requires forall h :: h in chain ==> h !in moved
      modifies this`nonidealItems, newBuckets, moved`hhPrev, chain`hhPrev, chain`hhNext
      ensures Moving(newBuckets, nc', moved + ToSet(chain))
    {
      nc' := nc;
      var thh := first;
      ghost var k := 0;
      assert moved + ToSet(chain[..0]) == moved;
      while thh != null
        invariant 0 <= k <= |chain| && thh == (if k < |chain| then chain[k] else null)
        invariant Moving(newBuckets, nc', moved + ToSet(chain[..k])) && LinkedFrom(chain, k)
        decreases |chain| - k
      {
        nc', thh := MoveNext(newBuckets, thh, nc', moved, chain, k);
        k := k + 1;
      }
      assert chain[..k] == chain;
    }

    /** Moves the item at place k of its old chain and steps to the next one. */
    method MoveNext(newBuckets: array<Bucket<K, V>>, thh: Handle<K, V>, ghost nc: seq<seq<Handle<K, V>>>,
                    ghost moved: set<Handle<K, V>>, ghost chain: seq<Handle<K, V>>, ghost k: nat)
      returns (ghost nc': seq<seq<Handle<K, V>>>, nxt: Handle?<K, V>)
      requires NoDup(chain) && k < |chain| && thh == chain[k] && LinkedFrom(chain, k)
      requires Moving(newBuckets, nc, moved + ToSet(chain[..k])) && forall h :: h in chain ==> h !in moved
      modifies this`nonidealItems, newBuckets, (moved + ToSet(chain[..k]))`hhPrev, thh`hhPrev, thh`hhNext
      ensures Moving(newBuckets, nc', moved + ToSet(chain[..k + 1])) && LinkedFrom(chain, k + 1)
      ensures nxt == if k + 1 < |chain| then chain[k + 1] else null
    {
      ghost var done := moved + ToSet(chain[..k]);
      assert chain[..k + 1] == chain[..k] + [thh];
      assert done + {thh} == moved + ToSet(chain[..k + 1]);
      nxt := thh.hhNext;
      nc' := MoveOne(newBuckets, thh, nc, done);
    }

    /** HASH_EXPAND_BUCKETS: doubles the buckets and redistributes the items. */
    method ExpandBuckets()
      requires Valid() && head != null && !noexpand
      modifies this`buckets, this`numBuckets, this`log2NumBuckets, this`idealChainMaxlen, this`nonidealItems,
               this`ineffExpands, this`noexpand, this`chains, items`hhPrev, items`hhNext
      ensures Valid() && fresh(buckets)
      ensures numBuckets == 2 * old(numBuckets) && Balanced(old(ineffExpands))
      ensures numItems <= idealChainMaxlen * numBuckets
      ensures forall c: nat :: numItems <= c * numBuckets ==> idealChainMaxlen <= c
      ensures ineffExpands == if nonidealItems > numItems / 2 then old(ineffExpands) + 1 else 0
      ensures noexpand <==> ineffExpands >= 2
    {
      Redistribute();
      IdealLengthIsCeiling(numItems, log2NumBuckets);
    }

    method Redistribute()
      requires Bucketed() && !noexpand
      modifies this`buckets, this`numBuckets, this`log2NumBuckets, this`idealChainMaxlen, this`nonidealItems,
               this`ineffExpands, this`noexpand, this`chains, items`hhPrev, items`hhNext
      ensures Bucketed() && fresh(buckets)
      ensures numBuckets == 2 * old(numBuckets) && Balanced(old(ineffExpands))
    {
      var newBuckets;
      ghost var nc;
      newBuckets, nc := NewBuckets();
      nc := MoveChains(newBuckets, nc);
      Install(newBuckets, nc);
    }

    method Install(newBuckets: array<Bucket<K, V>>, ghost nc: seq<seq<Handle<K, V>>>)
      requires numBuckets == Pow2(log2NumBuckets) && Moving(newBuckets, nc, ToSet(items)) && !noexpand
      requires idealChainMaxlen == IdealLength(numItems, log2NumBuckets + 1)
      modifies `buckets, `numBuckets, `log2NumBuckets, `ineffExpands, `noexpand, `chains
      ensures Bucketed() && buckets == newBuckets
      ensures numBuckets == 2 * old(numBuckets) && Balanced(old(ineffExpands))
    {
      numBuckets := numBuckets * 2;
      log2NumBuckets := log2NumBuckets + 1;
      buckets := newBuckets;
      chains := nc;
      Judge();
    }

    /** Whether the doubling was effective, and whether to double at all from now on. */
    method Judge()
      requires !noexpand && idealChainMaxlen == IdealLength(numItems, log2NumBuckets)
      requires Counters(buckets[..], chains, idealChainMaxlen, nonidealItems)
      modifies `ineffExpands, `noexpand
      ensures Balanced(old(ineffExpands))
    {
      ineffExpands := if nonidealItems > numItems / 2 then ineffExpands + 1 else 0;
      if ineffExpands > 1 {
        noexpand := true;
      }
    }

    /** Allocates the new buckets. */
    method NewBuckets() returns (newBuckets: array<Bucket<K, V>>, ghost nc: seq<seq<Handle<K, V>>>)
      requires numBuckets == Pow2(log2NumBuckets)
      modifies this`idealChainMaxlen, this`nonidealItems
      ensures fresh(newBuckets) && Moving(newBuckets, nc, {})
      ensures idealChainMaxlen == IdealLength(numItems, log2NumBuckets + 1)
    {
      newBuckets := new Bucket<K, V>[2 * numBuckets](_ => Bucket(null, 0, 0));
      idealChainMaxlen := Shr(numItems, log2NumBuckets + 1) + if ToBkt(numItems, log2NumBuckets + 1) != 0 then 1 else 0;
      nonidealItems := 0;
      nc := seq(2 * numBuckets, _ => []);
      assert forall b :: 0 <= b < 2 * numBuckets ==> nc[b] == [];
      EmptyHeads(newBuckets, nc, log2NumBuckets + 1);
      ExcessEmpty(nc, idealChainMaxlen);
      MultsEmpty(newBuckets[..], nc, idealChainMaxlen);
    }

    method MoveChains(newBuckets: array<Bucket<K, V>>, ghost empty: seq<seq<Handle<K, V>>>)
      returns (ghost nc: seq<seq<Handle<K, V>>>)
      requires Bucketed() && newBuckets != buckets && Moving(newBuckets, empty, {})
      modifies this`nonidealItems, newBuckets, items`hhPrev, items`hhNext
      ensures Moving(newBuckets, nc, ToSet(items))
    {
      nc := empty;
      ghost var moved: set<Handle<K, V>> := {};
      for i := 0 to numBuckets
        invariant Moving(newBuckets, nc, moved)
        invariant moved == Before(items, log2NumBuckets, i)
        invariant forall b :: i <= b < numBuckets ==> Linked(chains[b])
      {
        ChainApart(chains, log2NumBuckets, items, i);
        assert Linked(chains[i]) && NoDup(chains[i]);
        nc := MoveChain(newBuckets, buckets[i].hhHead, chains[i], nc, moved);
        moved := moved + ToSet(chains[i]);
      }
      assert moved == ToSet(items);
    }
  }

  ghost function Before<K, V>(items: seq<Handle<K, V>>, lg: nat, i: nat): set<Handle<K, V>>
  {
    set h | h in items && ToBkt(h.hashv, lg) < i
  }

  /** The chain of a bucket holds none of the items of other buckets. */
  lemma ChainApart<K, V>(cs: seq<seq<Handle<K, V>>>, lg: nat, items: seq<Handle<K, V>>, i: nat)
    requires Spread(cs, lg, ToSet(items)) && i < |cs|
    ensures forall h :: h in cs[i] ==> h !in Before(items, lg, i)
    ensures Before(items, lg, i + 1) == Before(items, lg, i) + ToSet(cs[i])
    ensures forall b, h :: i < b < |cs| && h in cs[b] ==> h !in cs[i] && h !in Before(items, lg, i)
  {
    forall h ensures h in Before(items, lg, i + 1) <==> h in Before(items, lg, i) || h in ToSet(cs[i]) {
      if h in items && ToBkt(h.hashv, lg) == i { assert InBucket(cs, lg, h); assert h in cs[i]; }
    }
  }

  function Total<K, V>(bs: seq<Bucket<K, V>>): nat {
    if bs == [] then 0 else Total(bs[..|bs| - 1]) + bs[|bs| - 1].count
  }

  lemma {:induction false} CountsTo<K, V>(bs: seq<Bucket<K, V>>, cs: seq<seq<Handle<K, V>>>, lg: nat,
                                          items: seq<Handle<K, V>>, i: nat)
    requires Spread(cs, lg, ToSet(items)) && Counts(bs, cs) && i <= |bs|
    ensures Total(bs[..i]) == |Before(items, lg, i)|
  {
    if i > 0 {
      CountsTo(bs, cs, lg, items, i - 1);
      ChainApart(cs, lg, items, i - 1);
      assert bs[..i][..i - 1] == bs[..i - 1];
      assert NoDup(cs[i - 1]);
      NoDupSize(cs[i - 1]);
      assert Before(items, lg, i - 1) !! ToSet(cs[i - 1]);
    } else {
      assert Before(items, lg, 0) == {};
    }
  }

  /** The counts of all buckets add up to the number of items. */
  lemma CountsAddUp<K, V>(bs: seq<Bucket<K, V>>, cs: seq<seq<Handle<K, V>>>, lg: nat, items: seq<Handle<K, V>>)
    requires Spread(cs, lg, ToSet(items)) && Counts(bs, cs) && NoDup(items)
    ensures Total(bs) == |items|
  {
    CountsTo(bs, cs, lg, items, |bs|);
    assert bs[..|bs|] == bs;
    assert Before(items, lg, |bs|) == ToSet(items);
    NoDupSize(items);
  }
}
