/** HASH_SRT on the links: a merge sort that rewrites next and prev in place. */
module LinkSort {
  import opened Sequences
  import opened UtHandles
  import opened MergeSort

  /** The comparison of the elements that the handles are embedded in. */
  function ByElement<K, V>(cmp: Comparison<V>): Comparison<Handle<K, V>> {
    (x: Handle<K, V>, y: Handle<K, V>) => cmp(x.elt, y.elt)
  }

  function At<K, V>(s: seq<Handle<K, V>>, i: nat): Handle?<K, V> { if i < |s| then s[i] else null }

  /** The next pointers from lo up to hi are still those of the list s. */
  ghost predicate Intact<K, V>(s: seq<Handle<K, V>>, lo: nat, hi: nat)
    requires hi <= |s|
    reads s`next
  {
    forall i {:trigger s[i].next} :: lo <= i < hi ==> s[i].next == At(s, i + 1)
  }

  /** The output list so far; the next pointer of its last handle is not yet set. */
  ghost predicate Built<K, V>(out: seq<Handle<K, V>>, list: Handle?<K, V>, tail: Handle?<K, V>)
    reads out`next, out`prev
  {
    && list == First(out) && tail == (if out == [] then null else out[|out| - 1])
    && (forall i {:trigger out[i].prev} :: 0 <= i < |out| ==> out[i].prev == if i == 0 then null else out[i - 1])
    && (forall i {:trigger out[i].next} :: 0 <= i < |out| - 1 ==> out[i].next == out[i + 1])
  }

  /** The output holds none of the handles still to be taken: those from a to mid and from b on. */
  ghost predicate Apart<K, V>(s: seq<Handle<K, V>>, out: seq<Handle<K, V>>, a: nat, mid: nat, b: nat)
    requires mid <= |s|
  {
    (forall i :: a <= i < mid ==> s[i] !in out) && (forall i :: b <= i < |s| ==> s[i] !in out)
  }

  ghost function Only<K, V>(h: Handle?<K, V>): set<Handle<K, V>> { if h == null then {} else {h} }

  ghost predicate Among<K, V>(out: seq<Handle<K, V>>, s: seq<Handle<K, V>>) {
    forall i {:trigger out[i]} :: 0 <= i < |out| ==> out[i] in s
  }

  lemma Regroup<T>(x: seq<T>, e: T, y: seq<T>, due: seq<T>, goal: seq<T>)
    requires due == [e] + y && x + due == goal
    ensures (x + [e]) + y == goal
  {
    assert (x + [e]) + y == x + ([e] + y);
  }

  /** Appends e to the output list. */
  method Emit<K, V>(e: Handle<K, V>, list: Handle?<K, V>, tail: Handle?<K, V>, ghost out: seq<Handle<K, V>>)
    returns (list': Handle?<K, V>)
    requires Built(out, list, tail) && NoDup(out) && e !in out
    modifies e`prev, Only(tail)`next
    ensures Built(out + [e], list', e)
  {
    list' := list;
    if tail != null {
      tail.next := e;
    } else {
      list' := e;
    }
    e.prev := tail;
  }

  /** Steps over the first run: q is the start of the second, psize the length of the first. */
  method SplitRun<K, V>(p: Handle<K, V>, insize: nat, ghost s: seq<Handle<K, V>>, ghost pos: nat)
    returns (q: Handle?<K, V>, psize: nat)
    requires insize > 0 && pos < |s| && p == s[pos] && Intact(s, pos, |s|)
    ensures psize == Min(insize, |s| - pos) && q == At(s, pos + psize)
  {
    q, psize := p, 0;
    var i := 0;
    while i < insize
      invariant 0 <= i <= insize && psize == i && pos + i <= |s| && q == At(s, pos + i) && q != null
      decreases insize - i
    {
      psize := psize + 1;
      q := q.next;
      if q == null { break; }
      i := i + 1;
    }
  }

  /** What a merge under way still has to deliver. */
  ghost function Due<K, V>(cmp: Comparison<V>, s: seq<Handle<K, V>>, a: nat, mid: nat, b: nat, hi: nat)
    : seq<Handle<K, V>>
    requires a <= mid <= b <= hi <= |s|
  {
    Merge(ByElement<K, V>(cmp), s[a..mid], s[b..hi])
  }

  /** Taking the head of the first run, or of the second. */
  lemma DueStep<K, V>(cmp: Comparison<V>, s: seq<Handle<K, V>>, a: nat, mid: nat, b: nat, hi: nat)
    requires a <= mid <= b <= hi <= |s|
    ensures a == mid && b < hi ==> Due(cmp, s, a, mid, b, hi) == [s[b]] + Due(cmp, s, a, mid, b + 1, hi)
    ensures a < mid && (b == hi || cmp(s[a].elt, s[b].elt) <= 0) ==>
              Due(cmp, s, a, mid, b, hi) == [s[a]] + Due(cmp, s, a + 1, mid, b, hi)
    ensures a < mid && b < hi && cmp(s[a].elt, s[b].elt) > 0 ==>
              Due(cmp, s, a, mid, b, hi) == [s[b]] + Due(cmp, s, a, mid, b + 1, hi)
    ensures a == mid && b == hi ==> Due(cmp, s, a, mid, b, hi) == []
  {
    var xs, ys := s[a..mid], s[b..hi];
    if a < mid { assert xs == [s[a]] + s[a + 1..mid] && xs[1..] == s[a + 1..mid]; }
    if b < hi { assert ys == [s[b]] + s[b + 1..hi] && ys[1..] == s[b + 1..hi]; }
  }

  /** The cursors of a merge under way. */
  ghost predicate Cursors<K, V>(s: seq<Handle<K, V>>, p: Handle?<K, V>, q: Handle?<K, V>, psize: nat, qsize: nat,
                                insize: nat, a: nat, mid: nat, b: nat, hi: nat)
    reads s`next
  {
    && a <= mid <= b <= hi <= |s| && hi == Min(mid + insize, |s|)
    && psize == mid - a && qsize == insize - (b - mid) && p == At(s, a) && q == At(s, b)
    && Intact(s, a, mid) && Intact(s, b, |s|)
  }

  /** Chooses the next handle and moves past it. */
  method Pick<K, V>(cmp: Comparison<V>, p: Handle?<K, V>, q: Handle?<K, V>, psize: nat, qsize: nat, ghost insize: nat,
                    ghost s: seq<Handle<K, V>>, ghost a: nat, ghost mid: nat, ghost b: nat, ghost hi: nat)
    returns (e: Handle<K, V>, p': Handle?<K, V>, q': Handle?<K, V>, psize': nat, qsize': nat, ghost a': nat,
             ghost b': nat)
    requires Cursors(s, p, q, psize, qsize, insize, a, mid, b, hi)
    requires psize != 0 || (qsize != 0 && q != null)
    ensures Cursors(s, p', q', psize', qsize', insize, a', mid, b', hi)
    ensures (a' == a + 1 && b' == b && a < mid && e == s[a]) || (a' == a && b' == b + 1 && b < hi && e == s[b])
    ensures Due(cmp, s, a, mid, b, hi) == [e] + Due(cmp, s, a', mid, b', hi)
  {
    DueStep(cmp, s, a, mid, b, hi);
    p', q', psize', qsize', a', b' := p, q, psize, qsize, a, b;
    if psize == 0 {
      e := q;
      q' := q.next;
      qsize' := qsize - 1;
      b' := b + 1;
    } else if qsize == 0 || q == null {
      e := p;
      p' := p.next;
      psize' := psize - 1;
      a' := a + 1;
    } else if cmp(p.elt, q.elt) <= 0 {
      e := p;
      p' := p.next;
      psize' := psize - 1;
      a' := a + 1;
    } else {
      e := q;
      q' := q.next;
      qsize' := qsize - 1;
      b' := b + 1;
    }
  }

  /** A merge under way: the cursors, and the output so far. */
  ghost predicate UnderWay<K, V>(s: seq<Handle<K, V>>, p: Handle?<K, V>, q: Handle?<K, V>, psize: nat, qsize: nat,
                                 insize: nat, a: nat, mid: nat, b: nat, hi: nat,
                                 list: Handle?<K, V>, tail: Handle?<K, V>, out: seq<Handle<K, V>>)
    reads s`next, out`next, out`prev
  {
    && Cursors(s, p, q, psize, qsize, insize, a, mid, b, hi)
    && Built(out, list, tail) && NoDup(out) && Among(out, s) && Apart(s, out, a, mid, b)
  }

  /** Moves the chosen handle to the output list. */
  method MergeStep<K, V>(cmp: Comparison<V>, p: Handle?<K, V>, q: Handle?<K, V>, psize: nat, qsize: nat,
                         ghost insize: nat,
                         ghost s: seq<Handle<K, V>>, ghost a: nat, ghost mid: nat, ghost b: nat, ghost hi: nat,
                         list: Handle?<K, V>, tail: Handle?<K, V>, ghost out: seq<Handle<K, V>>)
    returns (e: Handle<K, V>, p': Handle?<K, V>, q': Handle?<K, V>, psize': nat, qsize': nat, list': Handle?<K, V>,
             ghost a': nat, ghost b': nat)
    requires NoDup(s) && UnderWay(s, p, q, psize, qsize, insize, a, mid, b, hi, list, tail, out)
    requires psize != 0 || (qsize != 0 && q != null)
    modifies s`prev, s`next
    ensures UnderWay(s, p', q', psize', qsize', insize, a', mid, b', hi, list', e, out + [e])
    ensures a' + b' == a + b + 1
    ensures Due(cmp, s, a, mid, b, hi) == [e] + Due(cmp, s, a', mid, b', hi)
  {
    e, p', q', psize', qsize', a', b' := Pick(cmp, p, q, psize, qsize, insize, s, a, mid, b, hi);
    list' := Emit(e, list, tail, out);
  }

  /** Merges the run from p with the run from q and appends the result to the output list. */
  method MergeRuns<K, V>(cmp: Comparison<V>, p0: Handle<K, V>, q0: Handle?<K, V>, psize0: nat, insize: nat,
                         list0: Handle?<K, V>, tail0: Handle?<K, V>,
                         ghost s: seq<Handle<K, V>>, ghost pos: nat, ghost mid: nat, ghost hi: nat,
                         ghost out0: seq<Handle<K, V>>)
    returns (q: Handle?<K, V>, list: Handle?<K, V>, tail: Handle?<K, V>, ghost out: seq<Handle<K, V>>)
    requires NoDup(s) && UnderWay(s, p0, q0, psize0, insize, insize, pos, mid, mid, hi, list0, tail0, out0)
    modifies s`prev, s`next
    ensures q == At(s, hi) && Intact(s, hi, |s|)
    ensures out == out0 + Due(cmp, s, pos, mid, mid, hi)
    ensures Built(out, list, tail) && NoDup(out) && Among(out, s) && Apart(s, out, hi, |s|, |s|)
  {
    var p: Handle?<K, V>, psize, qsize := p0, psize0, insize;
    q, list, tail, out := q0, list0, tail0, out0;
    ghost var a: nat, b: nat := pos, mid;
    ghost var goal := out0 + Due(cmp, s, pos, mid, mid, hi);
    while psize != 0 || (qsize != 0 && q != null)
      invariant UnderWay(s, p, q, psize, qsize, insize, a, mid, b, hi, list, tail, out)
      invariant out + Due(cmp, s, a, mid, b, hi) == goal
      decreases mid + hi - a - b
    {
      ghost var due := Due(cmp, s, a, mid, b, hi);
      var e;
      e, p, q, psize, qsize, list, a, b :=
        MergeStep(cmp, p, q, psize, qsize, insize, s, a, mid, b, hi, list, tail, out);
      Regroup(out, e, Due(cmp, s, a, mid, b, hi), due, goal);
      out := out + [e];
      tail := e;
    }
    DueStep(cmp, s, a, mid, b, hi);
    assert out + [] == out;
  }

  /** How many merges have brought the pass to pos. */
  predicate Merged(nmerges: nat, pos: nat, n: nat, insize: nat) {
    && (nmerges == 0 ==> pos == 0)
    && (nmerges == 1 ==> pos == Min(2 * insize, n))
    && (nmerges > 1 ==> n > 2 * insize)
  }

  /** Between two merges of a pass. */
  ghost predicate Between<K, V>(s: seq<Handle<K, V>>, p: Handle?<K, V>, pos: nat,
                                list: Handle?<K, V>, tail: Handle?<K, V>, out: seq<Handle<K, V>>)
    reads s`next, out`next, out`prev
  {
    && pos <= |s| && p == At(s, pos) && Intact(s, pos, |s|)
    && Built(out, list, tail) && NoDup(out) && Among(out, s) && Apart(s, out, pos, |s|, |s|)
  }

  /** Takes the next two runs and appends them, merged, to the output list. */
  method NextRuns<K, V>(cmp: Comparison<V>, p0: Handle<K, V>, insize: nat, list0: Handle?<K, V>, tail0: Handle?<K, V>,
                        ghost s: seq<Handle<K, V>>, ghost pos0: nat, ghost out0: seq<Handle<K, V>>)
    returns (p: Handle?<K, V>, list: Handle?<K, V>, tail: Handle?<K, V>, ghost out: seq<Handle<K, V>>,
             ghost mid: nat, ghost pos: nat)
    requires NoDup(s) && Between(s, p0, pos0, list0, tail0, out0) && insize > 0
    modifies s`prev, s`next
    ensures Between(s, p, pos, list, tail, out) && pos0 < |s|
    ensures mid == Min(pos0 + insize, |s|) && pos == Min(mid + insize, |s|)
    ensures out == out0 + Due(cmp, s, pos0, mid, mid, pos)
  {
    var q, psize := SplitRun(p0, insize, s, pos0);
    mid := pos0 + psize;
    pos := Min(mid + insize, |s|);
    p, list, tail, out := MergeRuns(cmp, p0, q, psize, insize, list0, tail0, s, pos0, mid, pos, out0);
  }

  /** Ends the output list after its last handle. */
  method Terminate<K, V>(list: Handle?<K, V>, tail: Handle?<K, V>, ghost out: seq<Handle<K, V>>,
                         ghost s: seq<Handle<K, V>>)
    requires Built(out, list, tail) && NoDup(out) && Among(out, s)
    modifies s`next
    ensures AppLinked(out)
  {
    if tail != null {
      tail.next := null;
    }
  }

  /** A pass under way, after nmerges merges. */
  ghost predicate Passing<K, V>(cmp: Comparison<V>, s: seq<Handle<K, V>>, insize: nat, p: Handle?<K, V>, pos: nat,
                                nmerges: nat, list: Handle?<K, V>, tail: Handle?<K, V>, out: seq<Handle<K, V>>)
    reads s`next, out`next, out`prev
  {
    && insize > 0 && Between(s, p, pos, list, tail, out) && Merged(nmerges, pos, |s|, insize)
    && PassFrom(ByElement<K, V>(cmp), s, pos, insize, out, Pass(ByElement<K, V>(cmp), s, insize))
  }

  lemma PassStarts<K, V>(cmp: Comparison<V>, s: seq<Handle<K, V>>, insize: nat)
    requires insize > 0 && Intact(s, 0, |s|)
    ensures Passing(cmp, s, insize, First(s), 0, 0, null, null, [])
  {
    PassWhole(ByElement<K, V>(cmp), s, insize);
  }

  lemma PassEnds<K, V>(cmp: Comparison<V>, s: seq<Handle<K, V>>, insize: nat, pos: nat, nmerges: nat,
                       list: Handle?<K, V>, tail: Handle?<K, V>, out: seq<Handle<K, V>>)
    requires Passing(cmp, s, insize, null, pos, nmerges, list, tail, out)
    ensures out == Pass(ByElement<K, V>(cmp), s, insize) && (nmerges <= 1 <==> |s| <= 2 * insize)
  {
    PassWhole(ByElement<K, V>(cmp), s, insize);
  }

  /** Appending the next two runs, merged, brings the pass forward. */
  lemma PassStep<K, V>(cmp: Comparison<V>, s: seq<Handle<K, V>>, insize: nat, pos: nat, mid: nat, hi: nat,
                       nmerges: nat, out: seq<Handle<K, V>>, goal: seq<Handle<K, V>>)
    requires pos < |s| && insize > 0 && mid == Min(pos + insize, |s|) && hi == Min(mid + insize, |s|)
    requires PassFrom(ByElement<K, V>(cmp), s, pos, insize, out, goal) && Merged(nmerges, pos, |s|, insize)
    ensures PassFrom(ByElement<K, V>(cmp), s, hi, insize, out + Due(cmp, s, pos, mid, mid, hi), goal)
    ensures Merged(nmerges + 1, hi, |s|, insize)
  {
    PassForward(ByElement<K, V>(cmp), s, pos, insize, mid, hi, out, goal);
  }

  /** Takes the pass one merge further. */
  method Advance<K, V>(cmp: Comparison<V>, p0: Handle<K, V>, insize: nat, list0: Handle?<K, V>, tail0: Handle?<K, V>,
                       ghost s: seq<Handle<K, V>>, ghost pos0: nat, ghost nmerges: nat, ghost out0: seq<Handle<K, V>>)
    returns (p: Handle?<K, V>, list: Handle?<K, V>, tail: Handle?<K, V>, ghost out: seq<Handle<K, V>>, ghost pos: nat)
    requires NoDup(s) && Passing(cmp, s, insize, p0, pos0, nmerges, list0, tail0, out0)
    modifies s`prev, s`next
    ensures Passing(cmp, s, insize, p, pos, nmerges + 1, list, tail, out) && pos0 < pos <= |s|
  {
    ghost var mid;
    p, list, tail, out, mid, pos := NextRuns(cmp, p0, insize, list0, tail0, s, pos0, out0);
    PassStep(cmp, s, insize, pos0, mid, pos, nmerges, out0, Pass(ByElement<K, V>(cmp), s, insize));
  }

  /** The loop of a pass. */
  method AllRuns<K, V>(cmp: Comparison<V>, p0: Handle?<K, V>, insize: nat, ghost s: seq<Handle<K, V>>)
    returns (list: Handle?<K, V>, tail: Handle?<K, V>, nmerges: nat, ghost out: seq<Handle<K, V>>, ghost pos: nat)
    requires NoDup(s) && Passing(cmp, s, insize, p0, 0, 0, null, null, [])
    modifies s`prev, s`next
    ensures Passing(cmp, s, insize, null, pos, nmerges, list, tail, out)
  {
    var p := p0;
    list, tail, nmerges, out, pos := null, null, 0, [], 0;
    while p != null
      invariant Passing(cmp, s, insize, p, pos, nmerges, list, tail, out)
      decreases |s| - pos
    {
      p, list, tail, out, pos := Advance(cmp, p, insize, list, tail, s, pos, nmerges, out);
      nmerges := nmerges + 1;
    }
  }

  /** One pass over the list that starts at p0. */
  method OnePass<K, V>(cmp: Comparison<V>, p0: Handle?<K, V>, insize: nat, ghost s: seq<Handle<K, V>>)
    returns (list: Handle?<K, V>, tail: Handle?<K, V>, nmerges: nat, ghost out: seq<Handle<K, V>>)
    requires NoDup(s) && p0 == First(s) && Intact(s, 0, |s|) && insize > 0
    modifies s`prev, s`next
    ensures out == Pass(ByElement<K, V>(cmp), s, insize) && NoDup(out) && Among(out, s)
    ensures AppLinked(out) && list == First(out) && tail == (if out == [] then null else out[|out| - 1])
    ensures nmerges <= 1 <==> |s| <= 2 * insize
  {
    ghost var pos;
    PassStarts(cmp, s, insize);
    list, tail, nmerges, out, pos := AllRuns(cmp, p0, insize, s);
    FinishPass(cmp, insize, list, tail, s, pos, nmerges, out);
  }

  method FinishPass<K, V>(cmp: Comparison<V>, insize: nat, list: Handle?<K, V>, tail: Handle?<K, V>,
                          ghost s: seq<Handle<K, V>>, ghost pos: nat, ghost nmerges: nat, ghost out: seq<Handle<K, V>>)
    requires Passing(cmp, s, insize, null, pos, nmerges, list, tail, out)
    modifies s`next
    ensures out == Pass(ByElement<K, V>(cmp), s, insize) && NoDup(out) && Among(out, s)
    ensures AppLinked(out) && list == First(out) && tail == (if out == [] then null else out[|out| - 1])
    ensures nmerges <= 1 <==> |s| <= 2 * insize
  {
    PassEnds(cmp, s, insize, pos, nmerges, list, tail, out);
    Terminate(list, tail, out, s);
  }

  /** The passes from here on lead to goal; once there are no more, s is goal. */
  ghost predicate Leads<K, V>(cmp: Comparison<V>, s: seq<Handle<K, V>>, insize: nat, goal: seq<Handle<K, V>>,
                              looping: bool) {
    insize > 0 && goal == if looping then Passes(ByElement<K, V>(cmp), s, insize) else s
  }

  lemma LeadsOn<K, V>(cmp: Comparison<V>, s: seq<Handle<K, V>>, insize: nat, goal: seq<Handle<K, V>>, looping: bool)
    requires Leads(cmp, s, insize, goal, true) && (looping <==> |s| > 2 * insize)
    ensures Leads(cmp, Pass(ByElement<K, V>(cmp), s, insize), 2 * insize, goal, looping)
  {}

  /** Sorts the list that starts at head; the caller stores the new first and last handles. */
  method SortLinks<K, V>(cmp: Comparison<V>, head: Handle<K, V>, ghost items: seq<Handle<K, V>>)
    returns (list: Handle?<K, V>, last: Handle?<K, V>)
    requires NoDup(items) && AppLinked(items) && head == First(items)
    modifies items`prev, items`next
    ensures var r := Passes(ByElement<K, V>(cmp), items, 1);
            AppLinked(r) && |r| > 0 && list == First(r) && last == r[|r| - 1]
  {
    var insize, looping := 1, true;
    list, last := head, null;
    ghost var s := items;
    ghost var goal := Passes(ByElement<K, V>(cmp), items, 1);
    while looping
      invariant insize > 0 && NoDup(s) && Among(s, items) && AppLinked(s) && list == First(s) && |s| == |items|
      invariant Leads(cmp, s, insize, goal, looping)
      invariant !looping ==> last == s[|s| - 1]
      decreases looping, |items| - insize
    {
      ghost var was := s;
      var nmerges;
      list, last, nmerges, s := OnePass(cmp, list, insize, s);
      if nmerges <= 1 {
        looping := false;
      }
      LeadsOn(cmp, was, insize, goal, looping);
      insize := insize * 2;
    }
  }
}
