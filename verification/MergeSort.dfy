/** The bottom-up merge sort of the application-order list, first on sequences. */
module MergeSort {
  import opened Sequences

  type Comparison<!T> = (T, T) -> int

  predicate AtMost<T>(cmp: Comparison<T>, x: T, y: T) { cmp(x, y) <= 0 }

  /** The comparison orders the elements of dom, with ties. */
  ghost predicate TotalPreorder<T>(cmp: Comparison<T>, dom: set<T>) {
    && (forall x, y :: x in dom && y in dom ==> AtMost(cmp, x, y) || AtMost(cmp, y, x))
    && (forall x, y, z :: x in dom && y in dom && z in dom && AtMost(cmp, x, y) && AtMost(cmp, y, z) ==>
        AtMost(cmp, x, z))
  }

  ghost predicate Within<T>(s: seq<T>, dom: set<T>) {
    forall i :: 0 <= i < |s| ==> s[i] in dom
  }

  /** Ties go to the left list. */
  function Merge<T>(cmp: Comparison<T>, xs: seq<T>, ys: seq<T>): (r: seq<T>)
    ensures |r| == |xs| + |ys|
  {
    if xs == [] then ys
    else if ys == [] then xs
    else if cmp(xs[0], ys[0]) <= 0 then [xs[0]] + Merge(cmp, xs[1..], ys)
    else [ys[0]] + Merge(cmp, xs, ys[1..])
  }

  function Min(a: nat, b: nat): nat { if a <= b then a else b }

  /** One pass: merges neighbouring runs of the given size. */
  function Pass<T>(cmp: Comparison<T>, s: seq<T>, size: nat): (r: seq<T>)
    requires size > 0
    ensures |r| == |s|
  {
    if s == [] then []
    else
      var mid := Min(size, |s|);
      var hi := Min(2 * size, |s|);
      Merge(cmp, s[..mid], s[mid..hi]) + Pass(cmp, s[hi..], size)
  }

  /** Passes with doubling run sizes until one of them needed no more than one merge. */
  function Passes<T>(cmp: Comparison<T>, s: seq<T>, size: nat): seq<T>
    requires size > 0
    decreases if |s| > size then |s| - size else 0
  {
    if |s| <= 2 * size then Pass(cmp, s, size) else Passes(cmp, Pass(cmp, s, size), 2 * size)
  }

  /** A pass that has come to pos, with out as its output so far. */
  ghost predicate PassFrom<T>(cmp: Comparison<T>, s: seq<T>, pos: nat, size: nat, out: seq<T>, goal: seq<T>)
    requires size > 0 && pos <= |s|
  {
    out + Pass(cmp, s[pos..], size) == goal
  }

  lemma PassForward<T>(cmp: Comparison<T>, s: seq<T>, pos: nat, size: nat, mid: nat, hi: nat, out: seq<T>, goal: seq<T>)
    requires pos < |s| && size > 0 && mid == Min(pos + size, |s|) && hi == Min(mid + size, |s|)
    requires PassFrom(cmp, s, pos, size, out, goal)
    ensures PassFrom(cmp, s, hi, size, out + Merge(cmp, s[pos..mid], s[mid..hi]), goal)
  {
    PassNext(cmp, s, pos, size, mid, hi);
    Associate(out, Merge(cmp, s[pos..mid], s[mid..hi]), Pass(cmp, s[hi..], size));
  }

  lemma PassNext<T>(cmp: Comparison<T>, s: seq<T>, pos: nat, size: nat, mid: nat, hi: nat)
    requires pos < |s| && size > 0 && mid == Min(pos + size, |s|) && hi == Min(mid + size, |s|)
    ensures Pass(cmp, s[pos..], size) == Merge(cmp, s[pos..mid], s[mid..hi]) + Pass(cmp, s[hi..], size)
  {
    var t := s[pos..];
    var xs, ys, rest := t[..mid - pos], t[mid - pos..hi - pos], t[hi - pos..];
    PassFirst(cmp, t, size, xs, ys, rest);
    Slices(s, pos, mid, hi);
  }

  lemma PassFirst<T>(cmp: Comparison<T>, s: seq<T>, size: nat, xs: seq<T>, ys: seq<T>, rest: seq<T>)
    requires size > 0 && s != [] && s == xs + ys + rest && |xs| == Min(size, |s|) && |xs + ys| == Min(2 * size, |s|)
    ensures Pass(cmp, s, size) == Merge(cmp, xs, ys) + Pass(cmp, rest, size)
  {
    var mid, hi := |xs|, |xs + ys|;
    assert s[..mid] == xs && s[mid..hi] == ys && s[hi..] == rest;
  }

  lemma Slices<T>(s: seq<T>, pos: nat, mid: nat, hi: nat)
    requires pos <= mid <= hi <= |s|
    ensures s[pos..][..mid - pos] == s[pos..mid] && s[pos..][mid - pos..hi - pos] == s[mid..hi]
    ensures s[pos..][hi - pos..] == s[hi..]
  {}

  lemma PassWhole<T>(cmp: Comparison<T>, s: seq<T>, size: nat)
    requires size > 0
    ensures PassFrom(cmp, s, 0, size, [], Pass(cmp, s, size))
    ensures forall out, goal {:trigger PassFrom(cmp, s, |s|, size, out, goal)} ::
              PassFrom(cmp, s, |s|, size, out, goal) ==> out == goal
  {
    assert s[0..] == s;
  }

  // ------------------------------------------------------------------- stable sorting

  ghost predicate Precedes<T>(orig: seq<T>, x: T, y: T) {
    exists i, j :: 0 <= i < j < |orig| && orig[i] == x && orig[j] == y
  }

  /** x may stand before y in a stable sort of orig. */
  ghost predicate InOrder<T>(cmp: Comparison<T>, orig: seq<T>, x: T, y: T) {
    AtMost(cmp, x, y) && (AtMost(cmp, y, x) ==> Precedes(orig, x, y))
  }

  ghost predicate Ordered<T>(cmp: Comparison<T>, orig: seq<T>, s: seq<T>) {
    forall i, j {:trigger InOrder(cmp, orig, s[i], s[j])} :: 0 <= i < j < |s| ==> InOrder(cmp, orig, s[i], s[j])
  }

  /** s is the stable sort of orig. */
  ghost predicate StableSort<T>(cmp: Comparison<T>, orig: seq<T>, s: seq<T>) {
    multiset(s) == multiset(orig) && Ordered(cmp, orig, s)
  }

  /** s consists of stably sorted runs of the given size (the last may be shorter). */
  ghost predicate Runs<T>(cmp: Comparison<T>, orig: seq<T>, s: seq<T>, size: nat)
    requires size > 0
  {
    |s| == |orig| &&
    if |s| <= size then StableSort(cmp, orig, s)
    else StableSort(cmp, orig[..size], s[..size]) && Runs(cmp, orig[size..], s[size..], size)
  }

  lemma {:induction false} MergePermutes<T>(cmp: Comparison<T>, xs: seq<T>, ys: seq<T>)
    ensures multiset(Merge(cmp, xs, ys)) == multiset(xs) + multiset(ys)
    decreases |xs| + |ys|
  {
    if xs == [] || ys == [] {
    } else if cmp(xs[0], ys[0]) <= 0 {
      MergePermutes(cmp, xs[1..], ys);
      MultisetHead(xs);
    } else {
      MergePermutes(cmp, xs, ys[1..]);
      MultisetHead(ys);
    }
  }

  lemma MultisetHead<T>(s: seq<T>)
    requires s != []
    ensures multiset(s) == multiset{s[0]} + multiset(s[1..])
  {
    assert s == [s[0]] + s[1..];
  }

  lemma MergeMembers<T>(cmp: Comparison<T>, xs: seq<T>, ys: seq<T>)
    ensures forall k :: 0 <= k < |Merge(cmp, xs, ys)| ==> Merge(cmp, xs, ys)[k] in xs || Merge(cmp, xs, ys)[k] in ys
  {
    MergePermutes(cmp, xs, ys);
    var m := Merge(cmp, xs, ys);
    forall k | 0 <= k < |m| ensures m[k] in xs || m[k] in ys {
      assert m[k] in multiset(m);
    }
  }

  lemma OrderedCons<T>(cmp: Comparison<T>, orig: seq<T>, first: T, m: seq<T>)
    requires Ordered(cmp, orig, m) && forall k :: 0 <= k < |m| ==> InOrder(cmp, orig, first, m[k])
    ensures Ordered(cmp, orig, [first] + m)
  {
    var r := [first] + m;
    forall i, j | 0 <= i < j < |r| ensures InOrder(cmp, orig, r[i], r[j]) {
      assert r[j] == m[j - 1] && (i > 0 ==> r[i] == m[i - 1]);
    }
  }

  /** The chosen head may stand before everything that is left in either list. */
  lemma HeadInOrder<T>(cmp: Comparison<T>, dom: set<T>, orig: seq<T>, xs: seq<T>, ys: seq<T>, z: T)
    requires TotalPreorder(cmp, dom) && Within(xs, dom) && Within(ys, dom)
    requires Ordered(cmp, orig, xs) && Ordered(cmp, orig, ys) && xs != [] && ys != []
    requires forall x, y :: x in xs && y in ys ==> Precedes(orig, x, y)
    ensures AtMost(cmp, xs[0], ys[0]) && (z in xs[1..] || z in ys) ==> InOrder(cmp, orig, xs[0], z)
    ensures !AtMost(cmp, xs[0], ys[0]) && (z in xs || z in ys[1..]) ==> InOrder(cmp, orig, ys[0], z)
  {
    var x, y := xs[0], ys[0];
    assert AtMost(cmp, x, x) && AtMost(cmp, y, y) && x in xs && y in ys;
    if z in xs[1..] {
      var k :| 0 <= k < |xs[1..]| && xs[1..][k] == z;
      assert InOrder(cmp, orig, xs[0], xs[k + 1]);
    }
    if z in ys[1..] {
      var k :| 0 <= k < |ys[1..]| && ys[1..][k] == z;
      assert InOrder(cmp, orig, ys[0], ys[k + 1]);
    }
    assert z in xs ==> z == x || z in xs[1..];
    assert z in ys ==> z == y || z in ys[1..];
    assert z in xs ==> AtMost(cmp, x, z);
    assert z in ys ==> AtMost(cmp, y, z);
  }

  lemma {:induction false} MergeOrdered<T>(cmp: Comparison<T>, dom: set<T>, orig: seq<T>, xs: seq<T>, ys: seq<T>)
    requires TotalPreorder(cmp, dom) && Within(xs, dom) && Within(ys, dom)
    requires Ordered(cmp, orig, xs) && Ordered(cmp, orig, ys)
    requires forall x, y :: x in xs && y in ys ==> Precedes(orig, x, y)
    ensures Ordered(cmp, orig, Merge(cmp, xs, ys))
    decreases |xs| + |ys|
  {
    if xs != [] && ys != [] {
      forall z | z in xs || z in ys
        ensures AtMost(cmp, xs[0], ys[0]) && (z in xs[1..] || z in ys) ==> InOrder(cmp, orig, xs[0], z)
        ensures !AtMost(cmp, xs[0], ys[0]) && (z in xs || z in ys[1..]) ==> InOrder(cmp, orig, ys[0], z)
      {
        HeadInOrder(cmp, dom, orig, xs, ys, z);
      }
      if AtMost(cmp, xs[0], ys[0]) {
        var m := Merge(cmp, xs[1..], ys);
        MergeOrdered(cmp, dom, orig, xs[1..], ys);
        MergeMembers(cmp, xs[1..], ys);
        OrderedCons(cmp, orig, xs[0], m);
      } else {
        var m := Merge(cmp, xs, ys[1..]);
        MergeOrdered(cmp, dom, orig, xs, ys[1..]);
        MergeMembers(cmp, xs, ys[1..]);
        OrderedCons(cmp, orig, ys[0], m);
      }
    }
  }

  /** all holds orig as a stretch of its own. */
  ghost predicate Stretch<T>(orig: seq<T>, all: seq<T>, at: nat) {
    at + |orig| <= |all| && forall i :: 0 <= i < |orig| ==> all[at + i] == orig[i]
  }

  lemma OrderedWider<T>(cmp: Comparison<T>, orig: seq<T>, all: seq<T>, at: nat, s: seq<T>)
    requires Ordered(cmp, orig, s) && Stretch(orig, all, at)
    ensures Ordered(cmp, all, s)
  {
    forall x, y | Precedes(orig, x, y) ensures Precedes(all, x, y) {
      var i, j :| 0 <= i < j < |orig| && orig[i] == x && orig[j] == y;
      assert all[at + i] == x && all[at + j] == y;
    }
    forall i, j | 0 <= i < j < |s| ensures InOrder(cmp, all, s[i], s[j]) {
      assert InOrder(cmp, orig, s[i], s[j]);
    }
  }

  lemma LeftPrecedes<T>(o1: seq<T>, o2: seq<T>, s1: seq<T>, s2: seq<T>)
    requires (forall x :: x in s1 ==> x in o1) && forall y :: y in s2 ==> y in o2
    ensures forall x, y :: x in s1 && y in s2 ==> Precedes(o1 + o2, x, y)
  {
    forall x, y | x in s1 && y in s2 ensures Precedes(o1 + o2, x, y) {
      var i :| 0 <= i < |o1| && o1[i] == x;
      var j :| 0 <= j < |o2| && o2[j] == y;
      assert (o1 + o2)[i] == x && (o1 + o2)[|o1| + j] == y;
    }
  }

  /** Merging the stable sorts of two neighbouring stretches sorts both stably. */
  lemma MergeStable<T>(cmp: Comparison<T>, dom: set<T>, o1: seq<T>, o2: seq<T>, s1: seq<T>, s2: seq<T>,
                       orig: seq<T>, merged: seq<T>)
    requires TotalPreorder(cmp, dom) && Within(s1, dom) && Within(s2, dom)
    requires StableSort(cmp, o1, s1) && StableSort(cmp, o2, s2)
    requires orig == o1 + o2 && merged == Merge(cmp, s1, s2)
    ensures StableSort(cmp, orig, merged)
  {
    OrderedWider(cmp, o1, orig, 0, s1);
    OrderedWider(cmp, o2, orig, |o1|, s2);
    SameMembers(s1, o1);
    SameMembers(s2, o2);
    LeftPrecedes(o1, o2, s1, s2);
    MergeOrdered(cmp, dom, orig, s1, s2);
    MergePermutes(cmp, s1, s2);
  }

  /** The first two runs. */
  lemma FirstRuns<T>(cmp: Comparison<T>, orig: seq<T>, s: seq<T>, size: nat)
    requires size > 0 && Runs(cmp, orig, s, size)
    ensures var mid, hi := Min(size, |s|), Min(2 * size, |s|);
            && StableSort(cmp, orig[..mid], s[..mid]) && StableSort(cmp, orig[mid..hi], s[mid..hi])
            && (|s| > 2 * size ==> Runs(cmp, orig[hi..], s[hi..], size))
  {
    if |s| <= size {
      assert s[..|s|] == s && orig[..|s|] == orig && s[|s|..|s|] == [] && orig[|s|..|s|] == [];
    } else {
      SecondRun(cmp, orig, s, size);
    }
  }

  lemma SecondRun<T>(cmp: Comparison<T>, orig: seq<T>, s: seq<T>, size: nat)
    requires size > 0 && |s| > size && |s| == |orig| && Runs(cmp, orig[size..], s[size..], size)
    ensures var hi := Min(2 * size, |s|);
            && StableSort(cmp, orig[size..hi], s[size..hi])
            && (|s| > 2 * size ==> Runs(cmp, orig[hi..], s[hi..], size))
  {
    var s', o' := s[size..], orig[size..];
    if |s| <= 2 * size {
      assert s' == s[size..|s|] && o' == orig[size..|s|];
    } else {
      var hi := 2 * size;
      assert s'[..size] == s[size..hi] && o'[..size] == orig[size..hi];
      assert s'[size..] == s[hi..] && o'[size..] == orig[hi..];
    }
  }

  lemma PassCut<T>(cmp: Comparison<T>, s: seq<T>, size: nat)
    requires size > 0 && s != []
    ensures var mid, hi, p := Min(size, |s|), Min(2 * size, |s|), Pass(cmp, s, size);
            p[..hi] == Merge(cmp, s[..mid], s[mid..hi]) && p[hi..] == Pass(cmp, s[hi..], size)
  {}

  lemma FirstRunMerged<T>(cmp: Comparison<T>, dom: set<T>, orig: seq<T>, s: seq<T>, size: nat)
    requires size > 0 && s != [] && TotalPreorder(cmp, dom) && Within(s, dom) && Runs(cmp, orig, s, size)
    ensures var hi := Min(2 * size, |s|); StableSort(cmp, orig[..hi], Pass(cmp, s, size)[..hi])
  {
    var mid, hi := Min(size, |s|), Min(2 * size, |s|);
    FirstRuns(cmp, orig, s, size);
    PassCut(cmp, s, size);
    assert orig[..hi] == orig[..mid] + orig[mid..hi];
    MergeStable(cmp, dom, orig[..mid], orig[mid..hi], s[..mid], s[mid..hi], orig[..hi], Pass(cmp, s, size)[..hi]);
  }

  lemma {:induction false} PassRuns<T>(cmp: Comparison<T>, dom: set<T>, orig: seq<T>, s: seq<T>, size: nat)
    requires size > 0 && TotalPreorder(cmp, dom) && Within(s, dom) && Runs(cmp, orig, s, size)
    ensures Runs(cmp, orig, Pass(cmp, s, size), 2 * size)
    decreases |s|
  {
    if s != [] {
      var hi, p := Min(2 * size, |s|), Pass(cmp, s, size);
      FirstRunMerged(cmp, dom, orig, s, size);
      if |s| <= 2 * size {
        assert orig[..hi] == orig && p[..hi] == p;
      } else {
        FirstRuns(cmp, orig, s, size);
        PassCut(cmp, s, size);
        PassRuns(cmp, dom, orig[hi..], s[hi..], size);
      }
    }
  }

  lemma {:induction false} RunsOfOne<T>(cmp: Comparison<T>, s: seq<T>)
    ensures Runs(cmp, s, s, 1)
  {
    if |s| > 1 { RunsOfOne(cmp, s[1..]); }
  }

  lemma StaysWithin<T>(s: seq<T>, t: seq<T>, dom: set<T>)
    requires multiset(s) == multiset(t) && Within(t, dom)
    ensures Within(s, dom)
  {
    SameMembers(s, t);
    forall i | 0 <= i < |s| ensures s[i] in dom { assert s[i] in s; }
  }

  lemma {:induction false} PassesStable<T>(cmp: Comparison<T>, dom: set<T>, orig: seq<T>, s: seq<T>, size: nat)
    requires size > 0 && TotalPreorder(cmp, dom) && Within(s, dom) && Runs(cmp, orig, s, size)
    ensures StableSort(cmp, orig, Passes(cmp, s, size))
    decreases if |s| > size then |s| - size else 0
  {
    PassRuns(cmp, dom, orig, s, size);
    if |s| > 2 * size {
      PassPermutes(cmp, s, size);
      StaysWithin(Pass(cmp, s, size), s, dom);
      PassesStable(cmp, dom, orig, Pass(cmp, s, size), 2 * size);
    }
  }

  /** For a total preorder, the passes starting with runs of one yield the stable sort. */
  lemma SortIsStable<T>(cmp: Comparison<T>, s: seq<T>)
    requires TotalPreorder(cmp, ToSet(s))
    ensures StableSort(cmp, s, Passes(cmp, s, 1))
  {
    RunsOfOne(cmp, s);
    PassesStable(cmp, ToSet(s), s, s, 1);
  }

  lemma MultisetSplit<T>(s: seq<T>, i: nat)
    requires i <= |s|
    ensures multiset(s) == multiset(s[..i]) + multiset(s[i..])
  {
    assert s == s[..i] + s[i..];
  }

  lemma {:induction false} PassPermutes<T>(cmp: Comparison<T>, s: seq<T>, size: nat)
    requires size > 0
    ensures multiset(Pass(cmp, s, size)) == multiset(s)
    decreases |s|
  {
    if s != [] {
      var mid, hi := Min(size, |s|), Min(2 * size, |s|);
      MergePermutes(cmp, s[..mid], s[mid..hi]);
      PassPermutes(cmp, s[hi..], size);
      MultisetSplit(s, hi);
      MultisetSplit(s[..hi], mid);
      assert s[..hi][..mid] == s[..mid] && s[..hi][mid..] == s[mid..hi];
    }
  }

  /** Whatever the comparison, the passes only rearrange. */
  lemma {:induction false} PassesPermute<T>(cmp: Comparison<T>, s: seq<T>, size: nat)
    requires size > 0
    ensures multiset(Passes(cmp, s, size)) == multiset(s)
    decreases if |s| > size then |s| - size else 0
  {
    PassPermutes(cmp, s, size);
    if |s| > 2 * size { PassesPermute(cmp, Pass(cmp, s, size), 2 * size); }
  }

  /** There is only one stable sort. */
  lemma {:induction false} StableSortUnique<T>(cmp: Comparison<T>, orig: seq<T>, s: seq<T>, t: seq<T>)
    requires forall i, j :: 0 <= i < j < |orig| ==> orig[i] != orig[j]
    requires StableSort(cmp, orig, s) && Ordered(cmp, orig, t) && multiset(s) == multiset(t)
    ensures s == t
  {
    FirstsAgree(cmp, orig, s, t, |s|);
    assert |s| == |multiset(s)| && |t| == |multiset(t)|;
  }

  lemma {:induction false} FirstsAgree<T>(cmp: Comparison<T>, orig: seq<T>, s: seq<T>, t: seq<T>, n: nat)
    requires forall i, j :: 0 <= i < j < |orig| ==> orig[i] != orig[j]
    requires Ordered(cmp, orig, s) && Ordered(cmp, orig, t) && multiset(s) == multiset(t) && n <= |s|
    ensures |s| == |t| && s[..n] == t[..n]
  {
    assert |s| == |multiset(s)| && |t| == |multiset(t)|;
    if n > 0 {
      FirstsAgree(cmp, orig, s, t, n - 1);
      TailsAgree(s, t, n - 1);
      HeadsAgree(cmp, orig, s[n - 1..], t[n - 1..]);
      assert s[..n] == s[..n - 1] + [s[n - 1]] && t[..n] == t[..n - 1] + [t[n - 1]];
    }
  }

  lemma TailsAgree<T>(s: seq<T>, t: seq<T>, n: nat)
    requires multiset(s) == multiset(t) && n <= |s| && n <= |t| && s[..n] == t[..n]
    ensures multiset(s[n..]) == multiset(t[n..])
  {
    MultisetSplit(s, n);
    MultisetSplit(t, n);
    assert multiset(s[n..]) == multiset(s) - multiset(s[..n]);
    assert multiset(t[n..]) == multiset(t) - multiset(t[..n]);
  }

  lemma HeadsAgree<T>(cmp: Comparison<T>, orig: seq<T>, s: seq<T>, t: seq<T>)
    requires forall i, j :: 0 <= i < j < |orig| ==> orig[i] != orig[j]
    requires Ordered(cmp, orig, s) && Ordered(cmp, orig, t) && multiset(s) == multiset(t) && s != [] && t != []
    ensures s[0] == t[0]
  {
    var x, y := s[0], t[0];
    assert x in multiset(t) && y in multiset(s);
    var i :| 0 <= i < |t| && t[i] == x;
    var j :| 0 <= j < |s| && s[j] == y;
    assert j > 0 ==> InOrder(cmp, orig, s[0], s[j]);
    assert i > 0 ==> InOrder(cmp, orig, t[0], t[i]);
    NotBothWays(orig, x, y);
  }

  lemma NotBothWays<T>(orig: seq<T>, x: T, y: T)
    requires forall i, j :: 0 <= i < j < |orig| ==> orig[i] != orig[j]
    ensures !(Precedes(orig, x, y) && Precedes(orig, y, x))
  {}
}
