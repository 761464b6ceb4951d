/** Sequences without repetitions, which stand for the source's lists of distinct items. */
module Sequences {

  lemma OneMore<T>(s: seq<T>, i: nat)
    requires i < |s|
    ensures s[..i + 1] == s[..i] + [s[i]]
  {}

  lemma Associate<T>(x: seq<T>, y: seq<T>, z: seq<T>)
    ensures (x + y) + z == x + (y + z)
  {}

  lemma Rejoin<T>(s: seq<T>, i: nat)
    requires i <= |s|
    ensures s[..i] + s[i..] == s
  {}

  function ToSet<T(==)>(s: seq<T>): set<T> { set x | x in s }

  ghost predicate NoDup<T>(s: seq<T>) {
    forall i, j :: 0 <= i < j < |s| ==> s[i] != s[j]
  }

  lemma {:induction false} NoDupSize<T>(s: seq<T>)
    requires NoDup(s)
    ensures |ToSet(s)| == |s|
  {
    if s != [] {
      var rest := s[..|s| - 1];
      NoDupSize(rest);
      assert s == rest + [s[|s| - 1]];
      assert ToSet(s) == ToSet(rest) + {s[|s| - 1]};
      assert s[|s| - 1] !in rest;
    } else {
      assert ToSet(s) == {};
    }
  }

  lemma SameMembers<T>(s: seq<T>, t: seq<T>)
    requires multiset(s) == multiset(t)
    ensures forall x :: x in s <==> x in t
  {
    forall x ensures x in s <==> x in t { assert x in multiset(s) <==> x in multiset(t); }
  }

  lemma MultisetOfNoDup<T>(s: seq<T>, x: T)
    requires NoDup(s)
    ensures multiset(s)[x] == if x in s then 1 else 0
  {
    if x in s {
      var i :| 0 <= i < |s| && s[i] == x;
      assert s == s[..i] + [x] + s[i + 1..];
      assert x !in s[..i] && x !in s[i + 1..];
    }
  }

  lemma NoDupOfMultiset<T>(s: seq<T>)
    requires forall x :: multiset(s)[x] <= 1
    ensures NoDup(s)
  {
    forall i, j | 0 <= i < j < |s| ensures s[i] != s[j] {
      assert s == s[..i] + [s[i]] + s[i + 1..];
      assert multiset(s)[s[i]] == multiset(s[..i])[s[i]] + 1 + multiset(s[i + 1..])[s[i]];
      assert s[j] == s[i + 1..][j - i - 1];
    }
  }

  /** The elements at the other positions, in order. */
  function LeaveOut<T>(s: seq<T>, gone: set<nat>): seq<T> {
    if s == [] then []
    else LeaveOut(s[..|s| - 1], gone) + if |s| - 1 in gone then [] else [s[|s| - 1]]
  }

  /** An element that stays comes behind as many as stay before it. */
  lemma {:induction false} LeaveOutSays<T>(s: seq<T>, gone: set<nat>, i: nat)
    requires i < |s| && i !in gone
    ensures |set a: nat | a < i && a !in gone| < |LeaveOut(s, gone)| == |set a: nat | a < |s| && a !in gone|
    ensures LeaveOut(s, gone)[|set a: nat | a < i && a !in gone|] == s[i]
  {
    var n := |s| - 1;
    LeaveOutSize(s, gone);
    LeaveOutSize(s[..n], gone);
    if i < n { LeaveOutSays(s[..n], gone, i); }
  }

  lemma {:induction false} LeaveOutSize<T>(s: seq<T>, gone: set<nat>)
    ensures |LeaveOut(s, gone)| == |set a: nat | a < |s| && a !in gone|
  {
    if s == [] {
      assert (set a: nat | a < |s| && a !in gone) == {};
    } else {
      var n := |s| - 1;
      LeaveOutSize(s[..n], gone);
      var before := set a: nat | a < n && a !in gone;
      assert (set a: nat | a < |s| && a !in gone) == if n in gone then before else before + {n};
    }
  }
}
